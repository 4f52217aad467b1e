/**
 The order and window of a listing: `OrderByDescending(p => p.CreatedAt)`,
 `Skip` and `Take`, and the page count. Rows are handled by their keys, so a
 listing is a sequence of ids into the table it was taken from.
 */
module Ordering {

  import opened Schema

  function Min(a: int, b: int): int { if a <= b then a else b }

  function Max(a: int, b: int): int { if a <= b then b else a }

  /** True iff `m` is the least element of `s`. */
  predicate IsLeast(s: set<Id>, m: Id)
  {
    m in s && forall k :: k in s ==> m <= k
  }

  lemma {:induction false} LeastExists(s: set<Id>)
    requires s != {}
    ensures exists m :: IsLeast(s, m)
    decreases |s|
  {
    if forall k :: k !in s {
      assert false;
    }
    var x :| x in s;
    var rest := s - {x};
    if rest == {} {
      assert s == {x};
      assert IsLeast(s, x);
    } else {
      LeastExists(rest);
      var y :| IsLeast(rest, y);
      assert forall k :: k in s ==> k == x || k in rest;
      if x <= y {
        assert IsLeast(s, x);
      } else {
        assert IsLeast(s, y);
      }
    }
  }

  /** The least element of a non-empty set of ids. */
  function Least(s: set<Id>): (m: Id)
    requires s != {}
    ensures IsLeast(s, m)
  {
    LeastExists(s);
    var m :| IsLeast(s, m);
    m
  }

  /** The ids of a set in ascending order, each exactly once. */
  function AscendingIds(s: set<Id>): (r: seq<Id>)
    ensures multiset(r) == multiset(s)
    ensures forall i, j :: 0 <= i < j < |r| ==> r[i] < r[j]
    decreases |s|
  {
    if s == {} then []
    else
      var m := Least(s);
      var rest := AscendingIds(s - {m});
      LeastThenRest(s, m, rest);
      [m] + rest
  }

  /** The least id followed by the others in ascending order lists the set in ascending order. */
  lemma LeastThenRest(s: set<Id>, m: Id, rest: seq<Id>)
    requires IsLeast(s, m)
    requires multiset(rest) == multiset(s - {m})
    requires forall i, j :: 0 <= i < j < |rest| ==> rest[i] < rest[j]
    ensures multiset([m] + rest) == multiset(s)
    ensures forall i, j :: 0 <= i < j < |[m] + rest| ==> ([m] + rest)[i] < ([m] + rest)[j]
  {
    assert multiset(s) == multiset{m} + multiset(s - {m});
    forall i | 0 <= i < |rest|
      ensures m < rest[i]
    {
      assert rest[i] in multiset(s - {m});
    }
  }

  /** Every id listed is a key of the table. */
  ghost predicate ListsRowsOf(store: Store, ids: seq<Id>)
  {
    forall i :: 0 <= i < |ids| ==> ids[i] in store
  }

  /**
   The list names rows of the table, newest first: `createdAt` never increases
   from one row to the next.
   */
  ghost predicate NewestFirst(store: Store, ids: seq<Id>)
  {
    && ListsRowsOf(store, ids)
    && forall i :: 0 <= i < |ids| - 1 ==> store[ids[i]].createdAt >= store[ids[i + 1]].createdAt
  }

  /** In a newest-first list, every row is at least as new as every row after it. */
  lemma {:induction false} NewestFirstPairwise(store: Store, ids: seq<Id>, i: int, j: int)
    requires NewestFirst(store, ids)
    requires 0 <= i <= j < |ids|
    ensures store[ids[i]].createdAt >= store[ids[j]].createdAt
    decreases j - i
  {
    if i < j {
      NewestFirstPairwise(store, ids, i + 1, j);
    }
  }

  /** Places `id` into a newest-first list, before the first row that is not newer. */
  function InsertNewestFirst(store: Store, id: Id, ids: seq<Id>): (r: seq<Id>)
    requires id in store && NewestFirst(store, ids)
    ensures multiset(r) == multiset(ids) + multiset{id}
    ensures NewestFirst(store, r)
    ensures r[0] == id || (ids != [] && r[0] == ids[0])
  {
    if ids == [] then [id]
    else if store[id].createdAt >= store[ids[0]].createdAt then
      PrependNewestFirst(store, id, ids);
      [id] + ids
    else
      assert ids == [ids[0]] + ids[1..];
      var rest := InsertNewestFirst(store, id, ids[1..]);
      PrependNewestFirst(store, ids[0], rest);
      [ids[0]] + rest
  }

  /** A row at least as new as the head of a newest-first list can go in front of it. */
  lemma PrependNewestFirst(store: Store, id: Id, ids: seq<Id>)
    requires id in store && NewestFirst(store, ids)
    requires ids != [] ==> store[id].createdAt >= store[ids[0]].createdAt
    ensures NewestFirst(store, [id] + ids)
  {
    var r := [id] + ids;
    forall i | 0 <= i < |r| - 1
      ensures store[r[i]].createdAt >= store[r[i + 1]].createdAt
    {
      if i > 0 {
        assert r[i] == ids[i - 1] && r[i + 1] == ids[i];
      }
    }
  }

  /**
   Sorts a list of ids newest first by their rows' `createdAt`. The result is a
   permutation of the input; rows with equal timestamps may come in any order.
   */
  function SortNewestFirst(store: Store, ids: seq<Id>): (r: seq<Id>)
    requires ListsRowsOf(store, ids)
    ensures multiset(r) == multiset(ids)
    ensures NewestFirst(store, r)
  {
    if ids == [] then []
    else
      assert ids == [ids[0]] + ids[1..];
      InsertNewestFirst(store, ids[0], SortNewestFirst(store, ids[1..]))
  }

  /** Every row of the table, each exactly once, newest first. */
  function NewestFirstListing(store: Store): (r: seq<Id>)
    ensures multiset(r) == multiset(store.Keys)
    ensures NewestFirst(store, r)
  {
    var ids := AscendingIds(store.Keys);
    assert forall i :: 0 <= i < |ids| ==> ids[i] in multiset(store.Keys);
    SortNewestFirst(store, ids)
  }

  /**
   `xs.Skip(skip).Take(take)`: the window stops early at the end of the list.
   The listing only ever skips a non-negative number of rows; a negative skip
   is read as skipping nothing.
   */
  function SkipTake<T>(xs: seq<T>, skip: int, take: int): (r: seq<T>)
    requires take >= 0
    ensures |r| == Min(take, Max(0, |xs| - Max(0, skip)))
    ensures forall i :: 0 <= i < |r| ==> r[i] == xs[Max(0, skip) + i]
  {
    var from := Max(0, skip);
    if from >= |xs| then [] else xs[from..Min(from + take, |xs|)]
  }

  /**
   The number of rows the pages before page `page` hold, `limit` rows each: the
   count handed to `Skip`. Page 1, and any page below it, skips nothing.
   `OffsetIsProduct` gives the closed form `(page - 1) * limit`.
   */
  function Offset(page: int, limit: nat): nat
    decreases page
  {
    if page <= 1 then 0 else Offset(page - 1, limit) + limit
  }

  /** The page-by-page offset is `(page - 1) * limit`, cut off at zero; `GetProducts` never asks for a page below 1. */
  lemma {:induction false} OffsetIsProduct(page: int, limit: nat)
    ensures Offset(page, limit) == Max(0, (page - 1) * limit)
    ensures page >= 1 ==> Offset(page, limit) == (page - 1) * limit
    decreases page
  {
    if page > 1 {
      OffsetIsProduct(page - 1, limit);
      assert (page - 1) * limit == (page - 2) * limit + limit;
    } else {
      MulMonotone(page - 1, 0, limit);
    }
  }

  /** Later pages never start earlier. */
  lemma {:induction false} OffsetMonotone(a: int, b: int, limit: nat)
    requires a <= b
    ensures Offset(a, limit) <= Offset(b, limit)
    decreases b - a
  {
    if a < b {
      OffsetMonotone(a, b - 1, limit);
    }
  }

  /** Every position of a listing lies on a page from 1 on: at or after that page's start and before the next one's. */
  lemma {:induction false} PageHolding(i: nat, limit: int) returns (page: int)
    requires limit >= 1
    ensures page >= 1 && Offset(page, limit) <= i < Offset(page + 1, limit)
    decreases i
  {
    if i < limit {
      page := 1;
      assert Offset(2, limit) == limit;
    } else {
      var p := PageHolding(i - limit, limit);
      page := p + 1;
      assert Offset(page + 1, limit) == Offset(p + 1, limit) + limit;
    }
  }

  /**
   The number of pages of `size` rows that `n` rows fill, the last one possibly
   only in part: each page takes up to `size` rows until none remain.
   */
  function PageCount(n: nat, size: int): (q: nat)
    requires size >= 1
    ensures q == 0 <==> n == 0
    decreases n
  {
    if n == 0 then 0 else 1 + PageCount(if n <= size then 0 else n - size, size)
  }

  /** The last page starts before the last row, and a page after it would start past every row. */
  lemma {:induction false} PageCountBounds(n: nat, size: int)
    requires size >= 1
    ensures n > 0 ==> Offset(PageCount(n, size), size) < n <= Offset(PageCount(n, size) + 1, size)
    decreases n
  {
    if n > size {
      PageCountBounds(n - size, size);
      var q := PageCount(n - size, size);
      assert PageCount(n, size) == q + 1;
      assert Offset(q + 1, size) == Offset(q, size) + size;
      assert Offset(q + 2, size) == Offset(q + 1, size) + size;
    } else if n > 0 {
      assert PageCount(n, size) == 1;
      assert Offset(2, size) == size;
    }
  }

  /**
   The integer ceiling of `n / d`, `Math.Ceiling` applied to the quotient: the
   one number of pages of size `d` that holds `n` items with the last page
   non-empty.
   */
  function CeilDiv(n: nat, d: int): (q: nat)
    requires d >= 1
    ensures (q - 1) * d < n <= q * d
  {
    var q := (n + d - 1) / d;
    var r := (n + d - 1) % d;
    assert n + d - 1 == q * d + r;
    assert (q - 1) * d == q * d - d;
    q
  }

  /** At most one number satisfies the ceiling's characterisation. */
  lemma CeilDivUnique(n: nat, d: int, t: int)
    requires d >= 1
    requires (t - 1) * d < n <= t * d
    ensures t == CeilDiv(n, d)
  {
    var q := CeilDiv(n, d);
    if t < q {
      assert t * d <= (q - 1) * d by { MulMonotone(t, q - 1, d); }
      assert false;
    } else if t > q {
      assert q * d <= (t - 1) * d by { MulMonotone(q, t - 1, d); }
      assert false;
    }
  }

  /** Counting pages one at a time gives the ceiling of `n / size`. */
  lemma PageCountIsCeiling(n: nat, size: int)
    requires size >= 1
    ensures PageCount(n, size) == CeilDiv(n, size)
  {
    var q := PageCount(n, size);
    if n > 0 {
      PageCountBounds(n, size);
      OffsetIsProduct(q, size);
      OffsetIsProduct(q + 1, size);
    }
    CeilDivUnique(n, size, q);
  }

  lemma MulMonotone(a: int, b: int, d: int)
    requires a <= b && d >= 0
    ensures a * d <= b * d
  {
    assert b * d - a * d == (b - a) * d;
  }
}
