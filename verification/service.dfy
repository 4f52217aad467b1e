/**
 The catalog store's operations (`ProductService`): the filtered, counted,
 ordered and paged listing, and the point lookup, create, update and delete.
 The clock reading and the identity value the database hands out are
 parameters; `SaveChanges` either commits the new table or is rejected.
 */
module ProductService {

  import opened Wrappers
  import opened Text
  import opened Schema
  import opened Ordering

  /** `string.IsNullOrEmpty`. */
  predicate IsNullOrEmpty(s: Option<string>)
  {
    s.None? || s.value == []
  }

  /** The search filter: no search text keeps every row, otherwise the name or the description must contain it. */
  predicate SearchHit(p: Product, search: Option<string>)
  {
    IsNullOrEmpty(search) || Contains(p.name, search.value) || Contains(p.description, search.value)
  }

  /** The category filter: no category keeps every row, otherwise the category must be exactly it. */
  predicate CategoryHit(p: Product, category: Option<string>)
  {
    IsNullOrEmpty(category) || p.category == category.value
  }

  /** Both filters, applied one after the other, so a row must pass each. */
  predicate Selected(p: Product, search: Option<string>, category: Option<string>)
  {
    SearchHit(p, search) && CategoryHit(p, category)
  }

  /** The filtered query: the rows of the table that pass both filters. */
  function Matching(store: Store, search: Option<string>, category: Option<string>): (r: map<Id, Product>)
    ensures r.Keys == MatchingKeys(store, search, category)
    ensures forall k :: k in r ==> k in store && r[k] == store[k]
  {
    map k | k in store && Selected(store[k], search, category) :: store[k]
  }

  /** The keys of the rows that pass both filters. */
  ghost function MatchingKeys(store: Store, search: Option<string>, category: Option<string>): set<Id>
  {
    set k | k in store && Selected(store[k], search, category)
  }

  /**
   The filtered query ordered by `createdAt` descending, before paging: one id
   for each matching row. `RankingListsMatches` says which ids and in what order.
   */
  function Ranked(store: Store, search: Option<string>, category: Option<string>): (ids: seq<Id>)
    ensures ListsRowsOf(store, ids)
    ensures |ids| == |MatchingKeys(store, search, category)|
  {
    var m := Matching(store, search, category);
    var ids := NewestFirstListing(m);
    assert m.Keys == MatchingKeys(store, search, category);
    EnumeratesKeys(m, ids);
    SubTableOrder(m, store, ids);
    ids
  }

  /** The ranking lists every matching row exactly once and nothing else, newest first. */
  lemma RankingListsMatches(store: Store, search: Option<string>, category: Option<string>)
    ensures var ids := Ranked(store, search, category);
      && (forall k :: k in ids <==> k in store && Selected(store[k], search, category))
      && (forall i, j :: 0 <= i < j < |ids| ==> ids[i] != ids[j])
      && NewestFirst(store, ids)
  {
    var m := Matching(store, search, category);
    var ids := NewestFirstListing(m);
    assert Ranked(store, search, category) == ids;
    EnumeratesKeys(m, ids);
    SubTableOrder(m, store, ids);
  }

  /** A list whose multiset is a table's key set lists each key exactly once and nothing else. */
  lemma EnumeratesKeys(m: map<Id, Product>, ids: seq<Id>)
    requires multiset(ids) == multiset(m.Keys)
    ensures forall k :: k in ids <==> k in m
    ensures forall i, j :: 0 <= i < j < |ids| ==> ids[i] != ids[j]
    ensures |ids| == |m.Keys|
  {
    forall k
      ensures k in ids <==> k in m
    {
      assert k in ids <==> k in multiset(ids);
    }
    forall i, j | 0 <= i < j < |ids|
      ensures ids[i] != ids[j]
    {
      if ids[i] == ids[j] {
        RepeatCountsTwice(ids, i, j);
        assert false;
      }
    }
    assert |ids| == |multiset(ids)| == |multiset(m.Keys)| == |m.Keys|;
  }

  /** An order of the rows of a sub-table is an order of the same rows of the whole table. */
  lemma SubTableOrder(m: map<Id, Product>, store: Store, ids: seq<Id>)
    requires NewestFirst(m, ids)
    requires m.Keys <= store.Keys
    requires forall k :: k in m ==> store[k] == m[k]
    ensures NewestFirst(store, ids)
  {
    forall i | 0 <= i < |ids|
      ensures ids[i] in store && store[ids[i]] == m[ids[i]]
    {
      var k := ids[i];
      assert k in m;
      assert k in m.Keys;
    }
    forall i | 0 <= i < |ids| - 1
      ensures store[ids[i]].createdAt >= store[ids[i + 1]].createdAt
    {
      assert m[ids[i]].createdAt >= m[ids[i + 1]].createdAt;
    }
  }

  /** An id listed twice occurs at least twice in the list's multiset. */
  lemma RepeatCountsTwice(ids: seq<Id>, i: int, j: int)
    requires 0 <= i < j < |ids| && ids[i] == ids[j]
    ensures multiset(ids)[ids[i]] >= 2
  {
    var a, b := ids[..j], ids[j..];
    assert ids == a + b;
    assert ids[i] in a && ids[j] in b;
    assert multiset(ids) == multiset(a) + multiset(b);
  }

  /** The response of a listing request: one page and the figures describing all pages. */
  datatype PagedResult = PagedResult(
    data: seq<Product>,
    totalCount: int,
    pageNumber: int,
    pageSize: int,
    totalPages: int,
    hasNextPage: bool,
    hasPreviousPage: bool)

  /**
   The paging half of `GetProductsAsync`, applied to the ids of the filtered
   query in listing order: count them, work out the number of pages, and take
   the rows of page `page`. The page size must be positive, since the page count
   divides by it.
   */
  function Paginate(store: Store, ranked: seq<Id>, page: int, limit: nat): (r: PagedResult)
    requires limit >= 1 && ListsRowsOf(store, ranked)
    ensures r.totalCount == |ranked|
    ensures r.pageNumber == page && r.pageSize == limit
    ensures r.totalCount == 0 ==> r.totalPages == 0
    ensures r.totalCount > 0 ==> Offset(r.totalPages, limit) < r.totalCount <= Offset(r.totalPages + 1, limit)
    ensures r.hasNextPage <==> page < r.totalPages
    ensures r.hasPreviousPage <==> page > 1
    ensures |r.data| == Min(limit, Max(0, r.totalCount - Offset(page, limit)))
  {
    var totalPages := PageCount(|ranked|, limit);
    PageCountBounds(|ranked|, limit);
    var rows := Rows(store, SkipTake(ranked, Offset(page, limit), limit));
    PagedResult(rows, |ranked|, page, limit, totalPages, page < totalPages, page > 1)
  }

  /**
   `GetProductsAsync`: filter, count, order newest first, then skip the earlier
   pages and take one page. The count is that of the matching rows. Below page 1
   the number of rows to skip, `(page - 1) * limit`, is negative, and the
   database refuses a negative `OFFSET`: the call fails and nothing is answered.
   */
  function GetProducts(store: Store, page: int, limit: int, search: Option<string>, category: Option<string>): (r: Option<PagedResult>)
    requires limit >= 1
    ensures r.Some? <==> page >= 1
    ensures r.Some? ==> r.value.totalCount == |MatchingKeys(store, search, category)|
    ensures r.Some? ==> r.value.pageNumber == page && r.value.pageSize == limit
  {
    if page < 1 then None else Some(Paginate(store, Ranked(store, search, category), page, limit))
  }

  /**
   A page is a window of the listing that starts after the earlier pages: its
   `i`-th row is the listing's row at `Offset + i`.
   */
  lemma PageIsWindow(store: Store, ranked: seq<Id>, page: int, limit: nat)
    requires limit >= 1 && ListsRowsOf(store, ranked)
    ensures var r := Paginate(store, ranked, page, limit);
      forall i :: 0 <= i < |r.data| ==> Offset(page, limit) + i < |ranked| && r.data[i] == store[ranked[Offset(page, limit) + i]]
  {
    WindowRows(store, ranked, Offset(page, limit), limit);
  }

  /** A page of a newest-first listing is itself newest first. */
  lemma PageKeepsOrder(store: Store, ranked: seq<Id>, page: int, limit: nat)
    requires limit >= 1 && NewestFirst(store, ranked)
    ensures var data := Paginate(store, ranked, page, limit).data;
      forall i :: 0 <= i < |data| - 1 ==> data[i].createdAt >= data[i + 1].createdAt
  {
    var w := SkipTake(ranked, Offset(page, limit), limit);
    WindowKeepsOrder(store, ranked, Offset(page, limit), limit);
    var data := Paginate(store, ranked, page, limit).data;
    forall i | 0 <= i < |data| - 1
      ensures data[i].createdAt >= data[i + 1].createdAt
    {
      assert data[i] == store[w[i]] && data[i + 1] == store[w[i + 1]];
    }
  }

  /** Every row on an answered page is a stored row that passes both filters, and the page runs newest first. */
  lemma PageShowsMatchesNewestFirst(store: Store, page: int, limit: nat, search: Option<string>, category: Option<string>)
    requires limit >= 1
    ensures var r := GetProducts(store, page, limit, search, category);
      r.Some? ==>
        && (forall i :: 0 <= i < |r.value.data| ==> r.value.data[i] in store.Values && Selected(r.value.data[i], search, category))
        && (forall i :: 0 <= i < |r.value.data| - 1 ==> r.value.data[i].createdAt >= r.value.data[i + 1].createdAt)
  {
    var ranked := Ranked(store, search, category);
    var data := Paginate(store, ranked, page, limit).data;
    RankingListsMatches(store, search, category);
    PageIsWindow(store, ranked, page, limit);
    PageKeepsOrder(store, ranked, page, limit);
    forall i | 0 <= i < |data|
      ensures data[i] in store.Values && Selected(data[i], search, category)
    {
      var k := ranked[Offset(page, limit) + i];
      assert data[i] == store[k] && k in ranked;
    }
  }

  /** The rows of a window of a listing are the listing's rows from the window's start on. */
  lemma WindowRows(store: Store, ids: seq<Id>, skip: nat, take: nat)
    requires ListsRowsOf(store, ids)
    ensures var rows := Rows(store, SkipTake(ids, skip, take));
      forall i :: 0 <= i < |rows| ==> skip + i < |ids| && rows[i] == store[ids[skip + i]]
  {
    var w := SkipTake(ids, skip, take);
    assert w == [] || skip + |w| <= |ids|;
    var rows := Rows(store, w);
    forall i | 0 <= i < |rows|
      ensures skip + i < |ids| && rows[i] == store[ids[skip + i]]
    {
      assert w[i] == ids[skip + i];
    }
  }

  /** A window of a newest-first list is itself newest first. */
  lemma WindowKeepsOrder(store: Store, ids: seq<Id>, skip: int, take: int)
    requires take >= 0 && NewestFirst(store, ids)
    ensures NewestFirst(store, SkipTake(ids, skip, take))
  {
    var w := SkipTake(ids, skip, take);
    forall i | 0 <= i < |w| - 1
      ensures store[w[i]].createdAt >= store[w[i + 1]].createdAt
    {
      var n := Max(0, skip) + i;
      assert w[i] == ids[n] && w[i + 1] == ids[n + 1];
    }
  }

  /** The rows a list of ids names, in the list's order. */
  function Rows(store: Store, ids: seq<Id>): (rows: seq<Product>)
    requires ListsRowsOf(store, ids)
    ensures |rows| == |ids|
    ensures forall i :: 0 <= i < |ids| ==> rows[i] == store[ids[i]]
  {
    seq(|ids|, i requires 0 <= i < |ids| => store[ids[i]])
  }

  /** `GetProductByIdAsync`: the row filed under `id`, or nothing. */
  function GetProductById(store: Store, id: Id): (r: Option<Product>)
    ensures r.None? <==> id !in store
    ensures r.Some? ==> r.value == store[id]
    ensures StoreValid(store) && r.Some? ==> r.value.id == id
  {
    if id in store then Some(store[id]) else None
  }

  /**
   `CreateProductAsync`: a new row under the identity value `freshId`, which the
   database guarantees is not in use, stamped with the current time `now`. The
   write is rejected when the fields do not fit the columns.
   */
  function CreateProduct(store: Store, input: Fields, now: Time, freshId: Id): (r: Write<Product>)
    requires freshId !in store
    ensures r.Committed? <==> ColumnsFit(input)
    ensures r.Committed? ==> r.value.id == freshId && FieldsOf(r.value) == input && r.value.createdAt == now
    ensures r.Committed? ==> r.store.Keys == store.Keys + {freshId} && r.store[freshId] == r.value
    ensures r.Committed? ==> forall k :: k in store ==> r.store[k] == store[k]
    ensures r.Committed? && StoreValid(store) ==> StoreValid(r.store)
  {
    if ColumnsFit(input) then
      var product := Row(freshId, input, now);
      Committed(store[freshId := product], product)
    else
      Rejected
  }

  /**
   `UpdateProductAsync`: nothing when no row has `id`; otherwise the row's five
   client fields are replaced wholesale while its id and creation time stay. The
   write is rejected when the new fields do not fit the columns.
   */
  function UpdateProduct(store: Store, id: Id, input: Fields): (r: Write<Option<Product>>)
    ensures id !in store ==> r == Committed(store, None)
    ensures id in store ==> (r.Committed? <==> ColumnsFit(input))
    ensures id in store && r.Committed? ==>
      && r.value.Some?
      && FieldsOf(r.value.value) == input
      && r.value.value.id == store[id].id
      && r.value.value.createdAt == store[id].createdAt
      && r.store == store[id := r.value.value]
    ensures r.Committed? && StoreValid(store) ==> StoreValid(r.store)
  {
    if id !in store then Committed(store, None)
    else if !ColumnsFit(input) then Rejected
    else
      var current := store[id];
      var product := Row(current.id, input, current.createdAt);
      Committed(store[id := product], Some(product))
  }

  /** `DeleteProductAsync`: removes the row under `id`, reporting whether there was one. */
  function DeleteProduct(store: Store, id: Id): (r: Write<bool>)
    ensures r.Committed?
    ensures r.value <==> id in store
    ensures r.store.Keys == store.Keys - {id}
    ensures forall k :: k in r.store ==> r.store[k] == store[k]
    ensures StoreValid(store) ==> StoreValid(r.store)
  {
    if id !in store then Committed(store, false)
    else Committed(store - {id}, true)
  }
}
