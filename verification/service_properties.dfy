/**
 Properties of the catalog store that relate several calls: what the filters
 keep, how the page figures describe the pages, and how each write shows in
 later reads.
 */
module ServiceProperties {

  import opened Wrappers
  import opened Text
  import opened Schema
  import opened Ordering
  import opened ProductService

  /**
   With a search text, every listed row has the text at some offset of its name or
   of its description; with a category, every listed row is in that category.
   */
  lemma ListedRowsMatchFilters(store: Store, page: int, limit: nat, search: Option<string>, category: Option<string>, p: Product)
    requires limit >= 1
    requires GetProducts(store, page, limit, search, category).Some?
    requires p in GetProducts(store, page, limit, search, category).value.data
    ensures !IsNullOrEmpty(search) ==>
      (exists i :: OccursAt(p.name, search.value, i)) || (exists i :: OccursAt(p.description, search.value, i))
    ensures !IsNullOrEmpty(category) ==> p.category == category.value
  {
    var data := GetProducts(store, page, limit, search, category).value.data;
    PageShowsMatchesNewestFirst(store, page, limit, search, category);
    var n :| 0 <= n < |data| && data[n] == p;
    assert Selected(p, search, category);
    if !IsNullOrEmpty(search) {
      ContainsIffOccurs(p.name, search.value);
      ContainsIffOccurs(p.description, search.value);
    }
  }

  /**
   Every stored row that passes both filters, read through the offset-based
   definition of containment, is counted and ranked: with a search text, the
   text sits at some offset of the row's name or description; with a category,
   the row is in it. Either filter may be absent.
   */
  lemma MatchingRowsAreCounted(store: Store, search: Option<string>, category: Option<string>, k: Id)
    requires k in store
    requires !IsNullOrEmpty(search) ==>
      (exists i :: OccursAt(store[k].name, search.value, i)) || (exists i :: OccursAt(store[k].description, search.value, i))
    requires !IsNullOrEmpty(category) ==> store[k].category == category.value
    ensures k in Ranked(store, search, category)
  {
    if !IsNullOrEmpty(search) {
      ContainsIffOccurs(store[k].name, search.value);
      ContainsIffOccurs(store[k].description, search.value);
    }
    RankingListsMatches(store, search, category);
  }

  /** With neither a search text nor a category, every row of the table is counted. */
  lemma NoFilterKeepsEverything(store: Store, page: int, limit: nat, search: Option<string>, category: Option<string>)
    requires limit >= 1
    requires IsNullOrEmpty(search) && IsNullOrEmpty(category)
    ensures var r := GetProducts(store, page, limit, search, category); r.Some? ==> r.value.totalCount == |store|
    ensures forall k :: k in store <==> k in Ranked(store, search, category)
  {
    forall k | k in store
      ensures k in MatchingKeys(store, search, category)
    {
      assert Selected(store[k], search, category);
    }
    assert MatchingKeys(store, search, category) == store.Keys;
    RankingListsMatches(store, search, category);
  }

  /** The two filters compose by conjunction: the rows kept are those each filter keeps on its own. */
  lemma FiltersIntersect(store: Store, search: Option<string>, category: Option<string>)
    ensures MatchingKeys(store, search, category) == MatchingKeys(store, search, None) * MatchingKeys(store, None, category)
  {
    forall k | k in store
      ensures Selected(store[k], search, category) <==> Selected(store[k], search, None) && Selected(store[k], None, category)
    {
    }
  }

  /**
   The arithmetic of paging: with `pages` pages holding `count` rows, the last
   one non-empty, and `shown` the number of rows page `page` holds, there is a
   next page exactly when rows remain after this one, and the page holds rows
   exactly when `page <= pages`.
   */
  lemma PagingArithmetic(count: nat, pages: nat, limit: nat, page: int, shown: int)
    requires limit >= 1 && page >= 1
    requires count == 0 ==> pages == 0
    requires count > 0 ==> Offset(pages, limit) < count <= Offset(pages + 1, limit)
    requires shown == Min(limit, Max(0, count - Offset(page, limit)))
    ensures page < pages <==> Offset(page, limit) + shown < count
    ensures shown > 0 <==> page <= pages
  {
    assert Offset(page + 1, limit) == Offset(page, limit) + limit;
    if page < pages {
      OffsetMonotone(page + 1, pages, limit);
    } else {
      OffsetMonotone(pages + 1, page + 1, limit);
    }
    if page > pages {
      OffsetMonotone(pages + 1, page, limit);
    }
  }

  /** `TotalPages` is the ceiling of `TotalCount / PageSize`, the quotient `Math.Ceiling` rounds up. */
  lemma TotalPagesIsCeiling(store: Store, ranked: seq<Id>, page: int, limit: nat)
    requires limit >= 1 && ListsRowsOf(store, ranked)
    ensures var r := Paginate(store, ranked, page, limit);
      r.totalPages == CeilDiv(r.totalCount, limit)
  {
    var r := Paginate(store, ranked, page, limit);
    assert r.totalPages == PageCount(r.totalCount, limit);
    PageCountIsCeiling(r.totalCount, limit);
  }

  /**
   On a page from 1 on, `HasNextPage` holds exactly when rows remain after the
   ones this page and the earlier pages show.
   */
  lemma HasNextPageIffRowsRemain(store: Store, ranked: seq<Id>, page: int, limit: nat)
    requires limit >= 1 && page >= 1 && ListsRowsOf(store, ranked)
    ensures var r := Paginate(store, ranked, page, limit);
      r.hasNextPage <==> Offset(page, limit) + |r.data| < r.totalCount
  {
    var r := Paginate(store, ranked, page, limit);
    PagingArithmetic(r.totalCount, r.totalPages, limit, page, |r.data|);
  }

  /** A page from 1 on holds rows exactly when its number is at most `TotalPages`. */
  lemma PageNonEmptyIffWithinPages(store: Store, ranked: seq<Id>, page: int, limit: nat)
    requires limit >= 1 && page >= 1 && ListsRowsOf(store, ranked)
    ensures var r := Paginate(store, ranked, page, limit);
      |r.data| > 0 <==> page <= r.totalPages
  {
    var r := Paginate(store, ranked, page, limit);
    PagingArithmetic(r.totalCount, r.totalPages, limit, page, |r.data|);
  }

  /**
   Paging loses nothing: every row of the listing is shown on a page numbered
   from 1 to `TotalPages`, the one returned.
   */
  lemma EveryRowOnSomePage(store: Store, ranked: seq<Id>, limit: nat, k: Id) returns (page: int)
    requires limit >= 1 && ListsRowsOf(store, ranked) && k in ranked
    ensures 1 <= page <= Paginate(store, ranked, 1, limit).totalPages
    ensures store[k] in Paginate(store, ranked, page, limit).data
  {
    var i :| 0 <= i < |ranked| && ranked[i] == k;
    page := PageHolding(i, limit);
    var j := i - Offset(page, limit);
    assert Offset(page + 1, limit) == Offset(page, limit) + limit;
    var r := Paginate(store, ranked, page, limit);
    assert j < |r.data|;
    PageIsWindow(store, ranked, page, limit);
    assert r.data[j] == store[k];
    PageNonEmptyIffWithinPages(store, ranked, page, limit);
    assert r.totalPages == Paginate(store, ranked, 1, limit).totalPages;
  }

  /** Every matching row is shown on some page of the listing numbered from 1 to `TotalPages`. */
  lemma EveryMatchOnSomePage(store: Store, limit: nat, search: Option<string>, category: Option<string>, k: Id)
    requires limit >= 1
    requires k in store && Selected(store[k], search, category)
    ensures exists page ::
      && 1 <= page <= GetProducts(store, 1, limit, search, category).value.totalPages
      && store[k] in GetProducts(store, page, limit, search, category).value.data
  {
    var ranked := Ranked(store, search, category);
    RankingListsMatches(store, search, category);
    var page := EveryRowOnSomePage(store, ranked, limit, k);
    assert GetProducts(store, page, limit, search, category) == Some(Paginate(store, ranked, page, limit));
    assert GetProducts(store, 1, limit, search, category) == Some(Paginate(store, ranked, 1, limit));
  }

  /** A created row can be read back under its new id with the fields it was created from. */
  lemma CreateThenGet(store: Store, input: Fields, now: Time, freshId: Id)
    requires freshId !in store && ColumnsFit(input)
    ensures var w := CreateProduct(store, input, now, freshId);
      && w.Committed?
      && GetProductById(w.store, w.value.id) == Some(w.value)
      && FieldsOf(w.value) == input && w.value.createdAt == now
  {
  }

  /** A committed create adds one to every count whose filters the new row passes, and leaves the others. */
  lemma CreateCountsOnce(store: Store, input: Fields, now: Time, freshId: Id, page: int, limit: nat, search: Option<string>, category: Option<string>)
    requires freshId !in store && limit >= 1
    requires CreateProduct(store, input, now, freshId).Committed?
    ensures var w := CreateProduct(store, input, now, freshId);
      var after, before := GetProducts(w.store, page, limit, search, category), GetProducts(store, page, limit, search, category);
      after.Some? ==> after.value.totalCount == before.value.totalCount + (if Selected(w.value, search, category) then 1 else 0)
  {
    var w := CreateProduct(store, input, now, freshId);
    assert w.store == store[freshId := w.value];
    AddedRowCountsOnce(store, freshId, w.value, search, category);
  }

  /** Filing a row under a new key adds one to the matches when the row passes the filters, and nothing otherwise. */
  lemma AddedRowCountsOnce(store: Store, key: Id, p: Product, search: Option<string>, category: Option<string>)
    requires key !in store
    ensures |MatchingKeys(store[key := p], search, category)|
      == |MatchingKeys(store, search, category)| + (if Selected(p, search, category) then 1 else 0)
  {
    var before, after := MatchingKeys(store, search, category), MatchingKeys(store[key := p], search, category);
    var added := if Selected(p, search, category) then {key} else {};
    forall k
      ensures k in after <==> k in before + added
    {
    }
    assert after == before + added;
    assert key !in before;
  }

  /** A committed update of an existing row can be read back with the new fields, id and creation time kept. */
  lemma UpdateThenGet(store: Store, id: Id, input: Fields)
    requires id in store && ColumnsFit(input)
    ensures var w := UpdateProduct(store, id, input);
      && w.Committed? && w.value.Some?
      && GetProductById(w.store, id) == w.value
      && FieldsOf(w.value.value) == input
      && w.value.value.createdAt == store[id].createdAt
  {
  }

  /** After a delete the id reads as absent. */
  lemma DeleteThenGet(store: Store, id: Id)
    ensures GetProductById(DeleteProduct(store, id).store, id).None?
  {
  }

  /** Deleting the same id twice reports found and then not found, and the second call changes nothing. */
  lemma DeleteTwice(store: Store, id: Id)
    requires id in store
    ensures var first := DeleteProduct(store, id);
      var second := DeleteProduct(first.store, id);
      first.value && !second.value && second.store == first.store
  {
  }

  /** A delete takes one from every count whose filters the removed row passed, and leaves the others. */
  lemma DeleteCountsOnce(store: Store, id: Id, page: int, limit: nat, search: Option<string>, category: Option<string>)
    requires id in store && limit >= 1
    ensures var w := DeleteProduct(store, id);
      var after, before := GetProducts(w.store, page, limit, search, category), GetProducts(store, page, limit, search, category);
      after.Some? ==> after.value.totalCount == before.value.totalCount - (if Selected(store[id], search, category) then 1 else 0)
  {
    var w := DeleteProduct(store, id);
    assert id !in w.store && store == w.store[id := store[id]];
    AddedRowCountsOnce(w.store, id, store[id], search, category);
  }
}
