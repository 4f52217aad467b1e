/**
 Listing queries against the freshly seeded catalogue: a search, a category
 filter with one row per page, and the unfiltered newest-first order.
 */
module SeedQueries {

  import opened Wrappers
  import opened Text
  import opened Schema
  import opened Ordering
  import opened ProductService
  import opened ServiceProperties
  import opened SeedData

  /** Neither text contains "iPhone", because each lacks one of its letters. */
  lemma Unmentioned(name: string, description: string, inName: char, inDescription: char)
    requires inName in "iPhone" && inName !in name
    requires inDescription in "iPhone" && inDescription !in description
    ensures !Contains(name, "iPhone") && !Contains(description, "iPhone")
  {
    MissingCharRulesOut(name, "iPhone", inName);
    MissingCharRulesOut(description, "iPhone", inDescription);
  }

  /** True iff the entry's name or description contains "iPhone". */
  predicate MentionsIPhone(x: Fixture)
  {
    Contains(x.fields.name, "iPhone") || Contains(x.fields.description, "iPhone")
  }

  // The texts of every entry but the first, each missing a letter of "iPhone".
  // Each lemma restates its entry's texts as literals in its precondition, so
  // the letter checks run on plain strings; `OnlyFirstMentionsIPhone` checks
  // every restatement against the catalogue entry it stands for.

  lemma GalaxyS24Unmentioned(name: string, description: string)
    requires name == "Samsung Galaxy S24" && description == "Flagship Android " + "smartphone with AI features"
    ensures !Contains(name, "iPhone") && !Contains(description, "iPhone")
  {
    Unmentioned(name, description, 'P', 'P');
  }

  lemma AirMax270Unmentioned(name: string, description: string)
    requires name == "Nike Air Max 270" && description == "Comfortable running shoes " + "with Max Air cushioning"
    ensures !Contains(name, "iPhone") && !Contains(description, "iPhone")
  {
    Unmentioned(name, description, 'P', 'P');
  }

  lemma GreatGatsbyUnmentioned(name: string, description: string)
    requires name == "The Great Gatsby" && description == "Classic American novel " + "by F. Scott Fitzgerald"
    ensures !Contains(name, "iPhone") && !Contains(description, "iPhone")
  {
    Unmentioned(name, description, 'P', 'P');
  }

  lemma Levis501Unmentioned(name: string, description: string)
    requires name == "Levi's 501 Jeans" && description == "Classic straight-fit denim jeans"
    ensures !Contains(name, "iPhone") && !Contains(description, "iPhone")
  {
    Unmentioned(name, description, 'P', 'P');
  }

  lemma StandMixerUnmentioned(name: string, description: string)
    requires name == "KitchenAid Stand Mixer" && description == "Professional-grade " + "stand mixer for baking"
    ensures !Contains(name, "iPhone") && !Contains(description, "iPhone")
  {
    Unmentioned(name, description, 'P', 'h');
  }

  lemma MacBookPro14Unmentioned(name: string, description: string)
    requires name == "MacBook Pro 14\"" && description == "Apple laptop with M3 " + "chip for professionals"
    ensures !Contains(name, "iPhone") && !Contains(description, "iPhone")
  {
    Unmentioned(name, description, 'h', 'P');
  }

  lemma Ultraboost22Unmentioned(name: string, description: string)
    requires name == "Adidas Ultraboost 22" && description == "High-performance running " + "shoes with Boost midsole"
    ensures !Contains(name, "iPhone") && !Contains(description, "iPhone")
  {
    Unmentioned(name, description, 'P', 'P');
  }

  lemma HarryPotterSetUnmentioned(name: string, description: string)
    requires name == "Harry Potter Collection" && description == "Complete set of Harry Potter books"
    ensures !Contains(name, "iPhone") && !Contains(description, "iPhone")
  {
    Unmentioned(name, description, 'h', 'h');
  }

  lemma CottonTShirtUnmentioned(name: string, description: string)
    requires name == "Cotton T-Shirt" && description == "Basic cotton t-shirt in various colors"
    ensures !Contains(name, "iPhone") && !Contains(description, "iPhone")
  {
    Unmentioned(name, description, 'P', 'P');
  }

  /** Of the catalogue entries, only the first mentions "iPhone" in its name or description. */
  lemma OnlyFirstMentionsIPhone(i: nat)
    requires i < |Fixtures|
    ensures MentionsIPhone(Fixtures[i]) <==> i == 0
  {
    var f := Fixtures[i].fields;
    if i == 0 {
      assert "iPhone" <= f.name;
    } else if i == 1 {
      GalaxyS24Unmentioned(f.name, f.description);
    } else if i == 2 {
      AirMax270Unmentioned(f.name, f.description);
    } else if i == 3 {
      GreatGatsbyUnmentioned(f.name, f.description);
    } else if i == 4 {
      Levis501Unmentioned(f.name, f.description);
    } else if i == 5 {
      StandMixerUnmentioned(f.name, f.description);
    } else if i == 6 {
      MacBookPro14Unmentioned(f.name, f.description);
    } else if i == 7 {
      Ultraboost22Unmentioned(f.name, f.description);
    } else if i == 8 {
      HarryPotterSetUnmentioned(f.name, f.description);
    } else {
      CottonTShirtUnmentioned(f.name, f.description);
    }
  }

  /** Searching for "iPhone" keeps exactly the first catalogue row. */
  lemma IPhoneRow(now: Time, ids: seq<Id>, i: nat)
    requires i < |Fixtures| && IdentityValues(ids)
    ensures Selected(SeedRow(i, now, ids), Some("iPhone"), None) <==> i == 0
  {
    OnlyFirstMentionsIPhone(i);
  }

  /** Filtering on "Electronics" keeps exactly the phones and the laptop. */
  lemma ElectronicsRow(now: Time, ids: seq<Id>, i: nat)
    requires i < |Fixtures| && IdentityValues(ids)
    ensures Selected(SeedRow(i, now, ids), None, Some("Electronics")) <==> i == 0 || i == 1 || i == 6
  {
  }

  /** The first row of a newest-first list is any listed row strictly newer than all the others. */
  lemma NewestLeads(store: Store, ranked: seq<Id>, top: Id)
    requires NewestFirst(store, ranked) && top in ranked
    requires forall k :: k in ranked && k != top ==> store[k].createdAt < store[top].createdAt
    ensures ranked[0] == top
  {
    var j :| 0 <= j < |ranked| && ranked[j] == top;
    NewestFirstPairwise(store, ranked, 0, j);
  }

  /**
   When a matching row is strictly newer than every other matching row, the
   first page of the listing opens with it.
   */
  lemma NewestMatchOpensFirstPage(store: Store, limit: nat, search: Option<string>, category: Option<string>, top: Id)
    requires limit >= 1
    requires top in MatchingKeys(store, search, category)
    requires forall k :: k in MatchingKeys(store, search, category) && k != top ==> store[k].createdAt < store[top].createdAt
    ensures var r := GetProducts(store, 1, limit, search, category).value; |r.data| >= 1 && r.data[0] == store[top]
  {
    var ranked := Ranked(store, search, category);
    RankingListsMatches(store, search, category);
    NewestLeads(store, ranked, top);
    PageIsWindow(store, ranked, 1, limit);
  }

  /** When one stored row alone matches the filters, it is the only matching key. */
  lemma OneKeyMatches(store: Store, search: Option<string>, category: Option<string>, a: Id)
    requires a in store
    requires forall k :: k in store ==> (Selected(store[k], search, category) <==> k == a)
    ensures MatchingKeys(store, search, category) == {a}
  {
    forall k
      ensures k in MatchingKeys(store, search, category) <==> k == a
    {
    }
  }

  /** When three stored rows alone match the filters, they are the matching keys. */
  lemma ThreeKeysMatch(store: Store, search: Option<string>, category: Option<string>, a: Id, b: Id, c: Id)
    requires a in store && b in store && c in store
    requires forall k :: k in store ==> (Selected(store[k], search, category) <==> k == a || k == b || k == c)
    ensures MatchingKeys(store, search, category) == {a, b, c}
  {
    forall k
      ensures k in MatchingKeys(store, search, category) <==> k in {a, b, c}
    {
    }
  }

  /** When exactly one row matches, the first page shows just that row on the only page. */
  lemma SingleMatchPage(store: Store, limit: nat, search: Option<string>, category: Option<string>, key: Id)
    requires limit >= 1
    requires MatchingKeys(store, search, category) == {key}
    ensures var r := GetProducts(store, 1, limit, search, category).value;
      r.totalCount == 1 && r.totalPages == 1 && r.data == [store[key]]
  {
    var r := GetProducts(store, 1, limit, search, category).value;
    if r.totalPages >= 2 {
      OffsetMonotone(2, r.totalPages, limit);
    }
    assert |r.data| == 1 by {
      assert Offset(1, limit) == 0;
    }
    NewestMatchOpensFirstPage(store, limit, search, category, key);
  }

  /** Three matching rows, one per page: three pages, the first of which has a next one. */
  lemma ThreeMatchesPerRow(store: Store, search: Option<string>, category: Option<string>, a: Id, b: Id, c: Id)
    requires a != b && b != c && a != c
    requires MatchingKeys(store, search, category) == {a, b, c}
    ensures var r := GetProducts(store, 1, 1, search, category).value;
      r.totalCount == 3 && r.totalPages == 3 && r.hasNextPage && !r.hasPreviousPage && |r.data| == 1
  {
    assert |{a, b, c}| == 3;
    var r := GetProducts(store, 1, 1, search, category).value;
    OffsetIsProduct(r.totalPages, 1);
    OffsetIsProduct(r.totalPages + 1, 1);
  }

  /** A first page of one row shows the matching row that is newer than all the others. */
  lemma NewestAloneOnPage(store: Store, search: Option<string>, category: Option<string>, top: Id)
    requires |GetProducts(store, 1, 1, search, category).value.data| == 1
    requires top in MatchingKeys(store, search, category)
    requires forall k :: k in MatchingKeys(store, search, category) && k != top ==> store[k].createdAt < store[top].createdAt
    ensures GetProducts(store, 1, 1, search, category).value.data == [store[top]]
  {
    NewestMatchOpensFirstPage(store, 1, search, category, top);
  }

  /** Of three rows, the one strictly newer than the other two is newer than every other of the three. */
  lemma NewestOfThree(store: Store, keys: set<Id>, a: Id, b: Id, c: Id)
    requires keys == {a, b, c}
    requires a in store && b in store && c in store
    requires store[a].createdAt < store[c].createdAt && store[b].createdAt < store[c].createdAt
    ensures c in keys
    ensures forall k :: k in keys && k != c ==> store[k].createdAt < store[c].createdAt
  {
  }

  /** An identity value of the seeding is a key of the seeded table, holding the entry at its position. */
  lemma SeededKeyPosition(now: Time, ids: seq<Id>, k: Id) returns (i: nat)
    requires IdentityValues(ids) && k in ids
    ensures i < |Fixtures| && ids[i] == k && k in Seeded(now, ids) && Seeded(now, ids)[k] == SeedRow(i, now, ids)
  {
    i :| 0 <= i < |ids| && ids[i] == k;
  }

  /** Two positions carry the same identity value only when they are the same position. */
  lemma SameIdSamePosition(ids: seq<Id>, i: nat, j: nat)
    requires IdentityValues(ids) && i < |Fixtures| && j < |Fixtures|
    ensures ids[i] == ids[j] <==> i == j
  {
    if i < j {
      assert ids[i] != ids[j];
    } else if j < i {
      assert ids[j] != ids[i];
    }
  }

  /** In the seeded catalogue, a search for "iPhone" matches the first row alone. */
  lemma IPhoneMatchesFirstRow(now: Time, ids: seq<Id>)
    requires IdentityValues(ids)
    ensures MatchingKeys(Seeded(now, ids), Some("iPhone"), None) == {ids[0]}
  {
    var store := Seeded(now, ids);
    forall k | k in store
      ensures Selected(store[k], Some("iPhone"), None) <==> k == ids[0]
    {
      var i := SeededKeyPosition(now, ids, k);
      IPhoneRow(now, ids, i);
      SameIdSamePosition(ids, i, 0);
    }
    OneKeyMatches(store, Some("iPhone"), None, ids[0]);
  }

  /** A seeded row is in the category "Electronics" exactly when it is one of the phones or the laptop. */
  lemma ElectronicsKey(now: Time, ids: seq<Id>, k: Id)
    requires IdentityValues(ids) && k in ids
    ensures k in Seeded(now, ids)
    ensures Selected(Seeded(now, ids)[k], None, Some("Electronics")) <==> k == ids[0] || k == ids[1] || k == ids[6]
  {
    var i := SeededKeyPosition(now, ids, k);
    ElectronicsRow(now, ids, i);
    SameIdSamePosition(ids, i, 0);
    SameIdSamePosition(ids, i, 1);
    SameIdSamePosition(ids, i, 6);
  }

  /** In the seeded catalogue, the category "Electronics" matches the two phones and the laptop. */
  lemma ElectronicsMatchThreeRows(now: Time, ids: seq<Id>)
    requires IdentityValues(ids)
    ensures MatchingKeys(Seeded(now, ids), None, Some("Electronics")) == {ids[0], ids[1], ids[6]}
  {
    var store := Seeded(now, ids);
    forall k | k in store
      ensures Selected(store[k], None, Some("Electronics")) <==> k == ids[0] || k == ids[1] || k == ids[6]
    {
      ElectronicsKey(now, ids, k);
    }
    ThreeKeysMatch(store, None, Some("Electronics"), ids[0], ids[1], ids[6]);
  }

  /** Searching the seeded catalogue for "iPhone" counts one row and shows the iPhone 15 Pro. */
  lemma IPhoneSearchFindsOne(now: Time, ids: seq<Id>)
    requires IdentityValues(ids)
    ensures var r := GetProducts(Seeded(now, ids), 1, 10, Some("iPhone"), None).value;
      && r.totalCount == 1
      && r.totalPages == 1
      && r.data == [SeedRow(0, now, ids)]
      && FieldsOf(r.data[0]) == IPhone15Pro.fields
  {
    var store := Seeded(now, ids);
    IPhoneMatchesFirstRow(now, ids);
    SingleMatchPage(store, 10, Some("iPhone"), None, ids[0]);
  }

  /** Filtering the seeded catalogue on "Electronics" one row per page counts three rows on three pages. */
  lemma ElectronicsPaging(now: Time, ids: seq<Id>)
    requires IdentityValues(ids)
    ensures var r := GetProducts(Seeded(now, ids), 1, 1, None, Some("Electronics")).value;
      && r.totalCount == 3
      && r.totalPages == 3
      && r.hasNextPage && !r.hasPreviousPage
      && |r.data| == 1
  {
    ElectronicsMatchThreeRows(now, ids);
    ThreeMatchesPerRow(Seeded(now, ids), None, Some("Electronics"), ids[0], ids[1], ids[6]);
  }

  /** The first of those pages shows the newest electronics row, the laptop (the seventh entry). */
  lemma ElectronicsFirstPage(now: Time, ids: seq<Id>)
    requires IdentityValues(ids)
    ensures GetProducts(Seeded(now, ids), 1, 1, None, Some("Electronics")).value.data == [SeedRow(6, now, ids)]
  {
    var store := Seeded(now, ids);
    ElectronicsPaging(now, ids);
    ElectronicsMatchThreeRows(now, ids);
    LaptopNewestElectronics(now, ids);
    NewestOfThree(store, MatchingKeys(store, None, Some("Electronics")), ids[0], ids[1], ids[6]);
    NewestAloneOnPage(store, None, Some("Electronics"), ids[6]);
  }

  /** Of the three seeded electronics rows, the laptop was created last. */
  lemma LaptopNewestElectronics(now: Time, ids: seq<Id>)
    requires IdentityValues(ids)
    ensures var store := Seeded(now, ids);
      && ids[0] in store && ids[1] in store && ids[6] in store
      && store[ids[0]].createdAt < store[ids[6]].createdAt
      && store[ids[1]].createdAt < store[ids[6]].createdAt
  {
    SeedTimesIncrease(now, ids, 0, 6);
    SeedTimesIncrease(now, ids, 1, 6);
  }

  /** Listing the seeded catalogue newest first starts with the row created last, the T-shirt. */
  lemma NewestSeededFirst(now: Time, ids: seq<Id>)
    requires IdentityValues(ids)
    ensures var r := GetProducts(Seeded(now, ids), 1, 10, None, None).value;
      && r.totalCount == 10
      && |r.data| == 10
      && r.data[0] == SeedRow(9, now, ids)
      && FieldsOf(r.data[0]) == CottonTShirt.fields
  {
    var store := Seeded(now, ids);
    assert MatchingKeys(store, None, None) == store.Keys;
    forall k | k in store && k != ids[9]
      ensures store[k].createdAt < store[ids[9]].createdAt
    {
      var i := SeededKeyPosition(now, ids, k);
      SameIdSamePosition(ids, i, 9);
      SeedTimesIncrease(now, ids, i, 9);
    }
    NewestMatchOpensFirstPage(store, 10, None, None, ids[9]);
  }
}
