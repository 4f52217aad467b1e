/**
 `SeedData.Initialize`: the one-time filling of an empty table with a fixed
 catalogue of ten products, created between thirty days ago and now.
 */
module SeedData {

  import opened Schema
  import opened Validation

  /** One catalogue entry: its fields and how many days before seeding it was created. */
  datatype Fixture = Fixture(fields: Fields, daysAgo: int)

  // The catalogue entries. Prices are in cents; longer descriptions are
  // written in two pieces.
  const IPhone15Pro: Fixture := Fixture(Fields("iPhone 15 Pro", "Latest Apple iPhone with advanced " + "camera system and A17 Pro chip", 99999, "Electronics", 25), 30)
  const GalaxyS24: Fixture := Fixture(Fields("Samsung Galaxy S24", "Flagship Android " + "smartphone with AI features", 84999, "Electronics", 18), 25)
  const AirMax270: Fixture := Fixture(Fields("Nike Air Max 270", "Comfortable running shoes " + "with Max Air cushioning", 12999, "Sports", 45), 20)
  const GreatGatsby: Fixture := Fixture(Fields("The Great Gatsby", "Classic American novel " + "by F. Scott Fitzgerald", 1299, "Books", 100), 15)
  const Levis501: Fixture := Fixture(Fields("Levi's 501 Jeans", "Classic straight-fit denim jeans", 7999, "Clothing", 30), 10)
  const StandMixer: Fixture := Fixture(Fields("KitchenAid Stand Mixer", "Professional-grade " + "stand mixer for baking", 34999, "Home", 12), 5)
  const MacBookPro14: Fixture := Fixture(Fields("MacBook Pro 14\"", "Apple laptop with M3 " + "chip for professionals", 199999, "Electronics", 8), 3)
  const Ultraboost22: Fixture := Fixture(Fields("Adidas Ultraboost 22", "High-performance running " + "shoes with Boost midsole", 17999, "Sports", 22), 2)
  const HarryPotterSet: Fixture := Fixture(Fields("Harry Potter Collection", "Complete set of Harry Potter books", 8999, "Books", 50), 1)
  const CottonTShirt: Fixture := Fixture(Fields("Cotton T-Shirt", "Basic cotton t-shirt in various colors", 1999, "Clothing", 75), 0)

  /** The fixed catalogue, in the order it is inserted. */
  const Fixtures: seq<Fixture> := [
    IPhone15Pro,
    GalaxyS24,
    AirMax270,
    GreatGatsby,
    Levis501,
    StandMixer,
    MacBookPro14,
    Ultraboost22,
    HarryPotterSet,
    CottonTShirt
  ]

  /** The catalogue's categories. */
  const Categories: set<string> := {"Electronics", "Sports", "Books", "Clothing", "Home"}

  /**
   The identity values the database hands out to the entries of one seeding,
   in insertion order: one per entry, no two alike. Nothing more is assumed of
   them; they need not be consecutive or ascending.
   */
  predicate IdentityValues(ids: seq<Id>)
  {
    |ids| == |Fixtures| && forall i, j :: 0 <= i < j < |ids| ==> ids[i] != ids[j]
  }

  /** The `i`-th catalogue entry as stored, under the `i`-th identity value. */
  function SeedRow(i: nat, now: Time, ids: seq<Id>): (p: Product)
    requires i < |Fixtures| && IdentityValues(ids)
    ensures p.id == ids[i] && FieldsOf(p) == Fixtures[i].fields
    ensures p.createdAt == now - Fixtures[i].daysAgo * SecondsPerDay
  {
    Row(ids[i], Fixtures[i].fields, now - Fixtures[i].daysAgo * SecondsPerDay)
  }

  /** No two of the rows carry the same id. */
  predicate DistinctIds(rows: seq<Product>)
  {
    forall i, j :: 0 <= i < j < |rows| ==> rows[i].id != rows[j].id
  }

  /** Every row of `rows` sits in `s` under its own id, and `s` has no other key. */
  ghost predicate HoldsExactly(s: Store, rows: seq<Product>)
  {
    && |s| == |rows|
    && (forall k :: k in s ==> exists i :: 0 <= i < |rows| && rows[i].id == k)
    && (forall i :: 0 <= i < |rows| ==> rows[i].id in s && s[rows[i].id] == rows[i])
  }

  /**
   `AddRange` into an empty table: every row filed under its own id, so a table
   of as many rows as were added, and no others.
   */
  function Inserted(rows: seq<Product>): (s: Store)
    requires DistinctIds(rows)
    ensures |s| == |rows|
    ensures forall k :: k in s ==> exists i :: 0 <= i < |rows| && rows[i].id == k
    ensures forall i :: 0 <= i < |rows| ==> rows[i].id in s && s[rows[i].id] == rows[i]
  {
    if rows == [] then map[]
    else
      AllButLast(rows);
      var before := Inserted(rows[..|rows| - 1]);
      AddOneMore(before, rows);
      before[rows[|rows| - 1].id := rows[|rows| - 1]]
  }

  /** A table holding all but the last of rows with distinct ids holds all of them once the last is filed. */
  lemma AddOneMore(before: Store, rows: seq<Product>)
    requires DistinctIds(rows) && rows != []
    requires HoldsExactly(before, rows[..|rows| - 1])
    ensures HoldsExactly(before[rows[|rows| - 1].id := rows[|rows| - 1]], rows)
  {
    var last, init := rows[|rows| - 1], rows[..|rows| - 1];
    AllButLast(rows);
    forall k | k in before
      ensures k != last.id
    {
      var i :| 0 <= i < |init| && init[i].id == k;
    }
    var s := before[last.id := last];
    assert |s| == |before| + 1 by {
      assert last.id !in before;
    }
    forall i | 0 <= i < |rows|
      ensures rows[i].id in s && s[rows[i].id] == rows[i]
    {
      if i < |init| {
        assert init[i] == rows[i];
      }
    }
    forall k | k in s
      ensures exists i :: 0 <= i < |rows| && rows[i].id == k
    {
      if k == last.id {
        assert rows[|rows| - 1].id == k;
      } else {
        var i :| 0 <= i < |init| && init[i].id == k;
        assert rows[i].id == k;
      }
    }
  }

  /** Dropping the last of rows with distinct ids leaves rows with distinct ids, none carrying the last one's id. */
  lemma AllButLast(rows: seq<Product>)
    requires DistinctIds(rows) && rows != []
    ensures DistinctIds(rows[..|rows| - 1])
    ensures forall i :: 0 <= i < |rows| - 1 ==> rows[..|rows| - 1][i] == rows[i] && rows[i].id != rows[|rows| - 1].id
  {
  }

  /** The catalogue rows of one seeding, in insertion order. */
  function SeedRows(now: Time, ids: seq<Id>): (rows: seq<Product>)
    requires IdentityValues(ids)
    ensures |rows| == |Fixtures| && DistinctIds(rows)
    ensures forall i :: 0 <= i < |Fixtures| ==> rows[i] == SeedRow(i, now, ids)
  {
    seq(|Fixtures|, i requires 0 <= i < |Fixtures| => SeedRow(i, now, ids))
  }

  /** The table right after seeding an empty one. */
  function Seeded(now: Time, ids: seq<Id>): (s: Store)
    requires IdentityValues(ids)
    ensures forall k :: k in s ==> k in ids
    ensures forall i :: 0 <= i < |Fixtures| ==> ids[i] in s
    ensures forall i :: 0 <= i < |Fixtures| ==> s[ids[i]] == SeedRow(i, now, ids)
  {
    var rows := SeedRows(now, ids);
    assert forall i :: 0 <= i < |rows| ==> rows[i].id == ids[i];
    Inserted(rows)
  }

  /**
   `Initialize`: a table that already holds any product is returned as it is; an
   empty one receives exactly the ten catalogue rows, each under its own
   identity value.
   */
  function Initialize(store: Store, now: Time, ids: seq<Id>): (r: Store)
    requires IdentityValues(ids)
    ensures |store| > 0 ==> r == store
    ensures |store| == 0 ==> |r| == |Fixtures|
    ensures |store| == 0 ==> forall k :: k in r ==> k in ids
    ensures |store| == 0 ==> forall i :: 0 <= i < |Fixtures| ==>
      && ids[i] in r
      && FieldsOf(r[ids[i]]) == Fixtures[i].fields
      && r[ids[i]].id == ids[i]
      && r[ids[i]].createdAt == now - Fixtures[i].daysAgo * SecondsPerDay
    ensures StoreValid(store) ==> StoreValid(r)
  {
    if |store| > 0 then store
    else
      SeededValid(now, ids);
      Seeded(now, ids)
  }

  /** The seeded table is a valid table: every row sits under its own id and fits the columns. */
  lemma SeededValid(now: Time, ids: seq<Id>)
    requires IdentityValues(ids)
    ensures StoreValid(Seeded(now, ids))
  {
    var s := Seeded(now, ids);
    FixturesValid();
    forall k | k in s
      ensures s[k].id == k && ColumnsFit(FieldsOf(s[k]))
    {
      var i :| 0 <= i < |Fixtures| && ids[i] == k;
      assert s[ids[i]] == SeedRow(i, now, ids);
    }
  }

  /**
   Running `Initialize` a second time, with any clock and identity values,
   leaves the table exactly as the first run left it.
   */
  lemma InitializeIdempotent(store: Store, now: Time, ids: seq<Id>, later: Time, nextIds: seq<Id>)
    requires IdentityValues(ids) && IdentityValues(nextIds)
    ensures Initialize(Initialize(store, now, ids), later, nextIds) == Initialize(store, now, ids)
  {
  }

  /**
   Every catalogue entry passes request validation (so fits the columns), and its
   category is one of the five catalogue categories.
   */
  lemma FixturesValid()
    ensures forall i :: 0 <= i < |Fixtures| ==> InputValid(Fixtures[i].fields) && ColumnsFit(Fixtures[i].fields)
    ensures forall i :: 0 <= i < |Fixtures| ==> Fixtures[i].fields.category in Categories
  {
    forall i | 0 <= i < |Fixtures|
      ensures InputValid(Fixtures[i].fields) && ColumnsFit(Fixtures[i].fields)
    {
      ShortFieldsValid(Fixtures[i].fields);
    }
  }

  /**
   Fields whose texts are at most half their column's length, even counted in
   UTF-16 code units, pass validation; the catalogue's texts are all that short.
   */
  lemma ShortFieldsValid(f: Fields)
    requires 0 < |f.name| && 2 * |f.name| <= NameMaxLength
    requires 2 * |f.description| <= DescriptionMaxLength
    requires 0 < |f.category| && 2 * |f.category| <= CategoryMaxLength
    requires 0 <= f.price < PriceBound && 0 <= f.stock
    ensures InputValid(f) && ColumnsFit(f)
  {
  }

  /** Catalogue rows are created strictly later the further down the list they come. */
  lemma SeedTimesIncrease(now: Time, ids: seq<Id>, i: nat, j: nat)
    requires i < j < |Fixtures| && IdentityValues(ids)
    ensures SeedRow(i, now, ids).createdAt < SeedRow(j, now, ids).createdAt
  {
  }
}
