/**
 The product table: the `Product` entity and the column constraints that
 `ApplicationDbContext.OnModelCreating` declares for it.
 */
module Schema {

  import opened Text

  type Id = int

  /** Timestamps are whole seconds on the UTC clock. */
  type Time = int

  const SecondsPerDay: int := 86400

  const NameMaxLength: int := 200
  const DescriptionMaxLength: int := 1000
  const CategoryMaxLength: int := 100

  /**
   Prices are integer cents. A `decimal(18,2)` column holds 18 decimal digits,
   two of them after the point, so every stored amount of cents is below 10^18 in magnitude.
   */
  const PriceBound: int := 1_000_000_000_000_000_000

  /** The five fields a client supplies; the body of a create or an update request. */
  datatype Fields = Fields(
    name: string,
    description: string,
    price: int,
    category: string,
    stock: int)

  /** A stored row. `id` and `createdAt` are assigned by the store, never by the client. */
  datatype Product = Product(
    id: Id,
    name: string,
    description: string,
    price: int,
    category: string,
    stock: int,
    createdAt: Time)

  /** The client-supplied part of a stored row. */
  function FieldsOf(p: Product): Fields
  {
    Fields(p.name, p.description, p.price, p.category, p.stock)
  }

  /** A row with the given identity, creation time and client fields. */
  function Row(id: Id, f: Fields, createdAt: Time): (p: Product)
    ensures FieldsOf(p) == f
    ensures p.id == id && p.createdAt == createdAt
  {
    Product(id, f.name, f.description, f.price, f.category, f.stock, createdAt)
  }

  /**
   The constraints the database enforces on a row: the maximum lengths of the three
   text columns, counted in UTF-16 code units as `nvarchar` counts them, and the
   precision of the price column. Strings cannot be null here,
   so the required-ness of `Name` and `Category` holds of every row.
   */
  predicate ColumnsFit(f: Fields)
  {
    && Utf16Length(f.name) <= NameMaxLength
    && Utf16Length(f.description) <= DescriptionMaxLength
    && Utf16Length(f.category) <= CategoryMaxLength
    && -PriceBound < f.price < PriceBound
  }

  /** The table, keyed by the primary key `Id`. */
  type Store = map<Id, Product>

  /**
   The table invariant: every row is filed under its own primary key (so no two rows
   share an id) and satisfies the column constraints.
   */
  ghost predicate StoreValid(s: Store)
  {
    forall k :: k in s ==> s[k].id == k && ColumnsFit(FieldsOf(s[k]))
  }

  /** The primary key is unique: distinct rows of a valid table carry distinct ids. */
  lemma PrimaryKeyUnique(s: Store, k1: Id, k2: Id)
    requires StoreValid(s)
    requires k1 in s && k2 in s && k1 != k2
    ensures s[k1].id != s[k2].id
  {
  }

  /**
   The outcome of a call that ends in `SaveChanges`: either the write is committed,
   giving the new table and the call's value, or the database rejects it and the
   table is left as it was.
   */
  datatype Write<+T> = Committed(store: Store, value: T) | Rejected
}
