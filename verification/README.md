# Product catalog — a Dafny model

This project models the back end of a small product catalog: an ASP.NET Core
web API over one `Products` table.

- `ProductService` answers a listing query. It filters by a search text (matched
  against name or description) and by an exact category. It counts the matches,
  orders them newest first by `CreatedAt`, cuts out one page, and reports the
  page metadata: total count, page number and size, total pages, and whether
  there is a next and a previous page. It also reads, creates, updates and
  deletes single rows.
- `ProductsController` sits in front of the service. It clamps the paging
  query: a page below 1 becomes 1, and a size outside 1..100 becomes 10. It
  rejects invalid request bodies with their field errors. It maps the service's
  answers to 200, 201, 204, 400 and 404 responses.
- `ApplicationDbContext` declares the table's primary key and column
  constraints: name of at most 200 UTF-16 code units, description of at most
  1000, category of at most 100, and price as `decimal(18,2)`.
- `SeedData.Initialize` fills an empty table with ten fixed products, each
  created a given number of days before now. A table that already holds rows
  is left alone.

The model works on pure values:

- The table is a `map<Id, Product>` from primary key to row.
- Every operation is a function from the table (plus its inputs) to an answer.
- A write yields `Write.Committed(newTable, value)`. Only a write that reaches
  `SaveChanges` with a new or changed row can instead yield `Write.Rejected`,
  when that row would break a column constraint; a delete, and an update of an
  absent id, never do.
- A listing is handled as the sequence of the matching rows' ids in listing
  order (`Ranked`). `Paginate` turns it into a page and its metadata.
- The page offset `(page - 1) * limit` and the page count
  `ceil(totalCount / limit)` are defined one page at a time (`Offset`,
  `PageCount`). Lemmas connect them to the closed forms: the product, and the
  integer ceiling `CeilDiv`.

Modules, one per source concern:

| file | module | models |
|---|---|---|
| `wrappers.dfy` | `Wrappers` | `Option`, standing for a nullable value |
| `text.dfy` | `Text` | `string.Contains` (ordinal substring test) and text length in UTF-16 code units |
| `schema.dfy` | `Schema` | the `Product` entity, the column constraints, the table invariant, `SaveChanges` outcomes |
| `validation.dfy` | `Validation` | request-body validation that runs before create and update |
| `ordering.dfy` | `Ordering` | newest-first order, `Skip`/`Take`, page offsets and page counts |
| `service.dfy` | `ProductService` | `GetProductsAsync`, `GetProductByIdAsync`, `CreateProductAsync`, `UpdateProductAsync`, `DeleteProductAsync` |
| `service_properties.dfy` | `ServiceProperties` | filter, paging and read-after-write properties of the service |
| `controller.dfy` | `ProductsController` | the five HTTP handlers |
| `seed.dfy` | `SeedData` | the catalogue entries and `Initialize` |
| `seed_queries.dfy` | `SeedQueries` | listing queries answered by the freshly seeded catalogue |

Only the controller clamps the paging query (`ProductsController.cs:27-28`);
`GetProductsAsync` uses whatever it is given. The model follows the code:

- `ProductService.GetProducts` requires only a positive page size, which the
  model's integer page count (`CeilDiv`, `PageCount`) needs; the source's
  floating-point division needs nothing. A page number below 1 makes the database refuse
  the negative `OFFSET` the query asks for; the model answers `None` there.
- `ProductsController.GetProducts` applies the clamping, so it never meets
  that failure.

## Model

| member | source | states |
|---|---|---|
| Text.ContainsIffOccurs | backend/backend/backend/Services/ProductService.cs:24 | The substring test used by the search filter holds exactly when the search text occurs at some offset of the name or description, in both directions. |
| Text.Contains | backend/backend/backend/Services/ProductService.cs:24 | `string.Contains`: the ordinal substring test, true when the search text is a prefix of the text or of some suffix of it. Its partner is `Text.ContainsIffOccurs`. |
| Text.Utf16Length | backend/backend/backend/Data/ApplicationDbContext.cs:20-27 | The length `nvarchar` limits count: one UTF-16 code unit per character, two for a character outside the Basic Multilingual Plane, so between the character count and twice it. |
| Text.Utf16LengthIsCountIffBmp | backend/backend/backend/Data/ApplicationDbContext.cs:20-27 | The UTF-16 length equals the character count exactly when no character needs a surrogate pair. |
| Text.MissingCharRulesOut | backend/backend/backend/Services/ProductService.cs:24 | A text lacking some character of the search text cannot contain it. |
| Schema.Row | backend/backend/backend/Services/ProductService.cs:61-69 | A new row carries exactly the five client fields given, plus the given id and creation time. |
| Schema.ColumnsFit | backend/backend/backend/Data/ApplicationDbContext.cs:20-29 | A row's fields fit the columns: name, description and category within 200, 1000 and 100 UTF-16 code units, and price within `decimal(18,2)`. |
| Schema.StoreValid | backend/backend/backend/Data/ApplicationDbContext.cs:19-29 | The table invariant: every row sits under its own `Id` and fits the columns. |
| Schema.PrimaryKeyUnique | backend/backend/backend/Data/ApplicationDbContext.cs:19 | In a valid table, two distinct keys hold rows with distinct ids: `Id` is a primary key. |
| Validation.FieldValid | backend/backend/backend/Controllers/ProductsController.cs:49 | The rule for one field: name and category non-empty and within their column limits, description within its limit, price and stock non-negative. |
| Validation.InputValid | backend/backend/backend/Controllers/ProductsController.cs:61 | `ModelState.IsValid`: every field keeps its rule. |
| Validation.Check | backend/backend/backend/Controllers/ProductsController.cs:49-52 | One field yields an error naming it exactly when it breaks its rule. |
| Validation.Validate | backend/backend/backend/Controllers/ProductsController.cs:49-52 | Every error names a field that breaks its rule. Every such field is named. The list is empty exactly when the body is valid. |
| Validation.ValidInputFitsColumns | backend/backend/backend/Data/ApplicationDbContext.cs:20-29 | A body that passes validation fits every column constraint, so saving it is never refused. |
| Ordering.LeastExists | backend/backend/backend/Services/ProductService.cs:36-37 | Every non-empty set of keys has a least key, the start of the deterministic enumeration that is then ordered. |
| Ordering.AscendingIds | backend/backend/backend/Services/ProductService.cs:36-37 | The table's keys enumerated once each (the same multiset as the key set), in strictly ascending order. |
| Ordering.NewestFirstPairwise | backend/backend/backend/Services/ProductService.cs:37 | In a newest-first list, every row was created no earlier than any row after it, not only the next one. |
| Ordering.InsertNewestFirst | backend/backend/backend/Services/ProductService.cs:37 | Placing a row into a newest-first list adds exactly that row and keeps the list newest first. |
| Ordering.SortNewestFirst | backend/backend/backend/Services/ProductService.cs:37 | `OrderByDescending(CreatedAt)`: the result is a permutation of the input whose `CreatedAt` never increases. |
| Ordering.NewestFirstListing | backend/backend/backend/Services/ProductService.cs:36-37 | Every row of a table exactly once, newest first. |
| Ordering.SkipTake | backend/backend/backend/Services/ProductService.cs:38-39 | `Skip(n).Take(k)` has length `min(k, max(0, length - max(0, n)))`, and its i-th element is the input's element at `max(0, n) + i`. |
| Ordering.Offset | backend/backend/backend/Services/ProductService.cs:38 | The number of rows the pages before `page` hold, one page of `limit` rows at a time, and none below page 2. Its closed form is `Ordering.OffsetIsProduct`. |
| Ordering.OffsetIsProduct | backend/backend/backend/Services/ProductService.cs:38 | The rows the earlier pages hold number `(page - 1) * limit` for page 1 on, and none for pages below 1. |
| Ordering.OffsetMonotone | backend/backend/backend/Services/ProductService.cs:38 | A later page never starts before an earlier one. |
| Ordering.PageHolding | backend/backend/backend/Services/ProductService.cs:38-39 | Every position of a listing falls on some page from 1 on, at or after that page's start and before the next page's. |
| Ordering.PageCount | backend/backend/backend/Services/ProductService.cs:34 | The page count is zero exactly when there are no rows. |
| Ordering.PageCountBounds | backend/backend/backend/Services/ProductService.cs:34 | With rows present, the last page starts before the last row, and one more page would start past every row. |
| Ordering.CeilDiv | backend/backend/backend/Services/ProductService.cs:34 | `Math.Ceiling(n / d)` as an integer: the `q` with `(q - 1) * d < n <= q * d`. |
| Ordering.CeilDivUnique | backend/backend/backend/Services/ProductService.cs:34 | Only one number meets the ceiling's characterisation. |
| Ordering.PageCountIsCeiling | backend/backend/backend/Services/ProductService.cs:34 | Counting pages one at a time yields the ceiling of `totalCount / limit`. |
| ProductService.IsNullOrEmpty | backend/backend/backend/Services/ProductService.cs:22 | `string.IsNullOrEmpty`: no filter text, or an empty one. |
| ProductService.SearchHit | backend/backend/backend/Services/ProductService.cs:22-25 | The search filter: no search text keeps every row; otherwise the name or the description must contain the text. |
| ProductService.CategoryHit | backend/backend/backend/Services/ProductService.cs:28-31 | The category filter: no category keeps every row; otherwise the category must equal it exactly. |
| ProductService.Selected | backend/backend/backend/Services/ProductService.cs:22-31 | A row passes both filters, applied one after the other. |
| ProductService.Matching | backend/backend/backend/Services/ProductService.cs:19-31 | The filtered query: a sub-table of the table whose keys are exactly the matching keys, each row unchanged. |
| ProductService.MatchingKeys | backend/backend/backend/Services/ProductService.cs:22-33 | The keys of the rows that pass both filters; their number is the total count. |
| ProductService.Ranked | backend/backend/backend/Services/ProductService.cs:19-37 | The ordered filtered query names rows of the table, as many as there are matching rows. |
| ProductService.RankingListsMatches | backend/backend/backend/Services/ProductService.cs:19-37 | An id is in the ordered filtered query exactly when its row is stored and passes both filters. No id appears twice. The order is newest first. |
| ProductService.EnumeratesKeys | backend/backend/backend/Services/ProductService.cs:36-37 | A list with the same multiset as a key set names each key exactly once and nothing else. |
| ProductService.SubTableOrder | backend/backend/backend/Services/ProductService.cs:28-37 | Ordering the filtered rows newest first orders them newest first within the whole table, since filtering keeps each row unchanged. |
| ProductService.Paginate | backend/backend/backend/Services/ProductService.cs:33-50 | Total count = listing length. Page number and size are echoed. `TotalPages` is zero for no rows and otherwise the page count. There is a next page iff `page < TotalPages`, and a previous page iff `page > 1`. The page holds `min(limit, max(0, count - offset))` rows. |
| ProductService.GetProducts | backend/backend/backend/Services/ProductService.cs:17-52 | A page below 1 fails, since the database refuses a negative offset; every other page answers. The reported total count is the number of stored rows passing both filters. Page number and size are reported as given. |
| ProductService.PageIsWindow | backend/backend/backend/Services/ProductService.cs:36-40 | The i-th row of a page is the listing's row at position `(page - 1) * limit + i`. |
| ProductService.PageKeepsOrder | backend/backend/backend/Services/ProductService.cs:37-40 | A page cut from a newest-first listing is itself newest first. |
| ProductService.PageShowsMatchesNewestFirst | backend/backend/backend/Services/ProductService.cs:17-40 | Every row on any answered page is a stored row passing both filters, and the page runs newest first. |
| ProductService.WindowRows | backend/backend/backend/Services/ProductService.cs:38-40 | The rows of a `Skip`/`Take` window are the listing's rows from the window's start on. |
| ProductService.WindowKeepsOrder | backend/backend/backend/Services/ProductService.cs:37-39 | A window of a newest-first list is newest first. |
| ProductService.Rows | backend/backend/backend/Services/ProductService.cs:40 | Materialising a list of ids gives the rows filed under them, in list order. |
| ProductService.GetProductById | backend/backend/backend/Services/ProductService.cs:54-57 | No row exactly when the id is absent. Otherwise the row filed under it, which in a valid table carries that id. |
| ProductService.CreateProduct | backend/backend/backend/Services/ProductService.cs:59-75 | The write commits exactly when the fields fit the columns. The new row has the fresh id, the given fields and the current time. The table gains just that key. Every other row is unchanged, and validity is kept. |
| ProductService.UpdateProduct | backend/backend/backend/Services/ProductService.cs:77-93 | An absent id answers nothing and leaves the table. Otherwise the write commits exactly when the fields fit. Then only that row changes: its five fields are replaced while its id and creation time are kept. Validity is kept. |
| ProductService.DeleteProduct | backend/backend/backend/Services/ProductService.cs:95-106 | Reports true exactly when the id was present. Afterwards the key set is the old one minus the id, the remaining rows are unchanged, and validity is kept. |
| ServiceProperties.ListedRowsMatchFilters | backend/backend/backend/Services/ProductService.cs:22-31 | Soundness of the filters: on every answered page, with a search text, every listed row has it at some offset of its name or description. With a category, every listed row is in that category. |
| ServiceProperties.MatchingRowsAreCounted | backend/backend/backend/Services/ProductService.cs:22-37 | Completeness of the filters, for every combination of them: a stored row that has the search text, when one is given, at some offset of its name or description, and is in the category, when one is given, is in the listing. |
| ServiceProperties.NoFilterKeepsEverything | backend/backend/backend/Services/ProductService.cs:22-33 | With neither filter set, every stored row is listed and every answered page reports the table size as total count. |
| ServiceProperties.FiltersIntersect | backend/backend/backend/Services/ProductService.cs:22-31 | Applying both filters keeps exactly the rows that each filter keeps on its own. |
| ServiceProperties.PagingArithmetic | backend/backend/backend/Services/ProductService.cs:34-49 | With the page count as computed: `page < TotalPages` exactly when rows remain after the page, and a page from 1 on is non-empty exactly when it is at most `TotalPages`. |
| ServiceProperties.TotalPagesIsCeiling | backend/backend/backend/Services/ProductService.cs:34 | The reported page count is the integer ceiling of the total count over the page size. |
| ServiceProperties.HasNextPageIffRowsRemain | backend/backend/backend/Services/ProductService.cs:38-49 | `HasNextPage` holds exactly when some listed row lies after the returned page. |
| ServiceProperties.PageNonEmptyIffWithinPages | backend/backend/backend/Services/ProductService.cs:34-40 | A page from 1 on has rows exactly when its number is at most `TotalPages`. |
| ServiceProperties.EveryRowOnSomePage | backend/backend/backend/Services/ProductService.cs:34-40 | Every listed row appears on some page between 1 and `TotalPages`, and the lemma returns that page. |
| ServiceProperties.EveryMatchOnSomePage | backend/backend/backend/Services/ProductService.cs:17-40 | Every stored row passing both filters is shown on some page between 1 and `TotalPages`, given the model's fixed order among rows created at the same time. |
| ServiceProperties.CreateThenGet | backend/backend/backend/Services/ProductService.cs:54-75 | A row that fits the columns is created, and reading its id returns it with the given fields and the current time. |
| ServiceProperties.CreateCountsOnce | backend/backend/backend/Services/ProductService.cs:59-75 | A committed create raises the total count every answered query reports by one if the new row passes its filters, and leaves it otherwise. |
| ServiceProperties.AddedRowCountsOnce | backend/backend/backend/Services/ProductService.cs:33 | Adding a row under a new key raises the match count by one exactly when the row passes the filters. |
| ServiceProperties.UpdateThenGet | backend/backend/backend/Services/ProductService.cs:77-93 | After an update of a present row, reading the id returns the updated row with the new fields and the original creation time. |
| ServiceProperties.DeleteThenGet | backend/backend/backend/Services/ProductService.cs:95-106 | After a delete, the id is not found. |
| ServiceProperties.DeleteTwice | backend/backend/backend/Services/ProductService.cs:95-106 | Deleting one id twice reports true, then false, and the second delete leaves the table as it was. |
| ServiceProperties.DeleteCountsOnce | backend/backend/backend/Services/ProductService.cs:95-106 | Deleting a present row lowers the total count every answered query reports by one if the row passed its filters, and leaves it otherwise. |
| ProductsController.NormalizePage | backend/backend/backend/Controllers/ProductsController.cs:27 | A page number of at least 1 passes unchanged. Anything below becomes 1. |
| ProductsController.NormalizeLimit | backend/backend/backend/Controllers/ProductsController.cs:28 | A page size in 1..100 passes unchanged. Anything outside becomes 10. |
| ProductsController.GetProducts | backend/backend/backend/Controllers/ProductsController.cs:21-32 | The listing always answers 200: the service sees a page from 1 on, so it never fails, and a size in 1..100; these are the values requested when those were in range. The 200 carries the service's page for the clamped query: the paginated newest-first listing of the matching rows, whose total count is the number of matching rows. |
| ProductsController.GetProduct | backend/backend/backend/Controllers/ProductsController.cs:34-44 | 404 exactly when the id is absent. Otherwise 200 with the stored row. |
| ProductsController.CreateProduct | backend/backend/backend/Controllers/ProductsController.cs:46-56 | An invalid body gets 400 with a non-empty error list, and the table is untouched. A valid one gets 201 with the new row, a route to its id, and the table extended by that row. A valid body never ends in a rejected save. |
| ProductsController.UpdateProduct | backend/backend/backend/Controllers/ProductsController.cs:58-73 | Validation comes before the lookup: an invalid body gets 400, and an absent id gets 404, both leaving the table. Otherwise 200 with the row whose fields were replaced and whose id and creation time were kept. |
| ProductsController.DeleteProduct | backend/backend/backend/Controllers/ProductsController.cs:75-85 | 204 with the row removed when the id was present. 404 with the table unchanged otherwise. |
| ProductsController.PageBelowOneActsAsFirst | backend/backend/backend/Controllers/ProductsController.cs:27 | Any page number below 1 gets the same response as page 1. |
| ProductsController.LimitOutOfRangeActsAsDefault | backend/backend/backend/Controllers/ProductsController.cs:28 | Any page size outside 1..100 gets the same response as size 10. |
| ProductsController.CreatedRouteFindsRow | backend/backend/backend/Controllers/ProductsController.cs:55 | The route in a 201 response leads `GetProduct` to the created row. |
| ProductsController.DeleteTwiceAnswers | backend/backend/backend/Controllers/ProductsController.cs:78-84 | Deleting one id twice answers 204, then 404. |
| SeedData.SeedRow | backend/backend/backend/Data/SeedData.cs:15-106 | The i-th entry as stored: the i-th identity value as id, the entry's fields, and a creation time of now minus the entry's age in days. |
| SeedData.SeedRows | backend/backend/backend/Data/SeedData.cs:15-107 | The ten entries as rows in list order, no two under the same id. |
| SeedData.Inserted | backend/backend/backend/Data/SeedData.cs:109-110 | `AddRange` into an empty table: as many rows as were added, each filed under its own id, and no other key. |
| SeedData.Seeded | backend/backend/backend/Data/SeedData.cs:15-110 | The seeded table holds the i-th entry under the i-th identity value, and no other key. |
| SeedData.SeededValid | backend/backend/backend/Data/SeedData.cs:15-110 | The seeded table is a valid table. |
| SeedData.Initialize | backend/backend/backend/Data/SeedData.cs:8-111 | A table holding any row is returned unchanged. An empty one receives exactly the ten entries, each under its own identity value, with the entry's fields and a creation time of now minus its age in days. Validity is kept. |
| SeedData.InitializeIdempotent | backend/backend/backend/Data/SeedData.cs:10-13 | Seeding twice, with any clock or identity values the second time, leaves the table as the first seeding left it. |
| SeedData.FixturesValid | backend/backend/backend/Data/SeedData.cs:17-106 | Every entry passes request validation and fits the columns, and its category is one of the five catalogue categories. |
| SeedData.ShortFieldsValid | backend/backend/backend/Data/ApplicationDbContext.cs:20-29 | Fields at most half as long in characters as each column limit, with non-empty name and category and non-negative price and stock, pass validation and fit the columns, whatever characters they hold. |
| SeedData.SeedTimesIncrease | backend/backend/backend/Data/SeedData.cs:24-105 | Later entries in the list were created strictly later. |
| SeedQueries.OnlyFirstMentionsIPhone | backend/backend/backend/Data/SeedData.cs:17-106 | Of the ten entries, only the first has "iPhone" in its name or description. |
| SeedQueries.IPhoneRow | backend/backend/backend/Data/SeedData.cs:17-106 | A seeded row passes the "iPhone" search exactly when it is the first entry. |
| SeedQueries.ElectronicsRow | backend/backend/backend/Data/SeedData.cs:17-106 | A seeded row passes the "Electronics" category filter exactly when it is the first, second or seventh entry. |
| SeedQueries.NewestLeads | backend/backend/backend/Services/ProductService.cs:37 | A listed row strictly newer than every other listed row heads a newest-first listing. |
| SeedQueries.NewestMatchOpensFirstPage | backend/backend/backend/Services/ProductService.cs:36-40 | When one matching row is strictly newer than all others, the first page opens with it. |
| SeedQueries.SingleMatchPage | backend/backend/backend/Services/ProductService.cs:33-50 | With exactly one matching row, the first page counts 1 row on 1 page and shows that row. |
| SeedQueries.ThreeMatchesPerRow | backend/backend/backend/Services/ProductService.cs:33-50 | With three matching rows and one row per page: count 3, three pages, and a first page of one row with a next page. |
| SeedQueries.NewestAloneOnPage | backend/backend/backend/Services/ProductService.cs:36-40 | A one-row first page shows the matching row that is strictly newer than the others. |
| SeedQueries.OneKeyMatches | backend/backend/backend/Services/ProductService.cs:22-33 | When one stored row alone passes the filters, the matching keys are just its key. |
| SeedQueries.ThreeKeysMatch | backend/backend/backend/Services/ProductService.cs:22-33 | When three stored rows alone pass the filters, the matching keys are just those three. |
| SeedQueries.SeededKeyPosition | backend/backend/backend/Data/SeedData.cs:15-110 | Each identity value of the seeding is a key of the seeded table, holding the row of the entry at its position. |
| SeedQueries.SameIdSamePosition | backend/backend/backend/Data/SeedData.cs:109-110 | Two entries get the same identity value only when they are the same entry. |
| SeedQueries.ElectronicsKey | backend/backend/backend/Data/SeedData.cs:17-79 | A seeded row is in the "Electronics" category exactly when it holds one of the phones or the laptop. |
| SeedQueries.IPhoneMatchesFirstRow | backend/backend/backend/Data/SeedData.cs:17-25 | In the seeded catalogue, the "iPhone" search matches exactly the first row. |
| SeedQueries.ElectronicsMatchThreeRows | backend/backend/backend/Data/SeedData.cs:17-79 | In the seeded catalogue, the "Electronics" category matches exactly the two phones and the laptop. |
| SeedQueries.IPhoneSearchFindsOne | backend/backend/backend/Data/SeedData.cs:17-25 | Searching the seeded catalogue for "iPhone" counts 1 row on 1 page and shows the iPhone 15 Pro. |
| SeedQueries.ElectronicsPaging | backend/backend/backend/Data/SeedData.cs:17-79 | Filtering the seeded catalogue on "Electronics" with one row per page counts 3 rows on 3 pages. The first page has a next page and no previous one. |
| SeedQueries.ElectronicsFirstPage | backend/backend/backend/Data/SeedData.cs:71-79 | That first page shows the MacBook Pro, the newest electronics row. |
| SeedQueries.LaptopNewestElectronics | backend/backend/backend/Data/SeedData.cs:24-78 | The laptop was created after both phones. |
| SeedQueries.NewestSeededFirst | backend/backend/backend/Data/SeedData.cs:98-106 | The unfiltered first page of ten shows all ten rows, starting with the Cotton T-Shirt, the row created last. |

## Left out

- Asynchrony, Entity Framework's change tracking, the database connection and
  concurrent requests are not modelled: each call is one atomic step from a
  table to a table.
- The clock (`DateTime.UtcNow`) and the identity values the database hands out
  are parameters (`now`, `freshId`, `ids`). A create's `freshId` is required to
  be unused, which the database guarantees. The ten identity values of a
  seeding are required to be distinct, and nothing else: they need not be
  consecutive or ascending.
- `Initialize` reads the clock once per entry. The model uses one `now` for
  the whole seeding, so the entries' ages are exact whole days.
- `CreatedAt`'s database default `GETUTCDATE()` (`ApplicationDbContext.cs:30-31`)
  is not modelled: the application always supplies the time.
- Ordering.Offset: uses unbounded integers, so it does not model the 32-bit
  wrap-around of `(page - 1) * limit` for page numbers around 21 million and
  above. The model's offset keeps growing.
- ProductService.GetProducts: requires a positive page size, as does
  `ProductService.Paginate`, because the model's integer page count is defined
  only for one. A page below 1 is modelled as a failure (`None`) without the
  database's error text. The source divides in floating point: a size of 0
  gives an infinite or NaN page count, whose conversion to `int` is
  unspecified, and a negative size gives a finite negative `TotalPages` (5 rows
  at size -2: `Math.Ceiling(-2.5)`, that is -2). Neither case, nor the query it
  sends with such a size, is modelled. The controller never passes such a size.
- Ordering.PageCount: computes `Math.Ceiling((double)totalCount / limit)` with
  exact integer ceiling division (`CeilDiv`), not in floating point.
- `Math.Ceiling`'s conversion back to `int` is not modelled; it cannot
  overflow for the counts a table holds.
- Prices are integers in hundredths, bounded by `decimal(18,2)`'s 16 integer
  digits. Decimal rounding of inputs with more digits is not modelled.
- Ids, stock and page arguments are unbounded integers rather than `int`.
- Text comparison is ordinal, character by character. The database's collation
  is not modelled. On a default SQL Server install (`SQL_Latin1_General_CP1_CI_AS`)
  it is case-insensitive and accent-sensitive, so there the search and the
  category filter ignore case. Its `=` also ignores trailing spaces (ANSI
  padding), so there the category "Books " matches a row in "Books". Here
  `Contains` and category equality are case-sensitive and exact.
- A null description is modelled as the empty string.
- Rows with equal `CreatedAt` come out here in one fixed order (ascending id,
  then a stable sort), the same for every page of a query. The database
  promises no order among them, and each page is a separate query, so two
  pages may order such rows differently. The contracts about one page promise
  only that `CreatedAt` never increases along it, as `OrderByDescending` does.
- ServiceProperties.EveryMatchOnSomePage: holds for the model's fixed tie
  order. With the database, a row that shares its `CreatedAt` with another
  matching row may be skipped by every page, because separate page queries can
  order tied rows differently. It holds there only when matching rows have
  distinct creation times.
- The request-body models (`CreateProduct`, `UpdateProduct`) and their
  data-annotation attributes are not part of this model. Validation is taken as
  the column limits plus a non-empty name and category and a non-negative price
  and stock. Errors name the failing field; message texts are left out.
- `ModelState` binding failures, such as a body that is not JSON, are not
  modelled.
- `ApplicationDbContextFactory` (design-time database configuration), the
  `IProductService` interface (a signature list) and the React front end are
  not part of this model.
