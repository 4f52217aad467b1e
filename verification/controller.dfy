/**
 The HTTP handlers of `ProductsController`: they normalise the paging query,
 validate request bodies before the store is touched, and turn the store's
 answers into responses.
 */
module ProductsController {

  import opened Wrappers
  import opened Schema
  import opened Validation
  import ProductService

  const DefaultPage: int := 1
  const DefaultLimit: int := 10
  const MaxLimit: int := 100

  /** The outcomes a handler can produce: 200, 201 with a route to the new row, 204, 404, 400 and 500. */
  datatype ActionResult<+T> =
    | Ok(value: T)
    | CreatedAtAction(routeId: Id, value: T)
    | NoContent
    | NotFound
    | BadRequest(errors: seq<FieldError>)
    | InternalServerError

  /** A handler's result together with the table after the request. */
  datatype Response<+T> = Response(store: Store, result: ActionResult<T>)

  /** A page number below 1 is replaced by the first page; any other passes unchanged. */
  function NormalizePage(page: int): (p: int)
    ensures p >= 1
    ensures page >= 1 ==> p == page
    ensures page < 1 ==> p == DefaultPage
  {
    if page < 1 then DefaultPage else page
  }

  /** A page size outside 1..100 is replaced by the default of 10; any other passes unchanged. */
  function NormalizeLimit(limit: int): (l: int)
    ensures 1 <= l <= MaxLimit
    ensures 1 <= limit <= MaxLimit ==> l == limit
    ensures !(1 <= limit <= MaxLimit) ==> l == DefaultLimit
  {
    if limit < 1 || limit > MaxLimit then DefaultLimit else limit
  }

  /**
   `GET /products`: never rejects its query. The service is called with a page
   number of at least 1 and a page size in 1..100, so it always answers, and
   the 200 carries the service's page for the clamped query.
   */
  function GetProducts(store: Store, page: int, limit: int, search: Option<string>, category: Option<string>): (r: ActionResult<ProductService.PagedResult>)
    ensures r.Ok?
    ensures r.value.pageNumber >= 1 && 1 <= r.value.pageSize <= MaxLimit
    ensures page >= 1 ==> r.value.pageNumber == page
    ensures 1 <= limit <= MaxLimit ==> r.value.pageSize == limit
    ensures r.value.totalCount == |ProductService.MatchingKeys(store, search, category)|
    ensures r.value == ProductService.Paginate(store, ProductService.Ranked(store, search, category), NormalizePage(page), NormalizeLimit(limit))
  {
    match ProductService.GetProducts(store, NormalizePage(page), NormalizeLimit(limit), search, category)
    case None => InternalServerError
    case Some(result) => Ok(result)
  }

  /** `GET /products/{id}`: the row itself, or 404 when there is none. */
  function GetProduct(store: Store, id: Id): (r: ActionResult<Product>)
    ensures r.Ok? || r.NotFound?
    ensures r.NotFound? <==> id !in store
    ensures r.Ok? ==> r.value == store[id]
  {
    match ProductService.GetProductById(store, id)
    case None => NotFound
    case Some(p) => Ok(p)
  }

  /**
   `POST /products`: an invalid body is answered with its field errors and the
   table is untouched; a valid one is stored under the fresh id and answered with
   the new row and a route to it. A validated body always fits the columns, so
   the write is never refused.
   */
  function CreateProduct(store: Store, body: Fields, now: Time, freshId: Id): (r: Response<Product>)
    requires freshId !in store
    ensures !InputValid(body) ==> r == Response(store, BadRequest(Validate(body))) && Validate(body) != []
    ensures InputValid(body) ==>
      && r.result.CreatedAtAction?
      && r.result.routeId == r.result.value.id == freshId
      && FieldsOf(r.result.value) == body && r.result.value.createdAt == now
      && r.store == store[freshId := r.result.value]
    ensures !r.result.InternalServerError?
  {
    if !InputValid(body) then Response(store, BadRequest(Validate(body)))
    else
      ValidInputFitsColumns(body);
      match ProductService.CreateProduct(store, body, now, freshId)
      case Rejected => Response(store, InternalServerError)
      case Committed(after, p) => Response(after, CreatedAtAction(p.id, p))
  }

  /**
   `PUT /products/{id}`: an invalid body is answered with its field errors before
   the store is asked; an absent id is answered with 404; otherwise the row's
   fields are replaced and the updated row returned. The table changes only in
   the last case.
   */
  function UpdateProduct(store: Store, id: Id, body: Fields): (r: Response<Product>)
    ensures !InputValid(body) ==> r == Response(store, BadRequest(Validate(body))) && Validate(body) != []
    ensures InputValid(body) && id !in store ==> r == Response(store, NotFound)
    ensures InputValid(body) && id in store ==>
      && r.result.Ok?
      && FieldsOf(r.result.value) == body
      && r.result.value.id == store[id].id && r.result.value.createdAt == store[id].createdAt
      && r.store == store[id := r.result.value]
    ensures !r.result.InternalServerError?
  {
    if !InputValid(body) then Response(store, BadRequest(Validate(body)))
    else
      ValidInputFitsColumns(body);
      match ProductService.UpdateProduct(store, id, body)
      case Rejected => Response(store, InternalServerError)
      case Committed(after, None) => Response(after, NotFound)
      case Committed(after, Some(p)) => Response(after, Ok(p))
  }

  /** `DELETE /products/{id}`: 204 when a row was removed, 404 when there was none. */
  function DeleteProduct(store: Store, id: Id): (r: Response<()>)
    ensures id in store ==> r == Response(store - {id}, NoContent)
    ensures id !in store ==> r == Response(store, NotFound)
  {
    var w := ProductService.DeleteProduct(store, id);
    if w.value then Response(w.store, NoContent) else Response(w.store, NotFound)
  }

  /** A page number below 1 gives the same response as page 1. */
  lemma PageBelowOneActsAsFirst(store: Store, page: int, limit: int, search: Option<string>, category: Option<string>)
    requires page < 1
    ensures GetProducts(store, page, limit, search, category) == GetProducts(store, 1, limit, search, category)
  {
  }

  /** A page size outside 1..100 gives the same response as a page size of 10. */
  lemma LimitOutOfRangeActsAsDefault(store: Store, page: int, limit: int, search: Option<string>, category: Option<string>)
    requires !(1 <= limit <= MaxLimit)
    ensures GetProducts(store, page, limit, search, category) == GetProducts(store, page, 10, search, category)
  {
  }

  /** The route returned by a successful create leads to the created row. */
  lemma CreatedRouteFindsRow(store: Store, body: Fields, now: Time, freshId: Id)
    requires freshId !in store && InputValid(body)
    ensures var r := CreateProduct(store, body, now, freshId);
      GetProduct(r.store, r.result.routeId) == Ok(r.result.value)
  {
  }

  /** Deleting one id twice answers 204 and then 404. */
  lemma DeleteTwiceAnswers(store: Store, id: Id)
    requires id in store
    ensures var first := DeleteProduct(store, id);
      first.result == NoContent && DeleteProduct(first.store, id).result == NotFound
  {
  }
}
