/** `InventoryController`: each endpoint as a pure function from the store
    and the decoded request to the store afterwards and the response, or to
    the exception that leaves the controller. Which status the inventory
    service's own exception handling gives a raised error is not part of
    this model. */
module InventoryController {
  import opened Wrappers
  import opened JavaInt
  import opened Errors
  import opened Table
  import opened InventoryModel
  import opened InventoryRepository
  import opened InventoryService
  import InventoryProperties

  const OK := 200
  const CREATED := 201
  const NO_CONTENT := 204
  const BAD_REQUEST := 400

  const DEFAULT_REQUIRED: int32 := 1
  const DEFAULT_THRESHOLD: int32 := 5

  const QUANTITY_CHANGE := "quantityChange"
  const IN_STOCK := "inStock"

  /** A decoded request: path variables, query parameters (absent ones are
      `None`) and the JSON body. */
  datatype Request =
    | GetAll
    | GetById(id: nat)
    | GetByProductCode(code: string)
    | GetByProductId(productId: int64)
    | Create(body: Body)
    | Update(id: nat, body: Body)
    | Delete(id: nat)
    | PatchQuantity(code: string, fields: map<string, Option<int32>>)
    | CheckStock(code: string, quantity: Option<int32>)
    | LowStock(threshold: Option<int32>)

  datatype Payload =
    | NoContent
    | One(item: Item)
    | Many(items: seq<Item>)
    | Flags(flags: map<string, bool>)

  datatype Response = Response(status: nat, body: Payload)

  /** Requests that look a record up by its product code. */
  predicate ByCode(req: Request) {
    req.GetByProductCode? || req.PatchQuantity? || req.CheckStock?
  }

  /** `POST /api/inventory`: a body failing its constraints is rejected
      before the service runs; otherwise the record is created with 201. */
  function CreateItem(s: Store, body: Body): (t: Txn<Store, Response>)
    requires WellFormed(s)
    ensures !Valid(body) ==> t == Txn(s, Failure(InvalidBody(Violations(body))))
    ensures Valid(body) ==> t.result.Success? && t.result.value.status == CREATED
    ensures Valid(body) ==> t.result.value.body.One?
    ensures Valid(body) ==>
      var it := t.result.value.body.item;
      && it.id !in s.rows && ToBody(it.details) == body
      && t.store.rows == s.rows[it.id := it]
  {
    if !Valid(body) then Txn(s, Failure(InvalidBody(Violations(body))))
    else
      var created := CreateInventoryItem(s, Accept(body));
      Txn(created.store, Success(Response(CREATED, One(created.result.value))))
  }

  /** `PUT /api/inventory/{id}`: validation comes first, then the service's
      NotFound; a successful update answers 200 with the record. */
  function UpdateItem(s: Store, id: nat, body: Body): (t: Txn<Store, Response>)
    requires WellFormed(s)
    ensures !Valid(body) ==> t == Txn(s, Failure(InvalidBody(Violations(body))))
    ensures Valid(body) && id !in s.rows ==> t == Txn(s, Failure(IdNotFound(id)))
    ensures Valid(body) && id in s.rows ==>
      && t.result == Success(Response(OK, One(Item(id, Accept(body)))))
      && t.store == s.(rows := s.rows[id := Item(id, Accept(body))])
  {
    if !Valid(body) then Txn(s, Failure(InvalidBody(Violations(body))))
    else
      var u := UpdateInventoryItem(s, id, Accept(body));
      match u.result
      case Failure(e) => Txn(u.store, Failure(e))
      case Success(it) => Txn(u.store, Success(Response(OK, One(it))))
  }

  /** `DELETE /api/inventory/{id}`: 204 with no body, or NotFound. */
  function DeleteItem(s: Store, id: nat): (t: Txn<Store, Response>)
    requires WellFormed(s)
    ensures id !in s.rows ==> t == Txn(s, Failure(IdNotFound(id)))
    ensures id in s.rows ==> t.result == Success(Response(NO_CONTENT, NoContent))
    ensures id in s.rows ==> t.store.rows.Keys == s.rows.Keys - {id}
    ensures forall k | k in t.store.rows :: t.store.rows[k] == s.rows[k]
  {
    var d := DeleteInventoryItem(s, id);
    match d.result
    case Failure(e) => Txn(d.store, Failure(e))
    case Success(_) => Txn(d.store, Success(Response(NO_CONTENT, NoContent)))
  }

  /** `PATCH /api/inventory/quantity/{code}`: a body whose `quantityChange`
      is missing or null answers 400 without calling the service; otherwise
      the value goes unchanged to the service, whose record is answered
      with 200 and whose exception propagates. */
  function PatchItemQuantity(s: Store, code: string, fields: map<string, Option<int32>>): (t: Txn<Store, Response>)
    requires WellFormed(s) && CodesUnique(s)
    ensures (QUANTITY_CHANGE !in fields || fields[QUANTITY_CHANGE].None?) ==>
      t == Txn(s, Success(Response(BAD_REQUEST, NoContent)))
    ensures QUANTITY_CHANGE in fields && fields[QUANTITY_CHANGE].Some? ==>
      var u := UpdateInventoryQuantity(s, code, fields[QUANTITY_CHANGE].value);
      && t.store == u.store
      && (u.result.Failure? ==> t.result == Failure(u.result.error))
      && (u.result.Success? ==> t.result == Success(Response(OK, One(u.result.value))))
  {
    var change := if QUANTITY_CHANGE in fields then fields[QUANTITY_CHANGE] else None;
    match change
    case None => Txn(s, Success(Response(BAD_REQUEST, NoContent)))
    case Some(delta) =>
      var u := UpdateInventoryQuantity(s, code, delta);
      match u.result
      case Failure(e) => Txn(u.store, Failure(e))
      case Success(it) => Txn(u.store, Success(Response(OK, One(it))))
  }

  /** `GET /api/inventory/check-stock/{code}?quantity=n`: always 200 with a
      map whose only key is `inStock`; the quantity defaults to 1. */
  function CheckItemStock(s: Store, code: string, quantity: Option<int32>): (r: Response)
    requires WellFormed(s) && CodesUnique(s)
    ensures r.status == OK && r.body.Flags?
    ensures r.body.flags.Keys == {IN_STOCK}
    ensures r.body.flags[IN_STOCK] == IsInStock(s, code, quantity.GetOr(DEFAULT_REQUIRED))
  {
    Response(OK, Flags(map[IN_STOCK := IsInStock(s, code, quantity.GetOr(DEFAULT_REQUIRED))]))
  }

  /** `GET /api/inventory/low-stock?threshold=n`: the threshold defaults to 5. */
  function LowStockItems(s: Store, threshold: Option<int32>): (r: Response)
    requires WellFormed(s)
    ensures r.status == OK && r.body.Many?
    ensures forall it :: it in r.body.items <==>
      it in s.rows.Values && it.details.quantity < threshold.GetOr(DEFAULT_THRESHOLD)
    ensures Distinct(r.body.items)
  {
    Response(OK, Many(GetLowStockItems(s, threshold.GetOr(DEFAULT_THRESHOLD))))
  }

  /** Dispatch of a request to its endpoint. */
  function Handle(s: Store, req: Request): (t: Txn<Store, Response>)
    requires WellFormed(s)
    requires ByCode(req) ==> CodesUnique(s)
    ensures t.result.Failure? ==> t.store == s
    ensures !(req.Create? || req.Update? || req.Delete? || req.PatchQuantity?) ==> t.store == s
    ensures (req.Create? || req.Update?) && !Valid(req.body) ==>
      t == Txn(s, Failure(InvalidBody(Violations(req.body))))
    ensures t.result.Success? ==> t.result.value.status in {OK, CREATED, NO_CONTENT, BAD_REQUEST}
  {
    match req
    case GetAll => Txn(s, Success(Response(OK, Many(GetAllInventoryItems(s)))))
    case GetById(id) =>
      (match GetInventoryItemById(s, id)
       case Failure(e) => Txn(s, Failure(e))
       case Success(it) => Txn(s, Success(Response(OK, One(it)))))
    case GetByProductCode(code) =>
      (match GetInventoryItemByProductCode(s, code)
       case Failure(e) => Txn(s, Failure(e))
       case Success(it) => Txn(s, Success(Response(OK, One(it)))))
    case GetByProductId(productId) =>
      Txn(s, Success(Response(OK, Many(GetInventoryItemsByProductId(s, productId)))))
    case Create(body) => CreateItem(s, body)
    case Update(id, body) => UpdateItem(s, id, body)
    case Delete(id) => DeleteItem(s, id)
    case PatchQuantity(code, fields) => PatchItemQuantity(s, code, fields)
    case CheckStock(code, quantity) => Txn(s, Success(CheckItemStock(s, code, quantity)))
    case LowStock(threshold) => Txn(s, Success(LowStockItems(s, threshold)))
  }

  /** No request drives the store out of its invariant: quantities stay
      non-negative and codes non-blank, because bodies are validated and
      the adjustment refuses a negative sum. */
  lemma {:induction false} HandlePreservesInvariant(s: Store, req: Request)
    requires Invariant(s)
    requires ByCode(req) ==> CodesUnique(s)
    ensures Invariant(Handle(s, req).store)
  {
    match req
    case Create(body) =>
      if Valid(body) {
        InventoryProperties.CreatePreservesInvariant(s, Accept(body));
      }
    case Update(id, body) =>
      if Valid(body) {
        InventoryProperties.UpdatePreservesInvariant(s, id, Accept(body));
      }
    case Delete(id) =>
      InventoryProperties.DeletePreservesInvariant(s, id);
    case PatchQuantity(code, fields) =>
      if QUANTITY_CHANGE in fields && fields[QUANTITY_CHANGE].Some? {
        InventoryProperties.AdjustPreservesInvariant(s, code, fields[QUANTITY_CHANGE].value);
      }
    case _ =>
  }
}
