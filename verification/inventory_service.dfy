/** `InventoryService`: lookups that fail loudly, full-record update and
    delete, the delta adjustment of a quantity, the quiet stock check and
    the low-stock query. Every mutating call is one transaction: when it
    raises, the store it leaves is the store it was given. */
module InventoryService {
  import opened Wrappers
  import opened JavaInt
  import opened Text
  import opened Errors
  import opened Table
  import opened InventoryModel
  import opened InventoryRepository

  const BELOW_ZERO := "Cannot reduce quantity below zero"

  function IdNotFound(id: nat): Error {
    NotFound("Inventory item not found with id: " + NatToString(id))
  }

  function CodeNotFound(code: string): Error {
    NotFound("Inventory item not found with product code: " + code)
  }

  /** The stock invariant: no stored quantity is negative. */
  predicate NonNegative(s: Store) {
    forall k | k in s.rows :: s.rows[k].details.quantity >= 0
  }

  /** The store invariant the endpoints keep: well formed, and every record
      would pass validation (which includes `NonNegative`). */
  predicate Invariant(s: Store) {
    WellFormed(s) && forall k | k in s.rows :: Sound(s.rows[k].details)
  }

  /** `getAllInventoryItems`. */
  function GetAllInventoryItems(s: Store): (r: seq<Item>)
    requires WellFormed(s)
    ensures Distinct(r)
    ensures forall it :: it in r <==> it in s.rows.Values
  {
    FindAll(s)
  }

  /** `getInventoryItemById`: the record, or NotFound when the id is absent. */
  function GetInventoryItemById(s: Store, id: nat): (r: Result<Item, Error>)
    ensures r.Success? <==> id in s.rows
    ensures r.Success? ==> r.value == s.rows[id]
    ensures r.Failure? ==> r.error == IdNotFound(id)
  {
    match Find(s, id)
    case Some(it) => Success(it)
    case None => Failure(IdNotFound(id))
  }

  /** `getInventoryItemByProductCode`: the record with that code, or NotFound. */
  function GetInventoryItemByProductCode(s: Store, code: string): (r: Result<Item, Error>)
    requires WellFormed(s) && CodesUnique(s)
    ensures r.Success? <==> HasCode(s, code)
    ensures r.Success? ==> r.value.id in s.rows && s.rows[r.value.id] == r.value
    ensures r.Success? ==> r.value.details.productCode == code
    ensures r.Failure? ==> r.error == CodeNotFound(code)
  {
    match FindByProductCode(s, code)
    case Some(it) => Success(it)
    case None => Failure(CodeNotFound(code))
  }

  /** `getInventoryItemsByProductId`. */
  function GetInventoryItemsByProductId(s: Store, productId: int64): (r: seq<Item>)
    requires WellFormed(s)
    ensures Distinct(r)
    ensures forall it :: it in r <==> it in s.rows.Values && it.details.productId == productId
  {
    FindByProductId(s, productId)
  }

  /** `createInventoryItem`: the columns are stored under a fresh id, which
      the returned record carries; nothing else changes. */
  function CreateInventoryItem(s: Store, d: Details): (t: Txn<Store, Item>)
    requires WellFormed(s)
    ensures t.result.Success?
    ensures t.result.value.id !in s.rows && t.result.value.details == d
    ensures t.store.rows == s.rows[t.result.value.id := t.result.value]
    ensures WellFormed(t.store)
  {
    var it := Item(s.nextId, d);
    Txn(Table(s.rows[s.nextId := it], s.nextId + 1), Success(it))
  }

  /** `updateInventoryItem`: every column is overwritten from `d`, the id is
      kept; an absent id raises NotFound and writes nothing. */
  function UpdateInventoryItem(s: Store, id: nat, d: Details): (t: Txn<Store, Item>)
    requires WellFormed(s)
    ensures t.result.Success? <==> id in s.rows
    ensures t.result.Failure? ==> t == Txn(s, Failure(IdNotFound(id)))
    ensures t.result.Success? ==> t.result.value == Item(id, d)
    ensures t.result.Success? ==> t.store == s.(rows := s.rows[id := Item(id, d)])
  {
    match GetInventoryItemById(s, id)
    case Failure(e) => Txn(s, Failure(e))
    case Success(it) =>
      var updated := it.(details := d);
      Txn(s.(rows := s.rows[it.id := updated]), Success(updated))
  }

  /** `deleteInventoryItem`: removes exactly that id; an absent id raises
      NotFound and writes nothing. */
  function DeleteInventoryItem(s: Store, id: nat): (t: Txn<Store, ()>)
    requires WellFormed(s)
    ensures t.result.Success? <==> id in s.rows
    ensures t.result.Failure? ==> t == Txn(s, Failure(IdNotFound(id)))
    ensures t.result.Success? ==> t.store.rows.Keys == s.rows.Keys - {id}
    ensures forall k | k in t.store.rows :: t.store.rows[k] == s.rows[k]
    ensures t.store.nextId == s.nextId
  {
    match GetInventoryItemById(s, id)
    case Failure(e) => Txn(s, Failure(e))
    case Success(it) => Txn(s.(rows := s.rows - {it.id}), Success(()))
  }

  /** `updateInventoryQuantity`: adds the signed `change` to the quantity of
      the record with that code, with Java's 32-bit addition. A sum below
      zero raises IllegalArgument and writes nothing; otherwise only that
      record's quantity changes. */
  function UpdateInventoryQuantity(s: Store, code: string, change: int32): (t: Txn<Store, Item>)
    requires WellFormed(s) && CodesUnique(s)
    ensures !HasCode(s, code) ==> t == Txn(s, Failure(CodeNotFound(code)))
    ensures forall k | k in s.rows && s.rows[k].details.productCode == code ::
      var sum := Add(s.rows[k].details.quantity, change);
      && (sum < 0 ==> t == Txn(s, Failure(IllegalArgument(BELOW_ZERO))))
      && (sum >= 0 ==> t.result == Success(Item(k, s.rows[k].details.(quantity := sum))))
      && (sum >= 0 ==> t.store == s.(rows := s.rows[k := t.result.value]))
  {
    match GetInventoryItemByProductCode(s, code)
    case Failure(e) => Txn(s, Failure(e))
    case Success(it) =>
      var sum := Add(it.details.quantity, change);
      if sum < 0 then
        Txn(s, Failure(IllegalArgument(BELOW_ZERO)))
      else
        var updated := it.(details := it.details.(quantity := sum));
        Txn(s.(rows := s.rows[it.id := updated]), Success(updated))
  }

  /** `isInStock`: false for an unknown code, whatever is required;
      otherwise whether the stored quantity reaches `required`. */
  function IsInStock(s: Store, code: string, required: int32): (b: bool)
    requires WellFormed(s) && CodesUnique(s)
    ensures !HasCode(s, code) ==> !b
    ensures forall k | k in s.rows && s.rows[k].details.productCode == code ::
      b == (s.rows[k].details.quantity >= required)
  {
    match GetInventoryItemByProductCode(s, code)
    case Failure(_) => false
    case Success(it) => it.details.quantity >= required
  }

  /** `getLowStockItems`: exactly the records strictly below the threshold. */
  function GetLowStockItems(s: Store, threshold: int32): (r: seq<Item>)
    requires WellFormed(s)
    ensures Distinct(r)
    ensures forall it :: it in r <==> it in s.rows.Values && it.details.quantity < threshold
  {
    FindByQuantityLessThan(s, threshold)
  }
}
