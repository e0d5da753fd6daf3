/** `InventoryRepository`: the inventory table and its derived queries. */
module InventoryRepository {
  import opened Wrappers
  import opened JavaInt
  import opened Table
  import opened InventoryModel

  type Store = Table<Item>

  /** The representation invariant: every key was handed out, and each
      record carries its own key as id. */
  predicate WellFormed(s: Store) {
    && Consistent(s)
    && forall k | k in s.rows :: s.rows[k].id == k
  }

  /** Records carry their own key, so no two keys hold the same record. */
  lemma WellFormedInjective(s: Store)
    requires WellFormed(s)
    ensures Injective(s.rows)
  {
  }

  /** No two records share a product code. The schema does not enforce
      this; the `Optional` lookup by code assumes it. */
  predicate CodesUnique(s: Store) {
    forall j, k | j in s.rows && k in s.rows
      :: s.rows[j].details.productCode == s.rows[k].details.productCode ==> j == k
  }

  predicate HasCode(s: Store, code: string) {
    exists k :: k in s.rows && s.rows[k].details.productCode == code
  }

  /** `findAll`. */
  function FindAll(s: Store): (r: seq<Item>)
    requires WellFormed(s)
    ensures Distinct(r)
    ensures forall it :: it in r <==> it in s.rows.Values
  {
    WellFormedInjective(s);
    Select(s, (it: Item) => true)
  }

  /** `findByProductCode`: the record with that code, if there is one. */
  function FindByProductCode(s: Store, code: string): (r: Option<Item>)
    requires WellFormed(s) && CodesUnique(s)
    ensures r.None? <==> !HasCode(s, code)
    ensures r.Some? ==> r.value.id in s.rows && s.rows[r.value.id] == r.value
    ensures r.Some? ==> r.value.details.productCode == code
    ensures r.Some? ==> forall k | k in s.rows && s.rows[k].details.productCode == code :: k == r.value.id
  {
    WellFormedInjective(s);
    var hits := Select(s, (it: Item) => it.details.productCode == code);
    if |hits| == 0 then
      assert forall k | k in s.rows :: s.rows[k] in s.rows.Values;
      None
    else
      assert hits[0] in hits;
      Some(hits[0])
  }

  /** `findByProductId`: every record referring to that product. */
  function FindByProductId(s: Store, productId: int64): (r: seq<Item>)
    requires WellFormed(s)
    ensures Distinct(r)
    ensures forall it :: it in r <==> it in s.rows.Values && it.details.productId == productId
  {
    WellFormedInjective(s);
    Select(s, (it: Item) => it.details.productId == productId)
  }

  /** `findByWarehouseLocation`. A null argument is derived as `IS NULL`, so
      it selects the records without a location. */
  function FindByWarehouseLocation(s: Store, location: Option<string>): (r: seq<Item>)
    requires WellFormed(s)
    ensures Distinct(r)
    ensures forall it :: it in r <==> it in s.rows.Values && it.details.warehouseLocation == location
  {
    WellFormedInjective(s);
    Select(s, (it: Item) => it.details.warehouseLocation == location)
  }

  /** `findByQuantityLessThan`: a strict comparison. */
  function FindByQuantityLessThan(s: Store, quantity: int32): (r: seq<Item>)
    requires WellFormed(s)
    ensures Distinct(r)
    ensures forall it :: it in r <==> it in s.rows.Values && it.details.quantity < quantity
  {
    WellFormedInjective(s);
    Select(s, (it: Item) => it.details.quantity < quantity)
  }
}
