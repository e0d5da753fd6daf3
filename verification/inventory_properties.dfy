/** Properties of the inventory service that relate several calls or hold
    across the whole store. */
module InventoryProperties {
  import opened Wrappers
  import opened JavaInt
  import opened Errors
  import opened Table
  import opened InventoryModel
  import opened InventoryRepository
  import opened InventoryService

  /** The quantity adjustment keeps the store invariant, whatever the delta:
      a sum below zero is refused, and every other record is untouched. */
  lemma AdjustPreservesInvariant(s: Store, code: string, change: int32)
    requires Invariant(s) && CodesUnique(s)
    ensures Invariant(UpdateInventoryQuantity(s, code, change).store)
    ensures CodesUnique(UpdateInventoryQuantity(s, code, change).store)
  {
    var t := UpdateInventoryQuantity(s, code, change);
    if HasCode(s, code) {
      var k :| k in s.rows && s.rows[k].details.productCode == code;
      var sum := Add(s.rows[k].details.quantity, change);
      if sum >= 0 {
        assert t.store.rows == s.rows[k := Item(k, s.rows[k].details.(quantity := sum))];
        SoundMeans(s.rows[k].details);
        SoundMeans(t.store.rows[k].details);
      }
    }
  }

  /** On a store without negative quantities the adjustment succeeds exactly
      when the mathematical sum is neither negative nor beyond `int`, and
      then it stores that sum. */
  lemma AdjustSucceedsIff(s: Store, code: string, change: int32, k: nat)
    requires WellFormed(s) && CodesUnique(s) && NonNegative(s)
    requires k in s.rows && s.rows[k].details.productCode == code
    ensures var t := UpdateInventoryQuantity(s, code, change);
      && (t.result.Success? <==> 0 <= s.rows[k].details.quantity + change <= INT_MAX)
      && (t.result.Success? ==> t.store.rows[k].details.quantity == s.rows[k].details.quantity + change)
      && (t.result.Failure? ==> t.store == s && t.result.error == IllegalArgument(BELOW_ZERO))
  {
    var q := s.rows[k].details.quantity;
    assert q >= 0;
    assert INT_MIN <= q + change;
  }

  /** As written, adding to a quantity so that the `int` sum overflows wraps
      it negative: the call is refused with the below-zero message although
      the change is positive. */
  lemma AdjustOverflowRefused(s: Store, code: string, k: nat)
    requires WellFormed(s) && CodesUnique(s)
    requires k in s.rows && s.rows[k].details.productCode == code
    requires s.rows[k].details.quantity == INT_MAX
    ensures UpdateInventoryQuantity(s, code, 1) == Txn(s, Failure(IllegalArgument(BELOW_ZERO)))
  {
    assert Add(INT_MAX, 1) == INT_MIN;
  }

  /** Full-record update with validated columns keeps the invariant. */
  lemma UpdatePreservesInvariant(s: Store, id: nat, d: Details)
    requires Invariant(s) && Sound(d)
    ensures Invariant(UpdateInventoryItem(s, id, d).store)
  {
  }

  /** Creation with validated columns keeps the invariant. */
  lemma CreatePreservesInvariant(s: Store, d: Details)
    requires Invariant(s) && Sound(d)
    ensures Invariant(CreateInventoryItem(s, d).store)
  {
  }

  /** Deletion keeps the invariant and the uniqueness of codes. */
  lemma DeletePreservesInvariant(s: Store, id: nat)
    requires Invariant(s)
    ensures Invariant(DeleteInventoryItem(s, id).store)
    ensures CodesUnique(s) ==> CodesUnique(DeleteInventoryItem(s, id).store)
  {
  }

  /** Creating and then fetching by the returned id gives the created record. */
  lemma {:induction false} CreateThenGet(s: Store, d: Details)
    requires WellFormed(s)
    ensures var t := CreateInventoryItem(s, d);
      GetInventoryItemById(t.store, t.result.value.id) == Success(Item(s.nextId, d))
  {
  }

  /** Deleting and then fetching by that id raises NotFound. */
  lemma DeleteThenGet(s: Store, id: nat)
    requires WellFormed(s) && id in s.rows
    ensures GetInventoryItemById(DeleteInventoryItem(s, id).store, id) == Failure(IdNotFound(id))
  {
  }

  /** No record ever sits strictly below zero, so the low-stock query for
      threshold zero is empty. */
  lemma LowStockAtZeroIsEmpty(s: Store)
    requires WellFormed(s) && NonNegative(s)
    ensures GetLowStockItems(s, 0) == []
  {
    var r := GetLowStockItems(s, 0);
    forall it | it in s.rows.Values
      ensures it.details.quantity >= 0
    {
      var k :| k in s.rows && s.rows[k] == it;
    }
    assert forall it :: it !in r;
    if |r| > 0 {
      HeadIsMember(r);
      assert false;
    }
  }

  lemma HeadIsMember<T>(r: seq<T>)
    requires |r| > 0
    ensures r[0] in r
  {
  }

  /** A record whose quantity equals the threshold is not low stock. */
  lemma LowStockIsStrict(s: Store, k: nat)
    requires WellFormed(s) && k in s.rows
    ensures s.rows[k] !in GetLowStockItems(s, s.rows[k].details.quantity)
  {
  }

  /** The stock check never raises and reports exactly the `>=` comparison;
      an equal quantity is enough. */
  lemma InStockAtBoundary(s: Store, k: nat)
    requires WellFormed(s) && CodesUnique(s) && k in s.rows
    ensures IsInStock(s, s.rows[k].details.productCode, s.rows[k].details.quantity)
  {
  }

  /** The worked example: PROD-001 holds 10. */
  const Example: Store := Table(map[0 := Item(0, Details("PROD-001", 10, Some("Warehouse A"), 101))], 1)

  /** Taking 15 from the example is refused and leaves 10; taking 10 leaves
      0; after that one unit is not in stock. */
  lemma {:induction false} Scenario()
    ensures UpdateInventoryQuantity(Example, "PROD-001", -15) == Txn(Example, Failure(IllegalArgument(BELOW_ZERO)))
    ensures UpdateInventoryQuantity(Example, "PROD-001", -10).store.rows[0].details.quantity == 0
    ensures !IsInStock(UpdateInventoryQuantity(Example, "PROD-001", -10).store, "PROD-001", 1)
  {
    assert Example.rows[0].details.productCode == "PROD-001";
    var t := UpdateInventoryQuantity(Example, "PROD-001", -10);
    assert t.store.rows == map[0 := Item(0, Example.rows[0].details.(quantity := 0))];
  }
}
