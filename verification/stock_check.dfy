/** The one call between the services: the product service's
    `isProductInStock` asks the inventory service's check-stock endpoint.
    The reply crosses the wire as JSON; `Transport` is what the client
    receives for a given controller outcome. */
module StockCheck {
  import opened Wrappers
  import opened JavaInt
  import opened Errors
  import opened InventoryRepository
  import InventoryService
  import opened InventoryController
  import ProductService

  /** The client's view of an inventory reply: a 2xx answer with a map
      body is read as that map, one without a body as a null body; an
      exception on the server side (answered with an error status) and a
      body that is not a map are failures of the call. */
  function Transport(t: Txn<Store, Response>): (r: ProductService.Remote)
    ensures r.Ok? ==> t.result.Success? && 200 <= t.result.value.status < 300
    ensures t.result.Success? && 200 <= t.result.value.status < 300 && t.result.value.body.Flags? ==>
      && r.Ok? && r.body.Some?
      && (forall k :: k in r.body.value <==> k in t.result.value.body.flags)
      && (forall k | k in t.result.value.body.flags :: r.body.value[k] == Some(t.result.value.body.flags[k]))
  {
    match t.result
    case Failure(_) => ProductService.Failed
    case Success(r) =>
      if !(200 <= r.status < 300) then ProductService.Failed
      else
        match r.body
        case Flags(m) => ProductService.Ok(Some(map k | k in m :: Some(m[k])))
        case NoContent => ProductService.Ok(None)
        case _ => ProductService.Failed
  }

  /** `isProductInStock(code, quantity)` against a live inventory agrees with
      the inventory's own `isInStock`, with the quantity defaulting to 1
      when the caller passes none. */
  lemma CrossServiceAgreement(inv: Store, code: string, quantity: Option<int32>)
    requires WellFormed(inv) && CodesUnique(inv)
    ensures ProductService.IsProductInStock(Transport(Handle(inv, CheckStock(code, quantity))))
         == InventoryService.IsInStock(inv, code, quantity.GetOr(DEFAULT_REQUIRED))
  {
    var r := CheckItemStock(inv, code, quantity);
    assert Handle(inv, CheckStock(code, quantity)) == Txn(inv, Success(r));
    assert ProductService.IN_STOCK == IN_STOCK;
  }

  /** A code the inventory does not know is reported as not in stock, not as
      an error, whatever quantity is asked for. */
  lemma UnknownCodeNotInStock(inv: Store, code: string, quantity: Option<int32>)
    requires WellFormed(inv) && CodesUnique(inv) && !HasCode(inv, code)
    ensures !ProductService.IsProductInStock(Transport(Handle(inv, CheckStock(code, quantity))))
  {
    CrossServiceAgreement(inv, code, quantity);
  }
}
