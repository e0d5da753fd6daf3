/** `ProductService`: product CRUD with loud NotFound, the read-only filter
    delegations, and the stock policy over the inventory service's reply. */
module ProductService {
  import opened Wrappers
  import opened Text
  import opened Errors
  import opened Table
  import opened ProductModel
  import opened ProductRepository

  const IN_STOCK := "inStock"

  /** What the `checkStock` call of the inventory client yields: a 2xx reply
      whose JSON body may be null and whose values may be null, or a failure
      of any kind (unreachable host, non-2xx status, unreadable body), which
      the client raises as an exception. */
  datatype Remote = Failed | Ok(body: Option<map<string, Option<bool>>>)

  function ProductNotFound(id: nat): Error {
    NotFound("Product not found with id: " + NatToString(id))
  }

  /** `getAllProducts`. */
  function GetAllProducts(s: Store): (r: seq<Product>)
    requires WellFormed(s)
    ensures Distinct(r)
    ensures forall p :: p in r <==> p in s.rows.Values
  {
    FindAll(s)
  }

  /** `getProductById`: the product, or NotFound when the id is absent. */
  function GetProductById(s: Store, id: nat): (r: Result<Product, Error>)
    ensures r.Success? <==> id in s.rows
    ensures r.Success? ==> r.value == s.rows[id]
    ensures r.Failure? ==> r.error == ProductNotFound(id)
  {
    match Find(s, id)
    case Some(p) => Success(p)
    case None => Failure(ProductNotFound(id))
  }

  /** `createProduct`: stored under a fresh id, which the returned product
      carries; nothing else changes. */
  function CreateProduct(s: Store, d: Details): (t: Txn<Store, Product>)
    requires WellFormed(s)
    ensures t.result.Success?
    ensures t.result.value.id !in s.rows && t.result.value.details == d
    ensures t.store.rows == s.rows[t.result.value.id := t.result.value]
    ensures WellFormed(t.store)
  {
    var p := Product(s.nextId, d);
    Txn(Table(s.rows[s.nextId := p], s.nextId + 1), Success(p))
  }

  /** `updateProduct`: name, description, price, category and stock quantity
      are overwritten, the id is kept; an absent id raises NotFound and
      writes nothing. */
  function UpdateProduct(s: Store, id: nat, d: Details): (t: Txn<Store, Product>)
    requires WellFormed(s)
    ensures t.result.Success? <==> id in s.rows
    ensures t.result.Failure? ==> t == Txn(s, Failure(ProductNotFound(id)))
    ensures t.result.Success? ==> t.result.value == Product(id, d)
    ensures t.result.Success? ==> t.store == s.(rows := s.rows[id := Product(id, d)])
  {
    match GetProductById(s, id)
    case Failure(e) => Txn(s, Failure(e))
    case Success(p) =>
      var updated := p.(details := d);
      Txn(s.(rows := s.rows[p.id := updated]), Success(updated))
  }

  /** `deleteProduct`: removes exactly that id; an absent id raises NotFound
      and writes nothing. */
  function DeleteProduct(s: Store, id: nat): (t: Txn<Store, ()>)
    requires WellFormed(s)
    ensures t.result.Success? <==> id in s.rows
    ensures t.result.Failure? ==> t == Txn(s, Failure(ProductNotFound(id)))
    ensures t.result.Success? ==> t.store.rows.Keys == s.rows.Keys - {id}
    ensures forall k | k in t.store.rows :: t.store.rows[k] == s.rows[k]
    ensures t.store.nextId == s.nextId
  {
    match GetProductById(s, id)
    case Failure(e) => Txn(s, Failure(e))
    case Success(p) => Txn(s.(rows := s.rows - {p.id}), Success(()))
  }

  /** `getProductsByCategory`. */
  function GetProductsByCategory(s: Store, category: string): (r: seq<Product>)
    requires WellFormed(s)
    ensures Distinct(r)
    ensures forall p :: p in r <==> p in s.rows.Values && p.details.category == Some(category)
  {
    FindByCategory(s, Some(category))
  }

  /** `getProductsWithPriceLessThan`. */
  function GetProductsWithPriceLessThan(s: Store, price: real): (r: seq<Product>)
    requires WellFormed(s)
    ensures Distinct(r)
    ensures forall p :: p in r <==> p in s.rows.Values && p.details.price < price
  {
    FindByPriceLessThan(s, price)
  }

  /** `searchProductsByName`. */
  function SearchProductsByName(s: Store, name: string): (r: seq<Product>)
    requires WellFormed(s)
    ensures Distinct(r)
    ensures forall p :: p in r <==> p in s.rows.Values && Contains(Lower(p.details.name), Lower(name))
  {
    SearchByNameContainingIgnoreCase(s, name)
  }

  /** `isProductInStock`, given the reply of `checkStock(code, quantity)`:
      true only for a reply whose body maps `inStock` to true. A failed
      call, a null body, a missing key and a null value (whose unboxing
      throws inside the `try`) all give false. */
  function IsProductInStock(reply: Remote): (b: bool)
    ensures reply.Failed? ==> !b
    ensures reply.Ok? && reply.body.None? ==> !b
    ensures reply.Ok? && reply.body.Some? && IN_STOCK !in reply.body.value ==> !b
    ensures b <==> reply.Ok? && reply.body.Some? && IN_STOCK in reply.body.value
                   && reply.body.value[IN_STOCK] == Some(true)
  {
    match reply
    case Failed => false
    case Ok(None) => false
    case Ok(Some(m)) =>
      var v := if IN_STOCK in m then m[IN_STOCK] else Some(false);
      match v
      case None => false
      case Some(inStock) => inStock
  }
}
