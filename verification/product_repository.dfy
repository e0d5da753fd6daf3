/** `ProductRepository`: the product table and its derived queries. */
module ProductRepository {
  import opened Wrappers
  import opened JavaInt
  import opened Text
  import opened Table
  import opened ProductModel

  type Store = Table<Product>

  /** Every key was handed out, and each product carries its own key as id. */
  predicate WellFormed(s: Store) {
    && Consistent(s)
    && forall k | k in s.rows :: s.rows[k].id == k
  }

  /** Records carry their own key, so no two keys hold the same record. */
  lemma WellFormedInjective(s: Store)
    requires WellFormed(s)
    ensures Injective(s.rows)
  {
  }

  /** `findAll`. */
  function FindAll(s: Store): (r: seq<Product>)
    requires WellFormed(s)
    ensures Distinct(r)
    ensures forall p :: p in r <==> p in s.rows.Values
  {
    WellFormedInjective(s);
    Select(s, (p: Product) => true)
  }

  /** `findByCategory`: exact equality; a null category selects the
      products without one (`IS NULL`). */
  function FindByCategory(s: Store, category: Option<string>): (r: seq<Product>)
    requires WellFormed(s)
    ensures Distinct(r)
    ensures forall p :: p in r <==> p in s.rows.Values && p.details.category == category
  {
    WellFormedInjective(s);
    Select(s, (p: Product) => p.details.category == category)
  }

  /** `findByPriceLessThan`: strictly cheaper. */
  function FindByPriceLessThan(s: Store, price: real): (r: seq<Product>)
    requires WellFormed(s)
    ensures Distinct(r)
    ensures forall p :: p in r <==> p in s.rows.Values && p.details.price < price
  {
    WellFormedInjective(s);
    Select(s, (p: Product) => p.details.price < price)
  }

  /** `findByStockQuantityGreaterThan`: strictly more; a product without a
      stock quantity never compares. */
  function FindByStockQuantityGreaterThan(s: Store, quantity: int32): (r: seq<Product>)
    requires WellFormed(s)
    ensures Distinct(r)
    ensures forall p :: p in r <==>
      p in s.rows.Values && p.details.stockQuantity.Some? && p.details.stockQuantity.value > quantity
  {
    WellFormedInjective(s);
    Select(s, (p: Product) => p.details.stockQuantity.Some? && p.details.stockQuantity.value > quantity)
  }

  /** `searchByNameContainingIgnoreCase`:
      `LOWER(name) LIKE LOWER(CONCAT('%', :name, '%'))`. */
  function SearchByNameContainingIgnoreCase(s: Store, name: string): (r: seq<Product>)
    requires WellFormed(s)
    ensures Distinct(r)
    ensures forall p :: p in r <==> p in s.rows.Values && Contains(Lower(p.details.name), Lower(name))
  {
    WellFormedInjective(s);
    Select(s, (p: Product) => Contains(Lower(p.details.name), Lower(name)))
  }

  /** The search ignores the case of the query: a query and its
      lower-cased form find the same products. */
  lemma SearchIgnoresCase(s: Store, name: string)
    requires WellFormed(s)
    ensures SearchByNameContainingIgnoreCase(s, Lower(name)) == SearchByNameContainingIgnoreCase(s, name)
  {
    LowerIdempotent(name);
  }

  /** A product whose name contains the query verbatim is found. */
  lemma SearchFindsVerbatim(s: Store, name: string, k: nat)
    requires WellFormed(s) && k in s.rows
    requires Contains(s.rows[k].details.name, name)
    ensures s.rows[k] in SearchByNameContainingIgnoreCase(s, name)
  {
    ContainsLower(s.rows[k].details.name, name);
  }

  /** The empty query matches every product. */
  lemma SearchEmptyFindsAll(s: Store)
    requires WellFormed(s)
    ensures forall p :: p in SearchByNameContainingIgnoreCase(s, "") <==> p in s.rows.Values
  {
    forall p | p in s.rows.Values
      ensures Contains(Lower(p.details.name), Lower(""))
    {
      assert Lower("") == [];
    }
  }
}
