/** Properties of the product service that relate several calls, and how
    its errors reach the client through the exception handler. */
module ProductProperties {
  import opened Wrappers
  import opened Text
  import opened Errors
  import opened ProductModel
  import opened ProductRepository
  import opened ProductService
  import opened GlobalExceptionHandler

  /** Every stored product would pass validation. */
  predicate Invariant(s: Store) {
    WellFormed(s) && forall k | k in s.rows :: Sound(s.rows[k].details)
  }

  /** Creating and updating with validated columns, and deleting, keep the
      invariant. */
  lemma MutationsPreserveInvariant(s: Store, id: nat, d: Details)
    requires Invariant(s) && Sound(d)
    ensures Invariant(CreateProduct(s, d).store)
    ensures Invariant(UpdateProduct(s, id, d).store)
    ensures Invariant(DeleteProduct(s, id).store)
  {
  }

  /** Creating and then fetching by the returned id gives the created product. */
  lemma CreateThenGet(s: Store, d: Details)
    requires WellFormed(s)
    ensures var t := CreateProduct(s, d);
      GetProductById(t.store, t.result.value.id) == Success(Product(s.nextId, d))
  {
  }

  /** Fetching, updating or deleting an absent product answers 404 with the
      service's message, and the store is left as it was. */
  lemma MissingProductIs404(s: Store, id: nat, d: Details)
    requires WellFormed(s) && id !in s.rows
    ensures Render(GetProductById(s, id).error)
      == ErrorResponse(NOT_FOUND, ErrorDetails(Some("Product not found with id: " + NatToString(id))))
    ensures UpdateProduct(s, id, d) == Txn(s, Failure(ProductNotFound(id)))
    ensures DeleteProduct(s, id) == Txn(s, Failure(ProductNotFound(id)))
    ensures Render(UpdateProduct(s, id, d).result.error).status == NOT_FOUND
  {
  }

  /** A body failing validation answers 400 with one entry per failing
      field, carrying that field's constraint message. */
  lemma InvalidBodyIs400(b: Body)
    requires !Valid(b)
    ensures Render(InvalidBody(Violations(b))).status == BAD_REQUEST
    ensures Render(InvalidBody(Violations(b))).body == FieldMessages(FieldMap(Violations(b)))
    ensures FieldMap(Violations(b)).Keys <= {"name", "price"}
    ensures (b.name.None? || IsBlank(b.name.value)) <==> "name" in FieldMap(Violations(b))
    ensures (b.name.None? || IsBlank(b.name.value)) ==> FieldMap(Violations(b))["name"] == NAME_REQUIRED
    ensures (b.price.None? || b.price.value <= 0.0) <==> "price" in FieldMap(Violations(b))
    ensures b.price.None? ==> FieldMap(Violations(b))["price"] == PRICE_REQUIRED
    ensures b.price.Some? && b.price.value <= 0.0 ==> FieldMap(Violations(b))["price"] == PRICE_POSITIVE
  {
    EntriesAreFields(b);
    NameEntry(b);
    PriceEntry(b);
  }

  /** The 400 body names no field other than the two constrained ones. */
  lemma EntriesAreFields(b: Body)
    ensures FieldMap(Violations(b)).Keys <= {"name", "price"}
  {
    var errs := Violations(b);
    forall f | f in FieldMap(errs)
      ensures f == "name" || f == "price"
    {
      LastMessageExists(errs, f);
    }
  }

  /** The `name` entry of the 400 body: present exactly when the name is
      missing or blank, with the required message. */
  lemma NameEntry(b: Body)
    ensures (b.name.None? || IsBlank(b.name.value)) <==> "name" in FieldMap(Violations(b))
    ensures (b.name.None? || IsBlank(b.name.value)) ==> FieldMap(Violations(b))["name"] == NAME_REQUIRED
  {
    var errs := Violations(b);
    FieldMapOfDistinct(errs);
    if b.name.None? || IsBlank(b.name.value) {
      assert FieldError("name", NAME_REQUIRED) in errs;
    }
  }

  /** The `price` entry of the 400 body: present exactly when the price is
      missing or not positive, with the message of the failing constraint. */
  lemma PriceEntry(b: Body)
    ensures (b.price.None? || b.price.value <= 0.0) <==> "price" in FieldMap(Violations(b))
    ensures b.price.None? ==> FieldMap(Violations(b))["price"] == PRICE_REQUIRED
    ensures b.price.Some? && b.price.value <= 0.0 ==> FieldMap(Violations(b))["price"] == PRICE_POSITIVE
  {
    var errs := Violations(b);
    FieldMapOfDistinct(errs);
    if b.price.None? {
      assert FieldError("price", PRICE_REQUIRED) in errs;
    } else if b.price.value <= 0.0 {
      assert FieldError("price", PRICE_POSITIVE) in errs;
    }
  }

  /** When no two errors name the same field, the map has exactly the
      fields named, each with its error's message. */
  lemma FieldMapOfDistinct(errs: seq<FieldError>)
    requires forall i, j | 0 <= i < j < |errs| :: errs[i].field != errs[j].field
    ensures forall f :: f in FieldMap(errs) <==> exists e :: e in errs && e.field == f
    ensures forall e | e in errs :: e.field in FieldMap(errs) && FieldMap(errs)[e.field] == e.message
  {
    forall f
      ensures f in FieldMap(errs) <==> exists e :: e in errs && e.field == f
    {
      LastMessageExists(errs, f);
    }
    forall i | 0 <= i < |errs|
      ensures errs[i].field in FieldMap(errs) && FieldMap(errs)[errs[i].field] == errs[i].message
    {
      LaterOverwrites(errs, i);
    }
  }
}
