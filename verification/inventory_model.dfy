/** The inventory record (`InventoryItem`) and its bean-validation constraints. */
module InventoryModel {
  import opened Wrappers
  import opened JavaInt
  import opened Text
  import opened Errors

  /** The mutable columns of a stored record. */
  datatype Details = Details(
    productCode: string,
    quantity: int32,
    warehouseLocation: Option<string>,
    productId: int64)

  /** A stored record: its store-assigned id and its columns. */
  datatype Item = Item(id: nat, details: Details)

  /** A record as a JSON request body carries it: any field may be null or
      absent. */
  datatype Body = Body(
    productCode: Option<string>,
    quantity: Option<int32>,
    warehouseLocation: Option<string>,
    productId: Option<int64>)

  const CODE_REQUIRED := "Product code is required"
  const QUANTITY_REQUIRED := "Quantity is required"
  const QUANTITY_NEGATIVE := "Quantity cannot be negative"
  const PRODUCT_ID_REQUIRED := "Product ID is required"

  /** The field constraints: `@NotBlank productCode`, `@NotNull @Min(0)
      quantity`, `@NotNull productId`; `warehouseLocation` is unconstrained. */
  predicate Valid(b: Body) {
    && b.productCode.Some? && !IsBlank(b.productCode.value)
    && b.quantity.Some? && b.quantity.value >= 0
    && b.productId.Some?
  }

  /** The constraint violations of a body, one per failing field, in
      declaration order. `@Min` accepts null, so a missing quantity is
      reported only as required. */
  function Violations(b: Body): (errs: seq<FieldError>)
    ensures |errs| == 0 <==> Valid(b)
    ensures FieldError("productCode", CODE_REQUIRED) in errs
        <==> b.productCode.None? || IsBlank(b.productCode.value)
    ensures FieldError("quantity", QUANTITY_REQUIRED) in errs <==> b.quantity.None?
    ensures FieldError("quantity", QUANTITY_NEGATIVE) in errs
        <==> b.quantity.Some? && b.quantity.value < 0
    ensures FieldError("productId", PRODUCT_ID_REQUIRED) in errs <==> b.productId.None?
    ensures forall e | e in errs :: e in {FieldError("productCode", CODE_REQUIRED),
      FieldError("quantity", QUANTITY_REQUIRED), FieldError("quantity", QUANTITY_NEGATIVE),
      FieldError("productId", PRODUCT_ID_REQUIRED)}
    ensures forall i, j | 0 <= i < j < |errs| :: errs[i].field != errs[j].field
  {
    var code := if b.productCode.None? || IsBlank(b.productCode.value)
      then [FieldError("productCode", CODE_REQUIRED)] else [];
    var quantity := match b.quantity
      case None => [FieldError("quantity", QUANTITY_REQUIRED)]
      case Some(q) => if q < 0 then [FieldError("quantity", QUANTITY_NEGATIVE)] else [];
    var productId := if b.productId.None? then [FieldError("productId", PRODUCT_ID_REQUIRED)] else [];
    code + quantity + productId
  }

  /** The body a stored record serialises to. */
  function ToBody(d: Details): Body {
    Body(Some(d.productCode), Some(d.quantity), d.warehouseLocation, Some(d.productId))
  }

  /** The columns of a validated body; it is the inverse of `ToBody`. */
  function Accept(b: Body): (d: Details)
    requires Valid(b)
    ensures ToBody(d) == b
    ensures Sound(d)
  {
    Details(b.productCode.value, b.quantity.value, b.warehouseLocation, b.productId.value)
  }

  /** Stored columns that would pass validation. */
  predicate Sound(d: Details) {
    Valid(ToBody(d))
  }

  /** A sound record has a non-blank code and a non-negative quantity, and
      every record with those has a sound body. */
  lemma SoundMeans(d: Details)
    ensures Sound(d) <==> !IsBlank(d.productCode) && d.quantity >= 0
  {
  }

  /** Serialising and accepting again gives back the same columns. */
  lemma AcceptToBody(d: Details)
    requires Sound(d)
    ensures Accept(ToBody(d)) == d
  {
  }
}
