/** The product record (`Product`) and its bean-validation constraints.
    The price is a `Double` that is only ever compared, so it is a `real`. */
module ProductModel {
  import opened Wrappers
  import opened JavaInt
  import opened Text
  import opened Errors

  /** The mutable columns of a stored product. */
  datatype Details = Details(
    name: string,
    description: Option<string>,
    price: real,
    category: Option<string>,
    stockQuantity: Option<int32>)

  /** A stored product: its store-assigned id and its columns. */
  datatype Product = Product(id: nat, details: Details)

  /** A product as a JSON request body carries it. */
  datatype Body = Body(
    name: Option<string>,
    description: Option<string>,
    price: Option<real>,
    category: Option<string>,
    stockQuantity: Option<int32>)

  const NAME_REQUIRED := "Product name is required"
  const PRICE_REQUIRED := "Product price is required"
  const PRICE_POSITIVE := "Price must be positive"

  /** `@NotBlank name`, `@NotNull @Positive price`; description, category and
      stock quantity are unconstrained. */
  predicate Valid(b: Body) {
    && b.name.Some? && !IsBlank(b.name.value)
    && b.price.Some? && b.price.value > 0.0
  }

  /** The constraint violations of a body, one per failing field.
      `@Positive` accepts null, so a missing price is reported only as
      required. */
  function Violations(b: Body): (errs: seq<FieldError>)
    ensures |errs| == 0 <==> Valid(b)
    ensures FieldError("name", NAME_REQUIRED) in errs <==> b.name.None? || IsBlank(b.name.value)
    ensures FieldError("price", PRICE_REQUIRED) in errs <==> b.price.None?
    ensures FieldError("price", PRICE_POSITIVE) in errs <==> b.price.Some? && b.price.value <= 0.0
    ensures forall e | e in errs :: e in {FieldError("name", NAME_REQUIRED),
      FieldError("price", PRICE_REQUIRED), FieldError("price", PRICE_POSITIVE)}
    ensures forall i, j | 0 <= i < j < |errs| :: errs[i].field != errs[j].field
  {
    var name := if b.name.None? || IsBlank(b.name.value)
      then [FieldError("name", NAME_REQUIRED)] else [];
    var price := match b.price
      case None => [FieldError("price", PRICE_REQUIRED)]
      case Some(p) => if p <= 0.0 then [FieldError("price", PRICE_POSITIVE)] else [];
    name + price
  }

  /** The body a stored product serialises to. */
  function ToBody(d: Details): Body {
    Body(Some(d.name), d.description, Some(d.price), d.category, d.stockQuantity)
  }

  /** The columns of a validated body; it is the inverse of `ToBody`. */
  function Accept(b: Body): (d: Details)
    requires Valid(b)
    ensures ToBody(d) == b
    ensures Sound(d)
  {
    Details(b.name.value, b.description, b.price.value, b.category, b.stockQuantity)
  }

  /** Stored columns that would pass validation. */
  predicate Sound(d: Details) {
    Valid(ToBody(d))
  }
}
