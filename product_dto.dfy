/**
 * `ProductoDTO`, the body of a create or update request, and the validation
 * its data annotations declare. The controller answers 400 with the failed
 * fields when `Errors` is not empty and calls the service otherwise.
 */
module Dto {
  import opened Common
  import Text

  datatype ProductDto = ProductDto(
    name: Option<string>,
    category: Option<string>,
    price: real,
    stock: Int32,
    brand: Option<string>)

  /** The lower bound of `[Range(0.01, double.MaxValue)]` on the price. */
  const MinPrice: real := 0.01

  /** `[Required]` on a string property: not null, and not empty or white space only. */
  predicate Required(s: Option<string>)
  {
    s.Some? && !Text.IsBlank(s.value)
  }

  /** Every annotation of the DTO holds. `[Required]` on `Price` and `Stock`
      always holds, because both are value types. */
  predicate IsValid(dto: ProductDto)
  {
    && Required(dto.name)
    && Required(dto.category)
    && MinPrice <= dto.price
    && 0 <= dto.stock as int <= INT32_MAX
    && Required(dto.brand)
  }

  /** One failed annotation: the property and the annotation's error message. */
  datatype ValidationError = ValidationError(field: string, message: string)

  const NameRequired := ValidationError("Name", "El nombre es requerido.")
  const CategoryRequired := ValidationError("Category", "La categoría es requerida.")
  const PriceOutOfRange := ValidationError("Price", "El precio debe ser mayor que 0.")
  const StockOutOfRange := ValidationError("Stock", "El stock no puede ser negativo.")
  const BrandRequired := ValidationError("Brand", "La marca es requerida.")

  /** The model-state errors of a DTO, one per failed annotation, in property
      order: each annotation's error is reported exactly when it fails, and no
      property is reported twice. */
  function Errors(dto: ProductDto): (r: seq<ValidationError>)
    ensures |r| <= 5
    ensures NameRequired in r <==> !Required(dto.name)
    ensures CategoryRequired in r <==> !Required(dto.category)
    ensures PriceOutOfRange in r <==> dto.price < MinPrice
    ensures StockOutOfRange in r <==> dto.stock < 0
    ensures BrandRequired in r <==> !Required(dto.brand)
  {
    (if Required(dto.name) then [] else [NameRequired])
    + (if Required(dto.category) then [] else [CategoryRequired])
    + (if MinPrice <= dto.price then [] else [PriceOutOfRange])
    + (if 0 <= dto.stock as int <= INT32_MAX then [] else [StockOutOfRange])
    + (if Required(dto.brand) then [] else [BrandRequired])
  }

  /** The position of a property in `ProductoDTO`. */
  function FieldRank(field: string): nat
  {
    if field == "Name" then 0
    else if field == "Category" then 1
    else if field == "Price" then 2
    else if field == "Stock" then 3
    else 4
  }

  /** Errors in strictly increasing property position: in property order and
      at most one per property. */
  predicate RankedByField(errors: seq<ValidationError>)
  {
    forall i, j :: 0 <= i < j < |errors| ==> FieldRank(errors[i].field) < FieldRank(errors[j].field)
  }

  /** Putting the error of a later property, or nothing, after a ranked list
      of errors keeps it ranked. */
  lemma AppendRanked(errors: seq<ValidationError>, ok: bool, e: ValidationError)
    requires RankedByField(errors)
    requires forall i :: 0 <= i < |errors| ==> FieldRank(errors[i].field) < FieldRank(e.field)
    ensures RankedByField(errors + if ok then [] else [e])
    ensures var r := errors + if ok then [] else [e];
      forall i :: 0 <= i < |r| ==> FieldRank(r[i].field) <= FieldRank(e.field)
  {
  }

  /** The errors come in property order and no property is reported twice. */
  lemma ErrorsReportEachFieldOnce(dto: ProductDto)
    ensures RankedByField(Errors(dto))
    ensures var r := Errors(dto); forall i, j :: 0 <= i < j < |r| ==> r[i].field != r[j].field
  {
    var name := if Required(dto.name) then [] else [NameRequired];
    var category := name + if Required(dto.category) then [] else [CategoryRequired];
    AppendRanked(name, Required(dto.category), CategoryRequired);
    var price := category + if MinPrice <= dto.price then [] else [PriceOutOfRange];
    AppendRanked(category, MinPrice <= dto.price, PriceOutOfRange);
    var stock := price + if 0 <= dto.stock as int <= INT32_MAX then [] else [StockOutOfRange];
    AppendRanked(price, 0 <= dto.stock as int <= INT32_MAX, StockOutOfRange);
    AppendRanked(stock, Required(dto.brand), BrandRequired);
  }

  /** The request reaches the service exactly when no annotation fails. */
  lemma NoErrorsIffValid(dto: ProductDto)
    ensures Errors(dto) == [] <==> IsValid(dto)
  {
  }

  /** A valid DTO describes a product that meets the entity's invariant:
      the strings are present and not blank, the price is positive and the
      stock is not negative. */
  lemma ValidDtoMeetsEntityInvariant(dto: ProductDto)
    requires IsValid(dto)
    ensures dto.name.Some? && dto.category.Some? && dto.brand.Some?
    ensures |dto.name.value| > 0 && |dto.category.value| > 0 && |dto.brand.value| > 0
    ensures dto.price > 0.0 && dto.stock >= 0
  {
  }
}
