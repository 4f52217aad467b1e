/**
 Request-body validation that runs before a create or an update reaches the
 service. A body is acceptable when every field satisfies its column's
 constraint and, beyond that, the name and category are non-empty and the
 price and stock are non-negative.
 */
module Validation {

  import opened Text
  import opened Schema

  /** The five client-supplied fields, as validation errors name them. */
  datatype Field = Name | Description | Price | Category | Stock

  /** One validation error, naming the field that breaks its rule. */
  datatype FieldError = FieldError(field: Field)

  /** The rule for one field of a request body. */
  predicate FieldValid(f: Fields, field: Field)
  {
    match field
    case Name => 0 < |f.name| && Utf16Length(f.name) <= NameMaxLength
    case Description => Utf16Length(f.description) <= DescriptionMaxLength
    case Price => 0 <= f.price < PriceBound
    case Category => 0 < |f.category| && Utf16Length(f.category) <= CategoryMaxLength
    case Stock => 0 <= f.stock
  }

  /** A request body that passes validation. */
  predicate InputValid(f: Fields)
  {
    && FieldValid(f, Name)
    && FieldValid(f, Description)
    && FieldValid(f, Price)
    && FieldValid(f, Category)
    && FieldValid(f, Stock)
  }

  /** The error for one field: none when the field keeps its rule, one naming it otherwise. */
  function Check(f: Fields, field: Field): (errors: seq<FieldError>)
    ensures forall e :: e in errors <==> !FieldValid(f, field) && e == FieldError(field)
  {
    if FieldValid(f, field) then [] else [FieldError(field)]
  }

  /**
   The list of field errors of a request body: every error names a field that
   breaks its rule, every field that breaks its rule is named, so the list is
   empty exactly when the body is valid.
   */
  function Validate(f: Fields): (errors: seq<FieldError>)
    ensures forall e :: e in errors ==> !FieldValid(f, e.field)
    ensures forall field :: !FieldValid(f, field) ==> FieldError(field) in errors
    ensures errors == [] <==> InputValid(f)
  {
    Check(f, Name) + Check(f, Description) + Check(f, Price) + Check(f, Category) + Check(f, Stock)
  }

  /** A body that passes validation fits the table's columns, so saving it cannot be refused. */
  lemma ValidInputFitsColumns(f: Fields)
    requires InputValid(f)
    ensures ColumnsFit(f)
  {
  }
}
