/**
 * The part of Go's reflection that the walk relies on, replaced by an
 * explicit, finite value tree.
 *
 * A `Value` is what `reflect.ValueOf` hands the walk: a struct with its
 * fields in declaration order, a pointer (nil or pointing at a value), or a
 * value of any other kind (string, number, slice, map, interface, array,
 * ...), of which only "is it its type's zero value" matters here.
 */
module Reflection {

  datatype Option<+T> = None | Some(value: T)

  datatype Value =
    | Struct(fields: seq<Field>)
    | Ptr(target: Option<Value>)
    | Scalar(zero: bool)

  /**
   * One struct field as `reflect.StructField` plus `reflect.Value.Field(i)`
   * describe it. `requiredTag` is the outcome of `Tag.Lookup("required")`:
   * `None` when the tag has no `required` key, `Some(s)` with its value
   * otherwise. `embedded` and `exported` are the field's `Anonymous` and
   * `IsExported()`.
   */
  datatype Field = Field(name: string, requiredTag: Option<string>, embedded: bool, exported: bool, v: Value)

  /** The single error of the package, `ErrNotStructOrPtr`. */
  datatype Error = ErrNotStructOrPtr

  /** Go's `(result, error)` pair: `Err` stands for a non-nil error. */
  datatype Result<+T> = Ok(value: T) | Err(error: Error)

  /**
   * `reflect.Indirect`: dereferences exactly one pointer level. A nil
   * pointer gives the invalid `reflect.Value`, written `None`; any other
   * value is returned as it is.
   */
  function Indirect(v: Value): Option<Value>
  {
    match v
    case Ptr(target) => target
    case _ => Some(v)
  }

  /**
   * `reflect.Indirect(reflect.ValueOf(s))` for an argument `s` of type `any`;
   * `None` is the untyped `nil` interface, for which `ValueOf` already gives
   * the invalid value.
   */
  function Deref(s: Option<Value>): Option<Value>
  {
    match s
    case None => None
    case Some(v) => Indirect(v)
  }

  /** `Kind() == reflect.Struct` of a possibly invalid value. */
  predicate IsStruct(o: Option<Value>)
  {
    o.Some? && o.value.Struct?
  }

  /**
   * `reflect.Value.IsZero`: a struct is zero when every field is, a pointer
   * when it is nil, any other value when its own flag says so.
   */
  predicate IsZero(v: Value)
    decreases v
  {
    match v
    case Struct(fields) => AllFieldsZero(fields)
    case Ptr(target) => target.None?
    case Scalar(zero) => zero
  }

  predicate AllFieldsZero(fields: seq<Field>)
    decreases fields
  {
    fields == [] || (IsZero(fields[0].v) && AllFieldsZero(fields[1..]))
  }
}
