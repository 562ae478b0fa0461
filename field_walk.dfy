/**
 * The recursive field walk that `Check`, `MissingFields` and `ArePresent`
 * all perform, stated once as functions on values. The three imperative
 * implementations are proved equal to these definitions; the properties
 * the package promises are proved about them in `WalkProperties`.
 */
module FieldWalk {
  import opened Reflection
  import opened Paths

  /**
   * `isRequiredAndZero`: the field has a `required` tag whose value is
   * exactly "true", and holds its type's zero value. Any other tag value,
   * "false" included, and a missing tag mean "not required".
   */
  predicate IsRequiredAndZero(field: Field)
  {
    field.requiredTag.Some? && field.requiredTag.value == "true" && IsZero(field.v)
  }

  /** `checkNested`: the walk descends into a struct, or into a pointer that is not its zero value. */
  predicate CheckNested(v: Value)
  {
    v.Struct? || (v.Ptr? && !IsZero(v))
  }

  /**
   * The paths of the missing required fields found in `v`, one pointer
   * level dereferenced, below `parentPath`, in declaration order, depth
   * first. A value that is not a struct after that dereference has none.
   * Every path lies below `parentPath`.
   */
  function Violations(v: Value, parentPath: string): (paths: seq<string>)
    ensures forall q | q in paths :: Extends(q, ParentPrefix(parentPath))
    decreases v
  {
    match v
    case Struct(fields) => FieldViolations(fields, parentPath)
    case Ptr(Some(Struct(fields))) => FieldViolations(fields, parentPath)
    case _ => []
  }

  /** The paths contributed by `fields`, each field's block after those of the fields declared before it. */
  function FieldViolations(fields: seq<Field>, parentPath: string): (paths: seq<string>)
    ensures forall q | q in paths :: Extends(q, ParentPrefix(parentPath))
    decreases fields
  {
    if fields == [] then []
    else FieldContribution(fields[0], parentPath) + FieldViolations(fields[1..], parentPath)
  }

  /**
   * What one field contributes: its own path when it is required and zero
   * (and then nothing from inside it), otherwise whatever the walk finds
   * inside it when it is a struct or a non-nil pointer, otherwise nothing.
   */
  function FieldContribution(field: Field, parentPath: string): (paths: seq<string>)
    ensures forall q | q in paths :: Extends(q, ParentPrefix(parentPath))
    decreases field
  {
    var fieldPath := BuildFieldPath(parentPath, field.name);
    if IsRequiredAndZero(field) then [fieldPath]
    else if CheckNested(field.v) then Violations(field.v, fieldPath)
    else []
  }

  /**
   * Every required field reachable through struct fields and non-nil
   * pointers is set: the declarative reading of `presentInternal`.
   */
  predicate AllPresent(v: Value)
    decreases v
  {
    match v
    case Struct(fields) => FieldsPresent(fields)
    case Ptr(Some(Struct(fields))) => FieldsPresent(fields)
    case _ => true
  }

  predicate FieldsPresent(fields: seq<Field>)
    decreases fields
  {
    forall i | 0 <= i < |fields| :: FieldPresent(fields[i])
  }

  predicate FieldPresent(field: Field)
    decreases field
  {
    !IsRequiredAndZero(field) && (CheckNested(field.v) ==> AllPresent(field.v))
  }

  /** The answer `Check` and `MissingFields` give for an argument of type `any`. */
  function MissingOutcome(s: Option<Value>): Result<seq<string>>
  {
    if !IsStruct(Deref(s)) then Err(ErrNotStructOrPtr) else Ok(Violations(s.value, ""))
  }

  /** The answer `ArePresent` gives for an argument of type `any`. */
  function PresenceOutcome(s: Option<Value>): Result<bool>
  {
    if !IsStruct(Deref(s)) then Err(ErrNotStructOrPtr) else Ok(AllPresent(s.value))
  }

  /**
   * `route` names a chain of fields from `v` down to a required field that
   * is zero, every field before the last being one the walk descends into
   * (not itself required and zero, and a struct or a non-nil pointer).
   */
  ghost predicate IsViolationRoute(v: Value, route: seq<string>)
    decreases v
  {
    match v
    case Struct(fields) => RouteInFields(fields, route)
    case Ptr(Some(Struct(fields))) => RouteInFields(fields, route)
    case _ => false
  }

  ghost predicate RouteInFields(fields: seq<Field>, route: seq<string>)
    decreases fields
  {
    exists i | 0 <= i < |fields| :: RouteThroughField(fields[i], route)
  }

  ghost predicate RouteThroughField(field: Field, route: seq<string>)
    decreases field
  {
    && |route| > 0
    && route[0] == field.name
    && if IsRequiredAndZero(field) then |route| == 1
       else CheckNested(field.v) && IsViolationRoute(field.v, route[1..])
  }

  /**
   * Field names as Go has them, except for blank `_` fields, which a struct
   * may repeat: non-empty, dot-free, and distinct within one struct.
   */
  predicate WellNamed(fields: seq<Field>)
  {
    && (forall i | 0 <= i < |fields| :: ValidFieldName(fields[i].name))
    && (forall i, j | 0 <= i < j < |fields| :: fields[i].name != fields[j].name)
  }

  /** `WellNamed` holds in every struct the walk can reach from `v`. */
  predicate DeepWellNamed(v: Value)
    decreases v
  {
    match v
    case Struct(fields) => FieldsDeepWellNamed(fields)
    case Ptr(Some(Struct(fields))) => FieldsDeepWellNamed(fields)
    case _ => true
  }

  predicate FieldsDeepWellNamed(fields: seq<Field>)
    decreases fields
  {
    WellNamed(fields) && forall i | 0 <= i < |fields| :: DeepWellNamed(fields[i].v)
  }

  /**
   * Every field name in every struct the walk can reach from `v` is a Go
   * identifier: non-empty and dot-free. Blank `_` fields included, this
   * always holds in Go.
   */
  predicate DeepNamed(v: Value)
    decreases v
  {
    match v
    case Struct(fields) => FieldsDeepNamed(fields)
    case Ptr(Some(Struct(fields))) => FieldsDeepNamed(fields)
    case _ => true
  }

  predicate FieldsDeepNamed(fields: seq<Field>)
    decreases fields
  {
    forall i | 0 <= i < |fields| :: ValidFieldName(fields[i].name) && DeepNamed(fields[i].v)
  }
}
