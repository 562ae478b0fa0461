/**
 * required.go: `Check` guards the argument's kind and hands it to
 * `check_internal`, which walks the struct field by field, appending the
 * path of every missing required field and splicing in what it finds
 * inside nested structs and non-nil pointers.
 */
module Required {
  import opened Reflection
  import opened FieldWalk
  import opened WalkProperties

  /**
   * `check_internal` re-enters itself through `value.Interface()`, which
   * Go refuses (with a panic) for a value read from an unexported field.
   * This holds when no field the walk descends into is unexported, and in
   * particular for every value whose fields are all exported.
   */
  predicate InterfaceSafe(v: Value): (safe: bool)
    ensures AllExported(v) ==> safe
    decreases v
  {
    match v
    case Struct(fields) => FieldsInterfaceSafe(fields)
    case Ptr(Some(Struct(fields))) => FieldsInterfaceSafe(fields)
    case _ => true
  }

  predicate FieldsInterfaceSafe(fields: seq<Field>): (safe: bool)
    ensures FieldsExported(fields) ==> safe
    decreases fields
  {
    forall i | 0 <= i < |fields| ::
      !IsRequiredAndZero(fields[i]) && CheckNested(fields[i].v) ==>
        fields[i].exported && InterfaceSafe(fields[i].v)
  }

  /** Every field of `v`, at every depth, is exported. */
  predicate AllExported(v: Value)
    decreases v
  {
    match v
    case Struct(fields) => FieldsExported(fields)
    case Ptr(Some(Struct(fields))) => FieldsExported(fields)
    case Ptr(Some(target)) => AllExported(target)
    case _ => true
  }

  predicate FieldsExported(fields: seq<Field>)
    decreases fields
  {
    forall i | 0 <= i < |fields| :: fields[i].exported && AllExported(fields[i].v)
  }

  /**
   * `Check`: the error exactly when the argument is not a struct after one
   * dereference (nil, a non-struct, a pointer to a non-struct, a nil
   * pointer); otherwise the paths of all missing required fields.
   */
  method Check(s: Option<Value>) returns (r: Result<seq<string>>)
    requires s.Some? ==> InterfaceSafe(s.value)
    ensures r.Err? <==> !IsStruct(Deref(s))
    ensures r == MissingOutcome(s)
  {
    if !IsStruct(Deref(s)) {
      return Err(ErrNotStructOrPtr);
    }
    var missing := CheckInternal(s.value, "");
    return Ok(missing);
  }

  /** `check_internal`: the walk below `parentPath`, building each field's path inline. */
  method CheckInternal(s: Value, parentPath: string) returns (missing: seq<string>)
    requires InterfaceSafe(s)
    ensures missing == Violations(s, parentPath)
    decreases s
  {
    missing := [];
    var val := Indirect(s);

    // A value that is not a struct after one dereference has no fields to test.
    if !IsStruct(val) {
      return;
    }

    var fields := val.value.fields;
    for i := 0 to |fields|
      invariant missing == FieldViolations(fields[..i], parentPath)
    {
      assert fields[..i + 1] == fields[..i] + [fields[i]];
      FieldViolationsAppend(fields[..i], [fields[i]], parentPath);
      var field := fields[i];

      var fieldPath := field.name;
      if parentPath != "" {
        fieldPath := parentPath + "." + field.name;
      }

      var requiredTag := field.requiredTag;
      if requiredTag.Some? && requiredTag.value == "true" && IsZero(field.v) {
        missing := missing + [fieldPath];
        continue;
      }

      if field.v.Struct? || (field.v.Ptr? && !IsZero(field.v)) {
        var nestedMissing := CheckInternal(field.v, fieldPath);
        missing := missing + nestedMissing;
      }
    }
    assert fields[..|fields|] == fields;
  }
}
