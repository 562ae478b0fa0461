/**
 * missing.go: the same walk as required.go with the path construction
 * and the two field tests factored out. Unlike `check_internal`,
 * `findMissing` passes the field's `reflect.Value` straight down and never
 * calls `Interface()`, so it asks nothing of field visibility.
 */
module Missing {
  import opened Reflection
  import opened Paths
  import opened FieldWalk
  import opened WalkProperties

  /**
   * `MissingFields`: the error exactly when the argument is not a struct
   * after one dereference; otherwise the same paths `Check` reports.
   */
  method MissingFields(input: Option<Value>) returns (r: Result<seq<string>>)
    ensures r.Err? <==> !IsStruct(Deref(input))
    ensures r == MissingOutcome(input)
  {
    var inputValue := Deref(input);
    if !IsStruct(inputValue) {
      return Err(ErrNotStructOrPtr);
    }
    var missingFields := FindMissing(inputValue.value, "");
    return Ok(missingFields);
  }

  /**
   * `findMissing`: the walk below `parentPath`; nothing at all for a value
   * that is not a struct after one dereference.
   */
  method FindMissing(inputValue: Value, parentPath: string) returns (missingFields: seq<string>)
    ensures !IsStruct(Indirect(inputValue)) ==> missingFields == []
    ensures missingFields == Violations(inputValue, parentPath)
    decreases inputValue
  {
    missingFields := [];
    var derefValue := Indirect(inputValue);

    // A value that is not a struct after one dereference has no fields to test.
    if !IsStruct(derefValue) {
      return;
    }

    var fields := derefValue.value.fields;
    for i := 0 to |fields|
      invariant missingFields == FieldViolations(fields[..i], parentPath)
    {
      assert fields[..i + 1] == fields[..i] + [fields[i]];
      FieldViolationsAppend(fields[..i], [fields[i]], parentPath);
      var field := fields[i];
      var fieldPath := BuildFieldPath(parentPath, field.name);

      if IsRequiredAndZero(field) {
        missingFields := missingFields + [fieldPath];
        continue;
      }

      if CheckNested(field.v) {
        var nestedMissing := FindMissing(field.v, fieldPath);
        missingFields := missingFields + nestedMissing;
      }
    }
    assert fields[..|fields|] == fields;
  }
}
