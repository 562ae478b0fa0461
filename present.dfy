/**
 * present.go: the boolean form of the walk, which stops at the first
 * missing required field it meets, at any depth.
 */
module Present {
  import opened Reflection
  import opened FieldWalk

  /**
   * `ArePresent`: the error exactly when the argument is not a struct after
   * one dereference; otherwise whether every required field reachable
   * through struct fields and non-nil pointers is set.
   */
  method ArePresent(s: Option<Value>) returns (r: Result<bool>)
    ensures r.Err? <==> !IsStruct(Deref(s))
    ensures r == PresenceOutcome(s)
  {
    if !IsStruct(Deref(s)) {
      return Err(ErrNotStructOrPtr);
    }
    var present := PresentInternal(s.value);
    return Ok(present);
  }

  /**
   * `presentInternal`: true for a value that is not a struct after one
   * dereference; otherwise false exactly when some field, at any depth the
   * walk reaches, is required and zero.
   */
  method PresentInternal(v: Value) returns (present: bool)
    ensures !IsStruct(Indirect(v)) ==> present
    ensures present == AllPresent(v)
    decreases v
  {
    var val := Indirect(v);

    // A value that is not a struct after one dereference has no fields to test.
    if !IsStruct(val) {
      return true;
    }

    var fields := val.value.fields;
    for i := 0 to |fields|
      invariant forall j | 0 <= j < i :: FieldPresent(fields[j])
    {
      var field := fields[i];

      // A required field holding its zero value ends the walk.
      var requiredTag := field.requiredTag;
      if requiredTag.Some? && requiredTag.value == "true" && IsZero(field.v) {
        assert !FieldPresent(fields[i]);
        return false;
      }

      // Descend into structs and non-nil pointers; stop at the first failure inside.
      if field.v.Struct? || (field.v.Ptr? && !IsZero(field.v)) {
        var nestedPresent := PresentInternal(field.v);
        if !nestedPresent {
          assert !FieldPresent(fields[i]);
          return false;
        }
      }
    }
    return true;
  }
}
