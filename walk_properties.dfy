/**
 * What the package promises about its walk, proved once about the shared
 * definitions in `FieldWalk` (and so about `Check`, `MissingFields` and
 * `ArePresent`, which are proved equal to them).
 */
module WalkProperties {
  import opened Reflection
  import opened Paths
  import opened FieldWalk

  /** A struct is zero exactly when every one of its fields is. */
  lemma {:induction false} StructZeroIffFieldsZero(fields: seq<Field>)
    ensures IsZero(Struct(fields)) <==> forall i | 0 <= i < |fields| :: IsZero(fields[i].v)
    decreases |fields|
  {
    if fields != [] {
      StructZeroIffFieldsZero(fields[1..]);
      assert forall i | 1 <= i < |fields| :: fields[i] == fields[1..][i - 1];
    }
  }

  // ---- Declaration order ----------------------------------------------

  /** The fields of `front` contribute, in full, before any field of `back`. */
  lemma {:induction false} FieldViolationsAppend(front: seq<Field>, back: seq<Field>, parentPath: string)
    ensures FieldViolations(front + back, parentPath)
         == FieldViolations(front, parentPath) + FieldViolations(back, parentPath)
    decreases |front|
  {
    if front == [] {
      assert front + back == back;
    } else {
      var all := front + back;
      var head := FieldContribution(front[0], parentPath);
      FieldViolationsAppend(front[1..], back, parentPath);
      assert all[0] == front[0];
      assert all[1..] == front[1..] + back;
      assert FieldViolations(all, parentPath) == head + FieldViolations(front[1..] + back, parentPath);
      assert FieldViolations(front, parentPath) == head + FieldViolations(front[1..], parentPath);
    }
  }

  /**
   * Depth-first declaration order: field `i` contributes one block (its
   * own path, or everything found inside it, or nothing), placed after the
   * blocks of the fields declared before it and before those declared after.
   */
  lemma DeclarationOrder(fields: seq<Field>, i: nat, parentPath: string)
    requires i < |fields|
    ensures FieldViolations(fields, parentPath)
         == FieldViolations(fields[..i], parentPath)
          + FieldContribution(fields[i], parentPath)
          + FieldViolations(fields[i + 1..], parentPath)
  {
    assert fields == fields[..i] + ([fields[i]] + fields[i + 1..]);
    FieldViolationsAppend(fields[..i], [fields[i]] + fields[i + 1..], parentPath);
    FieldViolationsAppend([fields[i]], fields[i + 1..], parentPath);
    assert FieldViolations([fields[i]], parentPath) == FieldContribution(fields[i], parentPath) by {
      assert [fields[i]][..0] == [];
    }
  }

  /** Whatever a field contributes is part of what its struct contributes. */
  lemma {:induction false} ContributionInFields(fields: seq<Field>, i: nat, parentPath: string, q: string)
    requires i < |fields| && q in FieldContribution(fields[i], parentPath)
    ensures q in FieldViolations(fields, parentPath)
    decreases i
  {
    if i > 0 {
      assert fields[1..][i - 1] == fields[i];
      ContributionInFields(fields[1..], i - 1, parentPath, q);
    }
  }

  /** Every path a struct contributes comes from one of its fields. */
  lemma {:induction false} ContributionOf(fields: seq<Field>, parentPath: string, q: string) returns (i: nat)
    requires q in FieldViolations(fields, parentPath)
    ensures i < |fields| && q in FieldContribution(fields[i], parentPath)
    decreases |fields|
  {
    if q in FieldContribution(fields[0], parentPath) {
      i := 0;
    } else {
      var k := ContributionOf(fields[1..], parentPath, q);
      assert fields[1..][k] == fields[k + 1];
      i := k + 1;
    }
  }

  // ---- Agreement of the list form and the boolean form ------------------

  /** The walk finds nothing exactly when every reachable required field is set. */
  lemma {:induction false} NoViolationsIffAllPresent(v: Value, parentPath: string)
    ensures Violations(v, parentPath) == [] <==> AllPresent(v)
    decreases v
  {
    match v
    case Struct(fields) => FieldsNoViolationsIffPresent(fields, parentPath);
    case Ptr(Some(Struct(fields))) => FieldsNoViolationsIffPresent(fields, parentPath);
    case _ =>
  }

  lemma {:induction false} FieldsNoViolationsIffPresent(fields: seq<Field>, parentPath: string)
    ensures FieldViolations(fields, parentPath) == [] <==> FieldsPresent(fields)
    decreases fields
  {
    if fields != [] {
      var field := fields[0];
      var rest := fields[1..];
      FieldsNoViolationsIffPresent(rest, parentPath);
      if !IsRequiredAndZero(field) && CheckNested(field.v) {
        NoViolationsIffAllPresent(field.v, BuildFieldPath(parentPath, field.name));
      }
      assert FieldContribution(field, parentPath) == [] <==> FieldPresent(field);
      assert FieldsPresent(fields) <==> FieldPresent(field) && FieldsPresent(rest) by {
        if FieldPresent(field) && FieldsPresent(rest) {
          forall i | 0 <= i < |fields| ensures FieldPresent(fields[i]) {
            if i > 0 {
              assert rest[i - 1] == fields[i];
            }
          }
        }
        if FieldsPresent(fields) {
          forall i | 0 <= i < |rest| ensures FieldPresent(rest[i]) {
            assert rest[i] == fields[i + 1];
          }
        }
      }
    }
  }

  /**
   * `ArePresent` and `Check` (or `MissingFields`) agree on every argument:
   * both fail on exactly the same arguments, and `ArePresent` answers true
   * exactly when the list of missing fields is empty.
   */
  lemma PresenceAgreesWithMissing(s: Option<Value>)
    ensures PresenceOutcome(s).Err? <==> MissingOutcome(s).Err?
    ensures PresenceOutcome(s) == Ok(true) <==> MissingOutcome(s) == Ok([])
    ensures PresenceOutcome(s) == Ok(false) <==> MissingOutcome(s).Ok? && MissingOutcome(s).value != []
  {
    if IsStruct(Deref(s)) {
      NoViolationsIffAllPresent(s.value, "");
    }
  }

  /** A pointer to a struct is checked exactly as the struct itself. */
  lemma PointerToStructSameOutcome(fields: seq<Field>)
    ensures MissingOutcome(Some(Ptr(Some(Struct(fields))))) == MissingOutcome(Some(Struct(fields)))
    ensures PresenceOutcome(Some(Ptr(Some(Struct(fields))))) == PresenceOutcome(Some(Struct(fields)))
    ensures MissingOutcome(Some(Struct(fields))).Ok?
  {
  }

  // ---- Report, don't descend ------------------------------------------

  /**
   * In a struct with Go's field names, a field's own path is reported
   * exactly when its `required` tag is "true" and it holds its zero value.
   */
  lemma FieldReportedIff(fields: seq<Field>, i: nat, parentPath: string)
    requires WellNamed(fields) && i < |fields|
    ensures BuildFieldPath(parentPath, fields[i].name) in FieldViolations(fields, parentPath)
        <==> IsRequiredAndZero(fields[i])
  {
    var q := BuildFieldPath(parentPath, fields[i].name);
    if IsRequiredAndZero(fields[i]) {
      ContributionInFields(fields, i, parentPath, q);
    }
    if q in FieldViolations(fields, parentPath) {
      var j := ContributionOf(fields, parentPath, q);
      OwnPathContributor(parentPath, fields[i].name, fields[j]);
      assert fields[j].name == fields[i].name;
    }
  }

  /** Only the field of that name, reporting itself, contributes a field's own path. */
  lemma OwnPathContributor(parentPath: string, name: string, other: Field)
    requires ValidFieldName(name) && ValidFieldName(other.name)
    requires BuildFieldPath(parentPath, name) in FieldContribution(other, parentPath)
    ensures other.name == name && IsRequiredAndZero(other)
  {
    if IsRequiredAndZero(other) {
      BuildFieldPathInjective(parentPath, name, other.name);
    } else {
      assert BuildFieldPath(parentPath, name) in Violations(other.v, BuildFieldPath(parentPath, other.name));
      NoSegmentBeyondName(parentPath, other.name, name);
    }
  }

  /**
   * A field that is not reported contributes exactly what the walk finds
   * inside it under its own path, and that is nothing unless the field is
   * a struct or a non-nil pointer to a struct: nil pointers, scalars and
   * pointers to non-structs add no path.
   */
  lemma DescendsOnlyIntoStructs(field: Field, parentPath: string)
    requires !IsRequiredAndZero(field)
    ensures FieldContribution(field, parentPath) == Violations(field.v, BuildFieldPath(parentPath, field.name))
    ensures FieldContribution(field, parentPath) != [] ==>
      field.v.Struct? || (field.v.Ptr? && field.v.target.Some? && field.v.target.value.Struct?)
  {
  }

  /**
   * A field that is required and zero is reported by its own path and
   * never descended into: no reported path continues below it.
   */
  lemma RequiredZeroNotDescended(fields: seq<Field>, i: nat, parentPath: string, q: string)
    requires WellNamed(fields) && i < |fields| && IsRequiredAndZero(fields[i])
    requires q in FieldViolations(fields, parentPath)
    ensures BuildFieldPath(parentPath, fields[i].name) in FieldViolations(fields, parentPath)
    ensures !Extends(q, BuildFieldPath(parentPath, fields[i].name) + ".")
  {
    ContributionInFields(fields, i, parentPath, BuildFieldPath(parentPath, fields[i].name));
    var j := ContributionOf(fields, parentPath, q);
    if Extends(q, BuildFieldPath(parentPath, fields[i].name) + ".") {
      DescendedContributor(parentPath, fields[i].name, fields[j], q);
      assert false;
    }
  }

  /** Only a field of that name that was descended into contributes a path below a field's path. */
  lemma DescendedContributor(parentPath: string, name: string, other: Field, q: string)
    requires ValidFieldName(name) && ValidFieldName(other.name)
    requires q in FieldContribution(other, parentPath)
    requires Extends(q, BuildFieldPath(parentPath, name) + ".")
    ensures other.name == name && !IsRequiredAndZero(other)
  {
    if IsRequiredAndZero(other) {
      NoSegmentBeyondName(parentPath, name, other.name);
    } else {
      assert q in Violations(other.v, BuildFieldPath(parentPath, other.name));
      SameSegment(q, parentPath, name, other.name);
    }
  }

  /** No path occurs twice in `paths`. */
  predicate NoDup(paths: seq<string>)
  {
    forall i, j | 0 <= i < j < |paths| :: paths[i] != paths[j]
  }

  lemma NoDupAppend(a: seq<string>, b: seq<string>)
    requires NoDup(a) && NoDup(b)
    requires forall q | q in a :: q !in b
    ensures NoDup(a + b)
  {
    forall i, j | 0 <= i < j < |a + b| ensures (a + b)[i] != (a + b)[j] {
      if j < |a| {
        assert a[i] != a[j];
      } else if i >= |a| {
        assert b[i - |a|] != b[j - |a|];
      } else {
        assert (a + b)[i] in a && (a + b)[j] == b[j - |a|];
      }
    }
  }

  /**
   * With distinct field names at every level, the walk reports each path
   * at most once: every field contributes one block, and no two blocks
   * share a path.
   */
  lemma {:induction false} ViolationsNoDup(v: Value, parentPath: string)
    requires DeepWellNamed(v)
    ensures NoDup(Violations(v, parentPath))
    decreases v
  {
    match v
    case Struct(fields) => FieldViolationsNoDup(fields, parentPath);
    case Ptr(Some(Struct(fields))) => FieldViolationsNoDup(fields, parentPath);
    case _ =>
  }

  lemma {:induction false} FieldViolationsNoDup(fields: seq<Field>, parentPath: string)
    requires FieldsDeepWellNamed(fields)
    ensures NoDup(FieldViolations(fields, parentPath))
    decreases fields
  {
    if fields != [] {
      var field := fields[0];
      var rest := fields[1..];
      var head := FieldContribution(field, parentPath);
      assert FieldsDeepWellNamed(rest) by {
        assert forall i | 0 <= i < |rest| :: rest[i] == fields[i + 1];
      }
      FieldViolationsNoDup(rest, parentPath);
      if !IsRequiredAndZero(field) && CheckNested(field.v) {
        assert DeepWellNamed(fields[0].v);
        ViolationsNoDup(field.v, BuildFieldPath(parentPath, field.name));
      }
      forall q | q in head ensures q !in FieldViolations(rest, parentPath) {
        if q in FieldViolations(rest, parentPath) {
          var j := ContributionOf(rest, parentPath, q);
          assert rest[j] == fields[j + 1];
          HeadBlockExclusive(parentPath, field, rest[j], q);
        }
      }
      NoDupAppend(head, FieldViolations(rest, parentPath));
    }
  }

  /** A path one field contributes comes from no other field of a different name. */
  lemma HeadBlockExclusive(parentPath: string, field: Field, other: Field, q: string)
    requires ValidFieldName(field.name) && ValidFieldName(other.name)
    requires q in FieldContribution(field, parentPath) && q in FieldContribution(other, parentPath)
    ensures field.name == other.name
  {
    var fieldPath := BuildFieldPath(parentPath, field.name);
    if IsRequiredAndZero(field) {
      OwnPathContributor(parentPath, field.name, other);
    } else {
      assert q in Violations(field.v, fieldPath);
      assert ParentPrefix(fieldPath) == fieldPath + ".";
      DescendedContributor(parentPath, field.name, other, q);
    }
  }

  /** Every violation route is reported, as the path its names spell below `parentPath`. */
  lemma {:induction false} RouteReported(v: Value, route: seq<string>, parentPath: string)
    requires IsViolationRoute(v, route)
    ensures JoinFrom(parentPath, route) in Violations(v, parentPath)
    decreases v
  {
    match v
    case Struct(fields) => RouteReportedInFields(fields, route, parentPath);
    case Ptr(Some(Struct(fields))) => RouteReportedInFields(fields, route, parentPath);
  }

  lemma {:induction false} RouteReportedInFields(fields: seq<Field>, route: seq<string>, parentPath: string)
    requires RouteInFields(fields, route)
    ensures JoinFrom(parentPath, route) in FieldViolations(fields, parentPath)
    decreases fields
  {
    var i :| 0 <= i < |fields| && RouteThroughField(fields[i], route);
    var field := fields[i];
    var fieldPath := BuildFieldPath(parentPath, field.name);
    assert JoinFrom(parentPath, route) == JoinFrom(fieldPath, route[1..]);
    if !IsRequiredAndZero(field) {
      RouteReported(field.v, route[1..], fieldPath);
    }
    ContributionInFields(fields, i, parentPath, JoinFrom(parentPath, route));
  }

  /** Every reported path is spelled by a violation route. */
  lemma {:induction false} RouteOfViolation(v: Value, parentPath: string, q: string) returns (route: seq<string>)
    requires q in Violations(v, parentPath)
    ensures IsViolationRoute(v, route) && q == JoinFrom(parentPath, route)
    decreases v
  {
    match v
    case Struct(fields) => route := RouteOfFieldViolation(fields, parentPath, q);
    case Ptr(Some(Struct(fields))) => route := RouteOfFieldViolation(fields, parentPath, q);
  }

  lemma {:induction false} RouteOfFieldViolation(fields: seq<Field>, parentPath: string, q: string) returns (route: seq<string>)
    requires q in FieldViolations(fields, parentPath)
    ensures RouteInFields(fields, route) && q == JoinFrom(parentPath, route)
    decreases fields
  {
    var i := ContributionOf(fields, parentPath, q);
    var field := fields[i];
    var fieldPath := BuildFieldPath(parentPath, field.name);
    if IsRequiredAndZero(field) {
      route := [field.name];
    } else {
      var rest := RouteOfViolation(field.v, fieldPath, q);
      route := [field.name] + rest;
      assert route[1..] == rest;
    }
    assert RouteThroughField(fields[i], route);
  }

  /**
   * The walk reports exactly the paths of the violation routes: `q` is
   * reported below `parentPath` if and only if some chain of descended
   * fields ends at a required zero field and spells `q`.
   */
  lemma ViolationsAreRoutes(v: Value, parentPath: string, q: string)
    ensures q in Violations(v, parentPath)
        <==> exists route :: IsViolationRoute(v, route) && q == JoinFrom(parentPath, route)
  {
    if q in Violations(v, parentPath) {
      var route := RouteOfViolation(v, parentPath, q);
    }
    if exists route :: IsViolationRoute(v, route) && q == JoinFrom(parentPath, route) {
      var route :| IsViolationRoute(v, route) && q == JoinFrom(parentPath, route);
      RouteReported(v, route, parentPath);
    }
  }

  /** Every name along a violation route is a Go identifier, when every field name is. */
  lemma {:induction false} RouteNamesValid(v: Value, route: seq<string>)
    requires DeepNamed(v) && IsViolationRoute(v, route)
    ensures forall k | 0 <= k < |route| :: route[k] != ""
    decreases v
  {
    match v
    case Struct(fields) => RouteInFieldsNamesValid(fields, route);
    case Ptr(Some(Struct(fields))) => RouteInFieldsNamesValid(fields, route);
  }

  lemma {:induction false} RouteInFieldsNamesValid(fields: seq<Field>, route: seq<string>)
    requires FieldsDeepNamed(fields) && RouteInFields(fields, route)
    ensures forall k | 0 <= k < |route| :: route[k] != ""
    decreases fields
  {
    var i :| 0 <= i < |fields| && RouteThroughField(fields[i], route);
    assert route[0] == fields[i].name;
    if !IsRequiredAndZero(fields[i]) {
      RouteNamesValid(fields[i].v, route[1..]);
      assert forall k | 1 <= k < |route| :: route[k] == route[1..][k - 1];
    }
  }

  /**
   * The answer of `Check` and `MissingFields`, stated without the walk: a
   * path is in the list exactly when it is the dot-join of the names along
   * some chain of descended fields that ends at a required zero field.
   */
  lemma MissingPathsAreJoinedRoutes(s: Option<Value>, q: string)
    requires MissingOutcome(s).Ok? && DeepNamed(s.value)
    ensures q in MissingOutcome(s).value <==> exists route :: IsViolationRoute(s.value, route) && q == Join(route)
  {
    var v := s.value;
    ViolationsAreRoutes(v, "", q);
    if q in MissingOutcome(s).value {
      var route :| IsViolationRoute(v, route) && q == JoinFrom("", route);
      RouteNamesValid(v, route);
      JoinFromIsDottedJoin("", route);
    }
    if exists route :: IsViolationRoute(v, route) && q == Join(route) {
      var route :| IsViolationRoute(v, route) && q == Join(route);
      RouteNamesValid(v, route);
      JoinFromIsDottedJoin("", route);
    }
  }

  /**
   * `isRequiredAndZero`: only the tag value "true" makes a field required,
   * and a required struct is missing exactly when each of its fields is
   * zero, a required pointer exactly when it is nil.
   */
  lemma RequiredTagExact(field: Field)
    ensures field.requiredTag.None? ==> !IsRequiredAndZero(field)
    ensures field.requiredTag.Some? && field.requiredTag.value != "true" ==> !IsRequiredAndZero(field)
    ensures field.requiredTag == Some("true") && field.v.Struct? ==>
      (IsRequiredAndZero(field) <==> forall i | 0 <= i < |field.v.fields| :: IsZero(field.v.fields[i].v))
    ensures field.requiredTag == Some("true") && field.v.Ptr? ==>
      (IsRequiredAndZero(field) <==> field.v.target.None?)
  {
    if field.v.Struct? {
      StructZeroIffFieldsZero(field.v.fields);
    }
  }
}
