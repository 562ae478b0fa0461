# required — a Dafny model of the required-field walk

The Go package `required` checks struct values for fields tagged
`required:"true"` that still hold their type's zero value. It does so with
one recursive walk, written three times:

- `Check` / `check_internal` (required.go) collects the dotted paths of the
  missing fields;
- `MissingFields` / `findMissing` / `buildFieldPath` (missing.go) does the
  same with the path construction and the two field tests factored out;
- `ArePresent` / `presentInternal` (present.go) is the short-circuiting
  boolean form.

All three take an argument of type `any`. They refuse it with
`ErrNotStructOrPtr` unless it is a struct, or a pointer to one, once
`reflect.Indirect` has been applied. They then visit the fields in
declaration order:

- a field whose `required` tag is exactly `"true"` and whose value is zero is
  reported, and the walk does not look inside it;
- otherwise the walk descends into struct fields and non-nil pointer fields,
  with the field's path as the new parent path;
- every other field is skipped.

## How the model is built

- `reflection.dfy` replaces Go reflection with a finite value tree:
  - `Value` is `Struct(fields)`, `Ptr(target)` (nil or pointing at a value) or
    `Scalar(zero)`, which stands for every other kind;
  - a `Field` carries its name, the pre-parsed `required` tag, and its
    embedded and exported flags;
  - `Indirect` mirrors `reflect.Indirect`, `Deref` mirrors
    `reflect.Indirect(reflect.ValueOf(·))`, and `IsZero` mirrors
    `Value.IsZero`;
  - the untyped `nil` argument is `None`;
  - Go's `(result, error)` pair is the `Result` datatype.
- `paths.dfy`: `BuildFieldPath` and its inverse `SplitFieldPath`, plus `Join`,
  an independent definition of a dotted path.
- `field_walk.dfy` states the walk once, as functions:
  - `Violations` / `FieldViolations` / `FieldContribution` for the list form;
  - `AllPresent` for the boolean form;
  - `MissingOutcome` / `PresenceOutcome` for the public answers;
  - `IsViolationRoute`, a declarative description of which paths must be
    reported.

  `IsRequiredAndZero` and `CheckNested` are the conditions written inline at
  required.go:54-55 and required.go:61. missing.go calls helpers of those
  names whose definitions are not part of this model, and the model assumes
  they are those same conditions.
- `required.dfy`, `missing.dfy` and `present.dfy` are the three
  implementations. Each is an imperative method with the source's loop,
  `continue` and early returns. Each method is proved equal to the
  functions above, so `Check` and `MissingFields` give the same answer on
  every input `Check` accepts: both ensure `r == MissingOutcome(s)`.
- `walk_properties.dfy` proves, about those functions, the properties the
  package promises:
  - report, don't descend;
  - depth-first declaration order;
  - the agreement of the list form and the boolean form;
  - pointer-to-struct transparency;
  - no path reported twice;
  - the exact set of reported paths, both as routes through the value and,
    at the root, as those routes' names joined by dots.
- `fixtures.dfy` writes the records of the package's tests and example as
  values and proves what the walk answers for them.

Two behaviours of the code are easy to misread. The model follows the code in
both:

- **Unexported fields.** They are not skipped. `findMissing` and
  `presentInternal` test and walk them like any other field.
  `check_internal` tests them too. When it would descend into an
  unexported struct or pointer field, it panics at required.go:62.
  `Fixtures.UnexportedFieldsWalked` shows both.
- **Embedded fields.** Both path builders always use `field.Name`, so an
  embedded struct keeps its own path segment. required_test.go:226 and
  example_test.go:36 expect exactly that. missing_test.go:39, :269 and :274
  expect the embedded name to be left out ("State", "Street", "App.Name"),
  which the code does not do. `Fixtures.EmbeddedConfigPath` shows what the
  code reports for the :274 record.

## Model

| member | source | states |
|---|---|---|
| Paths.SplitBuildRoundTrip | missing.go:24-29 | cutting a built path at its last dot gives back the parent path and the (dot-free) field name |
| Paths.BuildFieldPathInjective | missing.go:24-29 | two fields of one parent get the same path only if their names are equal |
| Paths.JoinFromExtends | required.go:47-51 | descending from a non-root path keeps that path and a dot as a prefix of every deeper path |
| Paths.JoinFromIsDottedJoin | required.go:47-51 | the path built level by level is the field names joined by dots: no leading dot at the root, parent plus dot below it |
| WalkProperties.DescendsOnlyIntoStructs | required.go:60-64 | a field that is not reported contributes exactly the walk inside it under its own path, and nothing unless it is a struct or a non-nil pointer to a struct: nil pointers, scalars and pointers to non-structs add no path |
| WalkProperties.RequiredTagExact | required.go:54-55 | no tag and any tag value other than "true" never make a field missing; a required struct is missing exactly when every field of it is zero, a required pointer exactly when it is nil |
| Required.InterfaceSafe | required.go:62 | `value.Interface()` is reached only for exported fields; it holds for every value whose fields are all exported |
| FieldWalk.Violations | required.go:33-68 | every path the walk reports lies below the parent path it was started with |
| FieldWalk.FieldViolations | required.go:43-65 | every path a struct's fields contribute lies below the parent path |
| FieldWalk.FieldContribution | required.go:47-64 | every path one field contributes lies below the parent path |
| Required.Check | required.go:25-31 | error exactly when the argument is not a struct after one dereference, and then `ErrNotStructOrPtr`; otherwise the walk's paths from the root |
| Required.CheckInternal | required.go:33-68 | the loop collects exactly the walk's paths below `parentPath`, in declaration order, depth first |
| Missing.MissingFields | missing.go:13-20 | error exactly when the argument is not a struct after one dereference; otherwise the same answer as `Check`, on every input `Check` accepts |
| Missing.FindMissing | missing.go:31-60 | nothing for a value that is not a struct after one `Indirect`; otherwise exactly the walk's paths below `parentPath` |
| Present.ArePresent | present.go:18-27 | error exactly when the argument is not a struct after one dereference; otherwise whether every reachable required field is set |
| Present.PresentInternal | present.go:29-57 | true for a non-struct; false exactly when some required field that the walk reaches through struct fields and non-nil pointers is zero |
| WalkProperties.StructZeroIffFieldsZero | required.go:55 | a struct is zero exactly when each of its fields is zero |
| WalkProperties.FieldViolationsAppend | required.go:43-65 | the fields declared first contribute all their paths before any later field contributes |
| WalkProperties.DeclarationOrder | required.go:43-65 | field i contributes one block (its own path, everything inside it, or nothing), placed after the blocks of the fields before it and before those of the fields after it |
| WalkProperties.ContributionInFields | required.go:56-63 | whatever one field contributes appears in its struct's result |
| WalkProperties.ContributionOf | required.go:56-63 | every path in a struct's result comes from one of its fields |
| WalkProperties.NoViolationsIffAllPresent | present.go:29-57 | the walk reports nothing exactly when every reachable required field is set |
| WalkProperties.FieldsNoViolationsIffPresent | present.go:37-56 | a struct's fields contribute nothing exactly when each of them passes the boolean check |
| WalkProperties.PresenceAgreesWithMissing | present.go:18-27 | `ArePresent` and `Check` fail on exactly the same arguments; `ArePresent` gives true exactly when `Check` gives an empty list, and false exactly when it gives a non-empty one |
| WalkProperties.PointerToStructSameOutcome | required.go:26-30 | a pointer to a struct is answered exactly as the struct itself, and a struct argument is never refused |
| WalkProperties.FieldReportedIff | required.go:53-58 | among fields with distinct dot-free names, a field's own path is reported exactly when its tag is "true" and its value is zero; a "false" tag or no tag is never reported |
| WalkProperties.RequiredZeroNotDescended | required.go:55-57 | a required zero field is reported, and no reported path continues below it |
| WalkProperties.OwnPathContributor | required.go:53-64 | a field's own path can only come from that field itself, reported because it is required and zero |
| WalkProperties.DescendedContributor | required.go:53-64 | a path below a field's path can only come from that field, walked into because it is not required-and-zero |
| WalkProperties.ViolationsNoDup | required.go:43-65 | with distinct field names at every level, no path is reported twice |
| WalkProperties.FieldViolationsNoDup | required.go:43-65 | the same, for the paths a struct's fields contribute |
| WalkProperties.HeadBlockExclusive | required.go:47-64 | two fields whose blocks share a path have the same name |
| WalkProperties.RouteReported | required.go:43-65 | every chain of descended fields that ends at a required zero field is reported, as the path its names spell |
| WalkProperties.RouteReportedInFields | required.go:43-65 | the same, for a chain that starts at one of a struct's fields |
| WalkProperties.RouteOfViolation | required.go:43-65 | every reported path is spelled by such a chain |
| WalkProperties.RouteOfFieldViolation | required.go:43-65 | the same, for the paths a struct's fields contribute |
| WalkProperties.ViolationsAreRoutes | required.go:43-65 | a path is reported if and only if some chain of descended fields ending at a required zero field spells it |
| WalkProperties.RouteNamesValid | required.go:48-51 | every name along a violation route is non-empty when every field name is |
| WalkProperties.MissingPathsAreJoinedRoutes | required.go:25-68 | a path is in the answer of `Check` exactly when it is the names of some violation route joined by dots |
| Fixtures.RequiredScalarBlock | required.go:54-57 | a required string or number field reports its own path exactly when it is unset |
| Fixtures.OptionalScalarBlock | required.go:54-64 | a scalar field without a "true" tag contributes nothing, whatever its value |
| Fixtures.NilPointerBlock | required.go:61 | an untagged nil pointer is neither reported nor followed |
| Fixtures.UnexportedFieldsWalked | missing.go:43-56 | an unexported required unset field is reported and an unexported struct field is walked into (`["secret", "inner.Name"]`, presence false); `check_internal`'s no-panic condition fails for that value |
| Fixtures.NonStructPointerBlock | required.go:61-64 | an untagged pointer that is nil or points at a non-struct contributes nothing |
| Fixtures.StreetZeroIff | required_test.go:14-19 | the fixture's `Street` (Suffix and hidden held unset) is zero exactly when neither Number nor Name is set |
| Fixtures.AddressZeroIff | required_test.go:21-27 | the fixture's `Address` (County held unset) is zero exactly when its Street is zero and City, State and Zip are unset |
| Fixtures.PersonViolations | required_test.go:29-39 | the fixture's `Person` (Work and Bar nil) reports its unset Name and Age, then Home's block, Other's block, its unset Email, then Foo's block; Alias and the nil Work and Bar contribute nothing |
| Fixtures.AddressViolations | required_test.go:21-27 | an `Address` reports whatever its Street gives, then its unset City, State and Zip, in that order |
| Fixtures.NonStructArgumentsRefused | missing_test.go:100-114 | nil, an int and a pointer to an int (the test's three cases), and also a nil pointer, are refused by both forms |
| Fixtures.EmptyPersonViolations | missing_test.go:115-119 | `Person{}` gives Name, Age, Home, Other.Street, Other.City, Other.State, Other.Zip, Email |
| Fixtures.EmptyPersonOutcomes | missing_test.go:115-124 | `Person{}` and `&Person{}` give that list, and `ArePresent` answers false for both |
| Fixtures.FullPersonComplete | missing_test.go:125-157 | every required field set at every depth, Foo pointing at an int: nothing is missing and `ArePresent` answers true |
| Fixtures.FirstLevelMissing | missing_test.go:185-207 | with both Addresses complete, only Name, Age and Email are reported |
| Fixtures.SecondLevelMissing | missing_test.go:209-231 | a non-zero Home with City, State and Zip unset gives Home.City, Home.State, Home.Zip |
| Fixtures.ThirdLevelMissing | missing_test.go:233-254 | a Home whose Street is zero gives Home.Street |
| Fixtures.EmbeddedRequiredReported | missing_test.go:256-259 | a zero embedded required Address is reported as "Address" and not walked into; `ArePresent` answers false |
| Fixtures.EmbeddedOptionalKeepsName | required_test.go:218-226 | an optional embedded Address is walked into under its own name: Address.Street, Address.Zip |
| Fixtures.PackageExample | example_test.go:9-36 | the package example reports Name and Address.State |
| Fixtures.EmbeddedConfigPath | missing_test.go:271-274 | the code reports "Config.App.Name" for `ParentConfig{}`, where this test expects "App.Name" |

## Left out

- Go reflection (`reflect.ValueOf`, `Type().Field`, `Kind`, `Interface`) is replaced by the explicit `Value` tree. Strings, numbers, slices, maps, interfaces, arrays and channels all become `Scalar`, of which only "is it zero" matters to the walk.
- Struct-tag parsing (`Tag.Lookup`) is library code. The tag is modelled as its already-parsed result, `Option<string>`.
- Cyclic pointer graphs: Go allows them, and then the walk never ends. A Dafny datatype is finite, so the model covers acyclic values only.
- Required.Check: requires that every field the walk descends into is exported. `check_internal` re-enters itself through `value.Interface()`, which Go refuses with a panic for a value read from an unexported field, and panics are not modelled. `findMissing` and `presentInternal` never call `Interface()`, so `MissingFields` and `ArePresent` carry no such requirement.
- Required.CheckInternal: the same requirement, for the same reason.
- The `isRequiredAndZero` and `checkNested` helpers that missing.go calls are not part of this model. They are taken to be the conditions written inline at required.go:54-55 and required.go:61.
- Go's distinction between a nil slice and an empty one (`want: nil` in the tests) is not modelled. Both are the empty sequence.
- The embedded-name elision expected only by missing_test.go:39, :269 and :274 is not modelled, because the code does not implement it.
- The test records set some optional fields (Street's Suffix, Address's County) that the fixtures hold unset. An optional field's value can matter: it decides whether the struct around it is zero, and so whether a required struct field is reported or walked into. Here it does not matter, because every test Street or Address that sets Suffix or County also sets a required field, so it is non-zero either way.
- WalkProperties.FieldReportedIff: requires distinct field names, so it does not cover a struct that repeats the blank field `_`. Two required zero `_` fields are both reported as "_".
- WalkProperties.RequiredZeroNotDescended: the same requirement, for the same reason.
- WalkProperties.ViolationsNoDup: the same requirement at every level. With repeated `_` fields the walk can report a path twice, so no-duplicates holds only for structs without them.
- WalkProperties.FieldViolationsNoDup: the same requirement, for the same reason.
- Required.InterfaceSafe: the contract gives a sufficient condition (every field exported). The exact condition, that only the fields the walk descends into must be exported, is its definition.
- Fixtures.AddressZeroIff: holds County unset, so it states the equivalence only for such Addresses. In the test's type, an Address whose only set field is County is non-zero. No test record sets County alone.
- Fixtures.PersonViolations: holds Work and Bar nil, as every test record does. A non-nil `Work *Address` would be walked into and contribute its own block.
