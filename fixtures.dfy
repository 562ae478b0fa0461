/**
 * The records of the package's own tests and examples, written as values,
 * with what the walk answers for them.
 */
module Fixtures {
  import opened Reflection
  import opened Paths
  import opened FieldWalk
  import opened WalkProperties
  import opened Required

  /** A string or number field: its zero value when `isSet` is false. */
  function Plain(isSet: bool): Value
  {
    Scalar(!isSet)
  }

  function Tagged(name: string, tag: string, v: Value): Field
  {
    Field(name, Some(tag), false, true, v)
  }

  function Untagged(name: string, v: Value): Field
  {
    Field(name, None, false, true, v)
  }

  /**
   * `Street{Number, Name, Suffix, hidden}`, `hidden` being unexported and
   * untagged. Suffix and hidden are held unset. An optional field's value
   * can decide whether the Street is zero, but every test record that sets
   * Suffix also sets Number and Name, so it is non-zero either way.
   */
  function Street(number: bool, name: bool): Value
  {
    Struct([
      Tagged("Number", "true", Plain(number)),
      Tagged("Name", "true", Plain(name)),
      Untagged("Suffix", Plain(false)),
      Field("hidden", None, false, false, Plain(false))
    ])
  }

  /**
   * `Address{Street, City, State, Zip, County}` with every tag but County's
   * "true". County is held unset; every test record that sets it also sets
   * City, State and Zip, so the Address is non-zero either way.
   */
  function Address(street: Value, city: bool, state: bool, zip: bool): Value
  {
    Struct([
      Tagged("Street", "true", street),
      Tagged("City", "true", Plain(city)),
      Tagged("State", "true", Plain(state)),
      Tagged("Zip", "true", Plain(zip)),
      Untagged("County", Plain(false))
    ])
  }

  function AddressZero(): Value
  {
    Address(Street(false, false), false, false, false)
  }

  function AddressFull(): Value
  {
    Address(Street(true, true), true, true, true)
  }

  /**
   * `Person{Name, Alias, Age, Home, Work, Other, Email, Foo, Bar}`; `Work`
   * and `Bar` are nil, `Foo` is given.
   */
  function Person(name: bool, age: bool, home: Value, other: Value, email: bool, foo: Value): Value
  {
    Struct([
      Tagged("Name", "true", Plain(name)),
      Tagged("Alias", "false", Plain(false)),
      Tagged("Age", "true", Plain(age)),
      Tagged("Home", "true", home),
      Untagged("Work", Ptr(None)),
      Untagged("Other", other),
      Tagged("Email", "true", Plain(email)),
      Untagged("Foo", foo),
      Untagged("Bar", Ptr(None))
    ])
  }

  /** The path of a required field when it is unset, nothing otherwise. */
  function IfUnset(isSet: bool, path: string): seq<string>
  {
    if isSet then [] else [path]
  }

  /** One field's block, then the blocks of the fields after it. */
  lemma FieldViolationsCons(field: Field, rest: seq<Field>, parentPath: string)
    ensures FieldViolations([field] + rest, parentPath)
         == FieldContribution(field, parentPath) + FieldViolations(rest, parentPath)
  {
    assert ([field] + rest)[1..] == rest;
  }

  /** The blocks of two fields, in order. */
  lemma TwoFields(a: Field, b: Field, p: string)
    ensures FieldViolations([a, b], p) == FieldContribution(a, p) + FieldContribution(b, p)
  {
    FieldViolationsCons(b, [], p);
    FieldViolationsCons(a, [b], p);
    assert [b] + [] == [b];
    assert [a] + [b] == [a, b];
  }

  /** The blocks of three fields, in order. */
  lemma ThreeFields(a: Field, b: Field, c: Field, p: string)
    ensures FieldViolations([a, b, c], p)
         == FieldContribution(a, p) + FieldContribution(b, p) + FieldContribution(c, p)
  {
    TwoFields(b, c, p);
    FieldViolationsCons(a, [b, c], p);
    assert [a] + [b, c] == [a, b, c];
  }

  /** The blocks of four fields, in order. */
  lemma FourFields(a: Field, b: Field, c: Field, d: Field, p: string)
    ensures FieldViolations([a, b, c, d], p)
         == FieldContribution(a, p) + FieldContribution(b, p) + FieldContribution(c, p) + FieldContribution(d, p)
  {
    ThreeFields(b, c, d, p);
    FieldViolationsCons(a, [b, c, d], p);
    assert [a] + [b, c, d] == [a, b, c, d];
  }

  /** The blocks of five fields, in order. */
  lemma FiveFields(a: Field, b: Field, c: Field, d: Field, e: Field, p: string)
    ensures FieldViolations([a, b, c, d, e], p)
         == FieldContribution(a, p) + FieldContribution(b, p) + FieldContribution(c, p)
          + FieldContribution(d, p) + FieldContribution(e, p)
  {
    FourFields(b, c, d, e, p);
    FieldViolationsCons(a, [b, c, d, e], p);
    assert [a] + [b, c, d, e] == [a, b, c, d, e];
  }

  /** The blocks of nine fields, in order. */
  lemma NineFields(a: Field, b: Field, c: Field, d: Field, e: Field, f: Field, g: Field, h: Field, k: Field, p: string)
    ensures FieldViolations([a, b, c, d, e, f, g, h, k], p)
         == FieldContribution(a, p) + FieldContribution(b, p) + FieldContribution(c, p)
          + FieldContribution(d, p) + FieldContribution(e, p) + FieldContribution(f, p)
          + FieldContribution(g, p) + FieldContribution(h, p) + FieldContribution(k, p)
  {
    FiveFields(a, b, c, d, e, p);
    FourFields(f, g, h, k, p);
    assert [a, b, c, d, e, f, g, h, k] == [a, b, c, d, e] + [f, g, h, k];
    FieldViolationsAppend([a, b, c, d, e], [f, g, h, k], p);
  }

  /** The blocks of nine fields, of which the second, fifth and ninth are empty. */
  lemma NineFieldsSkipping(a: Field, b: Field, c: Field, d: Field, e: Field, f: Field, g: Field, h: Field, k: Field, p: string)
    requires FieldContribution(b, p) == [] && FieldContribution(e, p) == [] && FieldContribution(k, p) == []
    ensures FieldViolations([a, b, c, d, e, f, g, h, k], p)
         == FieldContribution(a, p) + FieldContribution(c, p) + FieldContribution(d, p)
          + FieldContribution(f, p) + FieldContribution(g, p) + FieldContribution(h, p)
  {
    NineFields(a, b, c, d, e, f, g, h, k, p);
  }

  /** A required string or number field reports its own path exactly when it is unset. */
  lemma RequiredScalarBlock(name: string, isSet: bool, parentPath: string)
    ensures FieldContribution(Tagged(name, "true", Plain(isSet)), parentPath)
         == IfUnset(isSet, BuildFieldPath(parentPath, name))
  {
  }

  /** A string or number field without a "true" tag never contributes. */
  lemma OptionalScalarBlock(field: Field, parentPath: string)
    requires field.v.Scalar? && field.requiredTag != Some("true")
    ensures FieldContribution(field, parentPath) == []
  {
  }

  /** An untagged nil pointer is neither reported nor followed. */
  lemma NilPointerBlock(name: string, parentPath: string)
    ensures FieldContribution(Untagged(name, Ptr(None)), parentPath) == []
  {
  }

  /** A `Street` is zero exactly when neither Number nor Name is set. */
  lemma StreetZeroIff(number: bool, name: bool)
    ensures IsZero(Street(number, name)) <==> !number && !name
  {
  }

  /** An `Address` is zero exactly when its Street is zero and none of City, State, Zip is set. */
  lemma AddressZeroIff(street: Value, city: bool, state: bool, zip: bool)
    ensures IsZero(Address(street, city, state, zip)) <==> IsZero(street) && !city && !state && !zip
  {
    var fields := Address(street, city, state, zip).fields;
    StructZeroIffFieldsZero(fields);
    assert fields[0].v == street && fields[1].v == Plain(city) && fields[2].v == Plain(state);
    assert fields[3].v == Plain(zip) && fields[4].v == Plain(false);
  }

  /** A `Street` with Number and Name set has nothing missing, below any parent. */
  lemma SetStreetComplete(parentPath: string)
    ensures Violations(Street(true, true), parentPath) == []
  {
    FourFields(Tagged("Number", "true", Plain(true)), Tagged("Name", "true", Plain(true)),
      Untagged("Suffix", Plain(false)), Field("hidden", None, false, false, Plain(false)), parentPath);
    RequiredScalarBlock("Number", true, parentPath);
    RequiredScalarBlock("Name", true, parentPath);
    OptionalScalarBlock(Untagged("Suffix", Plain(false)), parentPath);
    OptionalScalarBlock(Field("hidden", None, false, false, Plain(false)), parentPath);
  }

  /** An `Address` reports its unset City, State and Zip after whatever its Street gives. */
  lemma AddressViolations(street: Value, city: bool, state: bool, zip: bool, parentPath: string)
    ensures Violations(Address(street, city, state, zip), parentPath)
         == FieldContribution(Tagged("Street", "true", street), parentPath)
          + IfUnset(city, BuildFieldPath(parentPath, "City"))
          + IfUnset(state, BuildFieldPath(parentPath, "State"))
          + IfUnset(zip, BuildFieldPath(parentPath, "Zip"))
  {
    FiveFields(Tagged("Street", "true", street), Tagged("City", "true", Plain(city)),
      Tagged("State", "true", Plain(state)), Tagged("Zip", "true", Plain(zip)),
      Untagged("County", Plain(false)), parentPath);
    RequiredScalarBlock("City", city, parentPath);
    RequiredScalarBlock("State", state, parentPath);
    RequiredScalarBlock("Zip", zip, parentPath);
    OptionalScalarBlock(Untagged("County", Plain(false)), parentPath);
  }

  /** A complete `Address` has nothing missing, below any parent. */
  lemma FullAddressComplete(parentPath: string)
    ensures Violations(AddressFull(), parentPath) == []
  {
    AddressViolations(Street(true, true), true, true, true, parentPath);
    SetStreetComplete(BuildFieldPath(parentPath, "Street"));
  }

  /** A zero `Address` walked below `parentPath` reports its four required fields. */
  lemma ZeroAddressViolations(parentPath: string)
    ensures Violations(AddressZero(), parentPath)
         == [BuildFieldPath(parentPath, "Street"), BuildFieldPath(parentPath, "City"),
             BuildFieldPath(parentPath, "State"), BuildFieldPath(parentPath, "Zip")]
  {
    AddressViolations(Street(false, false), false, false, false, parentPath);
    StreetZeroIff(false, false);
  }

  /**
   * A `Person`: its unset Name and Age, then Home's block, Other's block,
   * the unset Email, then Foo's block; Alias (tagged "false"), Work and
   * Bar (nil pointers) never contribute.
   */
  lemma PersonViolations(name: bool, age: bool, home: Value, other: Value, email: bool, foo: Value)
    ensures Violations(Person(name, age, home, other, email, foo), "")
         == IfUnset(name, "Name") + IfUnset(age, "Age")
          + FieldContribution(Tagged("Home", "true", home), "")
          + FieldContribution(Untagged("Other", other), "")
          + IfUnset(email, "Email")
          + FieldContribution(Untagged("Foo", foo), "")
  {
    OptionalScalarBlock(Tagged("Alias", "false", Plain(false)), "");
    NilPointerBlock("Work", "");
    NilPointerBlock("Bar", "");
    NineFieldsSkipping(Tagged("Name", "true", Plain(name)), Tagged("Alias", "false", Plain(false)),
      Tagged("Age", "true", Plain(age)), Tagged("Home", "true", home), Untagged("Work", Ptr(None)),
      Untagged("Other", other), Tagged("Email", "true", Plain(email)), Untagged("Foo", foo),
      Untagged("Bar", Ptr(None)), "");
    RequiredScalarBlock("Name", name, "");
    RequiredScalarBlock("Age", age, "");
    RequiredScalarBlock("Email", email, "");
    assert BuildFieldPath("", "Name") == "Name";
    assert BuildFieldPath("", "Age") == "Age";
    assert BuildFieldPath("", "Email") == "Email";
  }

  /** nil, an int and a pointer to an int, and also a nil `*Person`, are all refused by both forms. */
  lemma NonStructArgumentsRefused()
    ensures MissingOutcome(None) == Err(ErrNotStructOrPtr)
    ensures MissingOutcome(Some(Plain(true))) == Err(ErrNotStructOrPtr)
    ensures MissingOutcome(Some(Ptr(Some(Plain(true))))) == Err(ErrNotStructOrPtr)
    ensures MissingOutcome(Some(Ptr(None))) == Err(ErrNotStructOrPtr)
    ensures PresenceOutcome(None) == Err(ErrNotStructOrPtr)
    ensures PresenceOutcome(Some(Plain(true))) == Err(ErrNotStructOrPtr)
    ensures PresenceOutcome(Some(Ptr(Some(Plain(true))))) == Err(ErrNotStructOrPtr)
    ensures PresenceOutcome(Some(Ptr(None))) == Err(ErrNotStructOrPtr)
  {
  }

  /** The zero `Address` in `Home`, a required field, is reported by its own name. */
  lemma ZeroHomeReported()
    ensures FieldContribution(Tagged("Home", "true", AddressZero()), "") == ["Home"]
  {
    StreetZeroIff(false, false);
    AddressZeroIff(Street(false, false), false, false, false);
  }

  /** The zero `Address` in `Other`, an optional field, is walked into. */
  lemma ZeroOtherWalked()
    ensures FieldContribution(Untagged("Other", AddressZero()), "")
         == ["Other.Street", "Other.City", "Other.State", "Other.Zip"]
  {
    assert "Other" + "." + "Street" == "Other.Street";
    assert "Other" + "." + "City" == "Other.City";
    assert "Other" + "." + "State" == "Other.State";
    assert "Other" + "." + "Zip" == "Other.Zip";
    ZeroAddressViolations("Other");
  }

  /** A field holding a complete `Address` contributes nothing, whether it is required (`Home`) or not (`Other`). */
  lemma FullAddressBlock(field: Field, parentPath: string)
    requires field.v == AddressFull()
    ensures FieldContribution(field, parentPath) == []
  {
    StreetZeroIff(true, true);
    AddressZeroIff(Street(true, true), true, true, true);
    FullAddressComplete(BuildFieldPath(parentPath, field.name));
  }

  /**
   * `Person{}`: Name, Age and Email are reported, the required zero `Home`
   * is reported once, the optional zero `Other` is walked into.
   */
  lemma EmptyPersonViolations()
    ensures Violations(Person(false, false, AddressZero(), AddressZero(), false, Ptr(None)), "")
         == ["Name", "Age", "Home", "Other.Street", "Other.City", "Other.State", "Other.Zip", "Email"]
  {
    var report := ["Name", "Age", "Home", "Other.Street", "Other.City", "Other.State", "Other.Zip", "Email"];
    assert ["Name"] + ["Age"] + ["Home"] + ["Other.Street", "Other.City", "Other.State", "Other.Zip"] + ["Email"] + [] == report;
    PersonViolations(false, false, AddressZero(), AddressZero(), false, Ptr(None));
    assert IfUnset(false, "Name") == ["Name"];
    assert IfUnset(false, "Age") == ["Age"];
    assert IfUnset(false, "Email") == ["Email"];
    ZeroHomeReported();
    ZeroOtherWalked();
    NilPointerBlock("Foo", "");
  }

  /** `Person{}` and `&Person{}` give the same list, and `ArePresent` answers false for both. */
  lemma EmptyPersonOutcomes()
    ensures MissingOutcome(Some(Person(false, false, AddressZero(), AddressZero(), false, Ptr(None))))
         == Ok(["Name", "Age", "Home", "Other.Street", "Other.City", "Other.State", "Other.Zip", "Email"])
    ensures MissingOutcome(Some(Ptr(Some(Person(false, false, AddressZero(), AddressZero(), false, Ptr(None))))))
         == Ok(["Name", "Age", "Home", "Other.Street", "Other.City", "Other.State", "Other.Zip", "Email"])
    ensures PresenceOutcome(Some(Person(false, false, AddressZero(), AddressZero(), false, Ptr(None)))) == Ok(false)
    ensures PresenceOutcome(Some(Ptr(Some(Person(false, false, AddressZero(), AddressZero(), false, Ptr(None)))))) == Ok(false)
  {
    var person := Person(false, false, AddressZero(), AddressZero(), false, Ptr(None));
    EmptyPersonViolations();
    PointerToStructSameOutcome(person.fields);
    PresenceAgreesWithMissing(Some(person));
  }

  /**
   * Unexported fields are neither skipped nor hidden: a required unset
   * `secret` is reported, and an unexported struct `inner` is walked into.
   * `check_internal` would panic on this value, since it descends into
   * `inner`; `MissingFields` and `ArePresent` answer.
   */
  lemma UnexportedFieldsWalked()
    ensures MissingOutcome(Some(Struct([
        Field("secret", Some("true"), false, false, Scalar(true)),
        Field("inner", None, false, false, Struct([Tagged("Name", "true", Plain(false))]))
      ]))) == Ok(["secret", "inner.Name"])
    ensures PresenceOutcome(Some(Struct([
        Field("secret", Some("true"), false, false, Scalar(true)),
        Field("inner", None, false, false, Struct([Tagged("Name", "true", Plain(false))]))
      ]))) == Ok(false)
    ensures !InterfaceSafe(Struct([
        Field("secret", Some("true"), false, false, Scalar(true)),
        Field("inner", None, false, false, Struct([Tagged("Name", "true", Plain(false))]))
      ]))
  {
    var secret := Field("secret", Some("true"), false, false, Scalar(true));
    var name := Tagged("Name", "true", Plain(false));
    var inner := Field("inner", None, false, false, Struct([name]));
    assert BuildFieldPath("inner", "Name") == "inner.Name";
    assert FieldViolations([name], "inner") == ["inner.Name"] by {
      assert [name][1..] == [];
    }
    assert FieldContribution(inner, "") == ["inner.Name"];
    assert FieldViolations([inner], "") == ["inner.Name"] by {
      assert [inner][1..] == [];
    }
    assert FieldViolations([secret, inner], "") == ["secret", "inner.Name"] by {
      assert [secret, inner][1..] == [inner];
    }
    assert !FieldsInterfaceSafe([secret, inner]) by {
      assert [secret, inner][1] == inner;
    }
  }

  /** An untagged pointer that is nil or points at a non-struct contributes nothing. */
  lemma NonStructPointerBlock(name: string, target: Option<Value>, parentPath: string)
    requires target.Some? ==> !target.value.Struct?
    ensures FieldContribution(Untagged(name, Ptr(target)), parentPath) == []
  {
  }

  /**
   * Both Addresses complete: exactly the unset ones among Name, Age and
   * Email are reported, whether `Foo` is nil or points at a non-struct.
   */
  lemma CompleteAddressesViolations(name: bool, age: bool, email: bool, foo: Option<Value>)
    requires foo.Some? ==> !foo.value.Struct?
    ensures Violations(Person(name, age, AddressFull(), AddressFull(), email, Ptr(foo)), "")
         == IfUnset(name, "Name") + IfUnset(age, "Age") + IfUnset(email, "Email")
  {
    var rest := IfUnset(name, "Name") + IfUnset(age, "Age");
    assert rest + [] + [] + IfUnset(email, "Email") + [] == rest + IfUnset(email, "Email");
    PersonViolations(name, age, AddressFull(), AddressFull(), email, Ptr(foo));
    FullAddressBlock(Tagged("Home", "true", AddressFull()), "");
    FullAddressBlock(Untagged("Other", AddressFull()), "");
    NonStructPointerBlock("Foo", foo, "");
  }

  /** Every required field set at every depth, `Foo` pointing at an int: nothing is missing, and `ArePresent` answers true. */
  lemma FullPersonComplete()
    ensures MissingOutcome(Some(Person(true, true, AddressFull(), AddressFull(), true, Ptr(Some(Plain(true)))))) == Ok([])
    ensures PresenceOutcome(Some(Person(true, true, AddressFull(), AddressFull(), true, Ptr(Some(Plain(true)))))) == Ok(true)
  {
    CompleteAddressesViolations(true, true, true, Some(Plain(true)));
    assert IfUnset(true, "Name") + IfUnset(true, "Age") + IfUnset(true, "Email") == [];
    PresenceAgreesWithMissing(Some(Person(true, true, AddressFull(), AddressFull(), true, Ptr(Some(Plain(true))))));
  }

  /** Home, Other and their Streets set but Name, Age and Email unset: only those three. */
  lemma FirstLevelMissing()
    ensures MissingOutcome(Some(Person(false, false, AddressFull(), AddressFull(), false, Ptr(None))))
         == Ok(["Name", "Age", "Email"])
  {
    assert IfUnset(false, "Name") + IfUnset(false, "Age") + IfUnset(false, "Email") == ["Name", "Age", "Email"];
    CompleteAddressesViolations(false, false, false, None);
  }

  /** A `Home` whose Street is set but City, State and Zip are not is walked into. */
  lemma PartialHomeWalked()
    ensures FieldContribution(Tagged("Home", "true", Address(Street(true, true), false, false, false)), "")
         == ["Home.City", "Home.State", "Home.Zip"]
  {
    assert Violations(Address(Street(true, true), false, false, false), "Home")
        == ["Home.City", "Home.State", "Home.Zip"] by {
      assert [] + ["Home.City"] + ["Home.State"] + ["Home.Zip"] == ["Home.City", "Home.State", "Home.Zip"];
      assert "Home" + "." + "City" == "Home.City";
      assert "Home" + "." + "State" == "Home.State";
      assert "Home" + "." + "Zip" == "Home.Zip";
      AddressViolations(Street(true, true), false, false, false, "Home");
      StreetZeroIff(true, true);
      SetStreetComplete("Home.Street");
    }
    StreetZeroIff(true, true);
    AddressZeroIff(Street(true, true), false, false, false);
  }

  /** A `Home` whose Street is zero but City, State and Zip are set: the walk reports "Home.Street". */
  lemma StreetlessHomeWalked()
    ensures FieldContribution(Tagged("Home", "true", Address(Street(false, false), true, true, true)), "")
         == ["Home.Street"]
  {
    assert ["Home.Street"] + [] + [] + [] == ["Home.Street"];
    assert "Home" + "." + "Street" == "Home.Street";
    StreetZeroIff(false, false);
    AddressZeroIff(Street(false, false), true, true, true);
    AddressViolations(Street(false, false), true, true, true, "Home");
  }

  /** A non-zero `Home` with unset City, State and Zip is walked into and its fields prefixed with "Home.". */
  lemma SecondLevelMissing()
    ensures MissingOutcome(Some(Person(true, true, Address(Street(true, true), false, false, false), AddressFull(), true, Ptr(None))))
         == Ok(["Home.City", "Home.State", "Home.Zip"])
  {
    var home := Address(Street(true, true), false, false, false);
    var report := ["Home.City", "Home.State", "Home.Zip"];
    assert [] + [] + report + [] + [] + [] == report;
    PartialHomeWalked();
    PersonViolations(true, true, home, AddressFull(), true, Ptr(None));
    assert IfUnset(true, "Name") == [] && IfUnset(true, "Age") == [] && IfUnset(true, "Email") == [];
    FullAddressBlock(Untagged("Other", AddressFull()), "");
    NilPointerBlock("Foo", "");
  }

  /** A `Home` whose Street is zero: the walk goes two levels down and reports "Home.Street". */
  lemma ThirdLevelMissing()
    ensures MissingOutcome(Some(Person(true, true, Address(Street(false, false), true, true, true), AddressFull(), true, Ptr(None))))
         == Ok(["Home.Street"])
  {
    var home := Address(Street(false, false), true, true, true);
    var report := ["Home.Street"];
    assert [] + [] + report + [] + [] + [] == report;
    StreetlessHomeWalked();
    PersonViolations(true, true, home, AddressFull(), true, Ptr(None));
    assert IfUnset(true, "Name") == [] && IfUnset(true, "Age") == [] && IfUnset(true, "Email") == [];
    FullAddressBlock(Untagged("Other", AddressFull()), "");
    NilPointerBlock("Foo", "");
  }

  /** `EmbeddedRequired{}`: the zero embedded `Address` is reported by its own name, not walked into; `ArePresent` answers false. */
  lemma EmbeddedRequiredReported()
    ensures MissingOutcome(Some(Struct([
              Tagged("Name", "true", Plain(false)),
              Field("Address", Some("true"), true, true, AddressZero())
            ])))
         == Ok(["Name", "Address"])
    ensures PresenceOutcome(Some(Struct([
              Tagged("Name", "true", Plain(false)),
              Field("Address", Some("true"), true, true, AddressZero())
            ])))
         == Ok(false)
  {
    var name := Tagged("Name", "true", Plain(false));
    var address := Field("Address", Some("true"), true, true, AddressZero());
    assert FieldContribution(address, "") == ["Address"] by {
      StreetZeroIff(false, false);
      AddressZeroIff(Street(false, false), false, false, false);
    }
    RequiredScalarBlock("Name", false, "");
    assert FieldContribution(name, "") == ["Name"];
    TwoFields(name, address, "");
    assert FieldViolations([name, address], "") == ["Name", "Address"];
    PresenceAgreesWithMissing(Some(Struct([name, address])));
  }

  /** `Address{City, State}` walked below "Address": the zero Street and the unset Zip. */
  lemma AddressWithoutStreetAndZip()
    ensures Violations(Address(Street(false, false), true, true, false), "Address")
         == ["Address.Street", "Address.Zip"]
  {
    assert ["Address.Street"] + [] + [] + ["Address.Zip"] == ["Address.Street", "Address.Zip"];
    assert "Address" + "." + "Street" == "Address.Street";
    assert "Address" + "." + "Zip" == "Address.Zip";
    AddressViolations(Street(false, false), true, true, false, "Address");
    StreetZeroIff(false, false);
  }

  /**
   * `EmbeddedOptional{Address: {City, State}}`: the embedded field is walked
   * into, and its name is kept as a path segment.
   */
  lemma EmbeddedOptionalKeepsName()
    ensures MissingOutcome(Some(Struct([
              Untagged("Name", Plain(false)),
              Field("Address", None, true, true, Address(Street(false, false), true, true, false))
            ])))
         == Ok(["Address.Street", "Address.Zip"])
  {
    var name := Untagged("Name", Plain(false));
    var inner := Address(Street(false, false), true, true, false);
    var address := Field("Address", None, true, true, inner);
    AddressWithoutStreetAndZip();
    assert FieldContribution(address, "") == ["Address.Street", "Address.Zip"] by {
      AddressZeroIff(Street(false, false), true, true, false);
    }
    OptionalScalarBlock(name, "");
    TwoFields(name, address, "");
    assert FieldViolations([name, address], "") == ["Address.Street", "Address.Zip"];
  }

  /**
   * The package example: `Person{}` with an embedded `Address` whose State
   * is required gives "Name" and "Address.State".
   */
  lemma PackageExample()
    ensures MissingOutcome(Some(Struct([
              Tagged("Name", "true", Plain(false)),
              Tagged("Alias", "false", Plain(false)),
              Untagged("Age", Plain(false)),
              Field("Address", None, true, true, Struct([
                Untagged("City", Plain(false)),
                Tagged("State", "true", Plain(false)),
                Untagged("Zip", Plain(false))
              ]))
            ])))
         == Ok(["Name", "Address.State"])
  {
    var city := Untagged("City", Plain(false));
    var state := Tagged("State", "true", Plain(false));
    var zip := Untagged("Zip", Plain(false));
    var name := Tagged("Name", "true", Plain(false));
    var alias := Tagged("Alias", "false", Plain(false));
    var age := Untagged("Age", Plain(false));
    var address := Field("Address", None, true, true, Struct([city, state, zip]));
    assert FieldViolations([city, state, zip], "Address") == ["Address.State"] by {
      assert "Address" + "." + "State" == "Address.State";
      OptionalScalarBlock(city, "Address");
      RequiredScalarBlock("State", false, "Address");
      OptionalScalarBlock(zip, "Address");
      ThreeFields(city, state, zip, "Address");
    }
    assert FieldContribution(address, "") == ["Address.State"];
    RequiredScalarBlock("Name", false, "");
    assert FieldContribution(name, "") == ["Name"];
    OptionalScalarBlock(alias, "");
    OptionalScalarBlock(age, "");
    FourFields(name, alias, age, address, "");
    assert FieldViolations([name, alias, age, address], "") == ["Name", "Address.State"];
  }

  /**
   * `ParentConfig{}` embedding `Config`, which holds `App AppConfig` with a
   * required `Name`: the embedded `Config` keeps its segment.
   */
  lemma EmbeddedConfigPath()
    ensures MissingOutcome(Some(Struct([
              Field("Config", None, true, true, Struct([
                Untagged("App", Struct([Tagged("Name", "true", Plain(false))]))
              ]))
            ])))
         == Ok(["Config.App.Name"])
  {
    var name := Tagged("Name", "true", Plain(false));
    var app := Untagged("App", Struct([name]));
    var config := Field("Config", None, true, true, Struct([app]));
    assert "Config" + "." + "App" == "Config.App";
    assert "Config.App" + "." + "Name" == "Config.App.Name";
    assert FieldContribution(name, "Config.App") == ["Config.App.Name"];
    assert FieldViolations([name], "Config.App") == ["Config.App.Name"];
    assert FieldContribution(app, "Config") == ["Config.App.Name"];
    assert FieldViolations([app], "Config") == ["Config.App.Name"];
    assert FieldContribution(config, "") == ["Config.App.Name"];
  }
}
