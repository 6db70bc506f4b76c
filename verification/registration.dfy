/** The form-filling rules and the validation-error check of the
    registration page object. Filling an input is recorded as a `FillAction`
    instead of being performed, so a fill routine returns the sequence of
    actions it would issue, in order. */
module Registration {
  import opened Wrappers
  import opened Text
  import opened Helpers
  import opened Filtering

  /** The inputs of the registration form, in the order the full fill
      visits them. */
  datatype Field =
    | FirstName | LastName | Address | City | State | ZipCode
    | Phone | Ssn | Username | Password | ConfirmPassword

  /** One `locator.fill(value)` call. */
  datatype FillAction = Fill(field: Field, value: string)

  /** Position of a field in the full fill order. */
  function Rank(f: Field): nat {
    match f
    case FirstName => 0
    case LastName => 1
    case Address => 2
    case City => 3
    case State => 4
    case ZipCode => 5
    case Phone => 6
    case Ssn => 7
    case Username => 8
    case Password => 9
    case ConfirmPassword => 10
  }

  /** The value a field is filled with: the matching user property, and
      the password again for the confirmation input. */
  function Value(u: UserRecord, f: Field): string {
    match f
    case FirstName => u.firstName
    case LastName => u.lastName
    case Address => u.address
    case City => u.city
    case State => u.state
    case ZipCode => u.zipCode
    case Phone => u.phone
    case Ssn => u.ssn
    case Username => u.username
    case Password => u.password
    case ConfirmPassword => u.password
  }

  /** The key of a field in the partial fill's field map. The confirmation
      input has no key: it is handled after the map. */
  function Key(f: Field): string
    requires f != ConfirmPassword
  {
    match f
    case FirstName => "firstName"
    case LastName => "lastName"
    case Address => "address"
    case City => "city"
    case State => "state"
    case ZipCode => "zipCode"
    case Phone => "phone"
    case Ssn => "ssn"
    case Username => "username"
    case Password => "password"
  }

  /** The field at a position of the full fill order; positions 0 to 9
      are also the entries of the partial fill's field map, in insertion
      order. */
  function FieldAt(i: nat): (f: Field)
    requires i < 11
    ensures Rank(f) == i
  {
    [FirstName, LastName, Address, City, State, ZipCode, Phone, Ssn, Username, Password, ConfirmPassword][i]
  }

  /** The names an exclusion can refer to. */
  const MappedKeys: set<string> :=
    {"firstName", "lastName", "address", "city", "state", "zipCode", "phone", "ssn", "username", "password"}

  // ---------------------------------------------------------------------
  // Full fill

  /** `fillRegistrationForm`: eleven fills, one per input in form order,
      each with its property value, the confirmation with the password. */
  function FillRegistrationForm(u: UserRecord): (fills: seq<FillAction>)
    ensures |fills| == 11
    ensures forall k :: 0 <= k < 11 ==> Rank(fills[k].field) == k
    ensures forall k :: 0 <= k < 11 ==> fills[k].value == Value(u, fills[k].field)
    ensures forall f :: fills[Rank(f)] == Fill(f, Value(u, f))
    ensures fills[10] == Fill(ConfirmPassword, u.password)
  {
    [Fill(FirstName, u.firstName),
     Fill(LastName, u.lastName),
     Fill(Address, u.address),
     Fill(City, u.city),
     Fill(State, u.state),
     Fill(ZipCode, u.zipCode),
     Fill(Phone, u.phone),
     Fill(Ssn, u.ssn),
     Fill(Username, u.username),
     Fill(Password, u.password),
     Fill(ConfirmPassword, u.password)]
  }

  // ---------------------------------------------------------------------
  // Partial fill

  /** The rule as the loop states it: a mapped field is filled when its key
      is not the excluded name and its value is truthy; the confirmation
      when the excluded name is not "password" and the password is truthy. */
  predicate Filled(u: UserRecord, exclude: Option<string>, f: Field) {
    if f == ConfirmPassword then exclude != Some("password") && u.password != []
    else exclude != Some(Key(f)) && Value(u, f) != []
  }

  /** The field of the map whose key is `name`, if any. */
  function FieldNamed(name: string): (r: Option<Field>)
    ensures r.Some? ==> r.value != ConfirmPassword && Key(r.value) == name
  {
    if name == "firstName" then Some(FirstName)
    else if name == "lastName" then Some(LastName)
    else if name == "address" then Some(Address)
    else if name == "city" then Some(City)
    else if name == "state" then Some(State)
    else if name == "zipCode" then Some(ZipCode)
    else if name == "phone" then Some(Phone)
    else if name == "ssn" then Some(Ssn)
    else if name == "username" then Some(Username)
    else if name == "password" then Some(Password)
    else None
  }

  /** Looking up a field's own key finds that field, so keys are distinct. */
  lemma FieldNamedKey(f: Field)
    requires f != ConfirmPassword
    ensures FieldNamed(Key(f)) == Some(f)
  {
  }

  /** A name outside the map's keys names no field. */
  lemma FieldNamedOutsideKeys(name: string)
    requires name !in MappedKeys
    ensures FieldNamed(name) == None
  {
  }

  /** The field an exclusion names; `None` when it names no field. */
  function ExcludedField(exclude: Option<string>): Option<Field> {
    if exclude.Some? then FieldNamed(exclude.value) else None
  }

  /** `Filled` at the level of fields: a field is filled when its value is
      non-empty and neither it nor, for the confirmation, the password is
      the excluded field. */
  predicate Selected(u: UserRecord, ex: Option<Field>, f: Field) {
    Value(u, f) != [] && ex != Some(if f == ConfirmPassword then Password else f)
  }

  /** The field-level rule agrees with the key comparison of the loop. */
  lemma FilledIffSelected(u: UserRecord, exclude: Option<string>, f: Field)
    ensures Filled(u, exclude, f) <==> Selected(u, ExcludedField(exclude), f)
  {
    var g := if f == ConfirmPassword then Password else f;
    FieldNamedKey(g);
    if exclude.Some? && FieldNamed(exclude.value).Some? {
      FieldNamedKey(FieldNamed(exclude.value).value);
    }
  }

  /** The selection rule as a filter on fills. */
  function Selection(u: UserRecord, ex: Option<Field>): FillAction -> bool {
    (x: FillAction) => Selected(u, ex, x.field)
  }

  /** The loop over the field map from entry `i` on issues the full fill's
      entries `i` to 9, restricted to the selected fields. */
  function FillMapped(u: UserRecord, ex: Option<Field>, i: nat): (fills: seq<FillAction>)
    requires i <= 10
    ensures fills == Filter(FillRegistrationForm(u)[i..10], Selection(u, ex))
    decreases 10 - i
  {
    if i == 10 then []
    else
      var f := FieldAt(i);
      var rest := FillMapped(u, ex, i + 1);
      var full := FillRegistrationForm(u);
      assert full[i] == Fill(f, Value(u, f));
      assert full[i..10] == [full[i]] + full[i + 1..10];
      if Selected(u, ex, f) then [Fill(f, Value(u, f))] + rest else rest
  }

  /** `fillPartialRegistrationForm(userData, excludeField)`; `None` is the
      default `null`. The fills issued are the full fill's, in the same
      order, restricted to the fields the exclusion and the truthiness rule
      select. */
  function FillPartialRegistrationForm(u: UserRecord, exclude: Option<string>): (fills: seq<FillAction>)
    ensures fills == Filter(FillRegistrationForm(u), Selection(u, ExcludedField(exclude)))
  {
    var ex := ExcludedField(exclude);
    var mapped := FillMapped(u, ex, 0);
    var confirm := if Selected(u, ex, ConfirmPassword) then [Fill(ConfirmPassword, u.password)] else [];
    var full := FillRegistrationForm(u);
    assert full == full[0..10] + [full[10]];
    FilterAppend(full[0..10], [full[10]], Selection(u, ex));
    mapped + confirm
  }

  /** A field is filled, with its value, exactly when the loop's rule
      selects it; a filled field is never empty and never the excluded one. */
  lemma PartialFillsExactlyFilled(u: UserRecord, exclude: Option<string>, f: Field)
    ensures Fill(f, Value(u, f)) in FillPartialRegistrationForm(u, exclude) <==> Filled(u, exclude, f)
    ensures Filled(u, exclude, f) ==>
      Value(u, f) != [] && exclude != Some(if f == ConfirmPassword then "password" else Key(f))
  {
    FilledIffSelected(u, exclude, f);
    FilterMembers(FillRegistrationForm(u), Selection(u, ExcludedField(exclude)), Fill(f, Value(u, f)));
    FullFillLists(u, f);
  }

  /** Every fill issued carries its field's value, which is non-empty;
      with `PartialFillsExactlyFilled` its field is one the rule selects. */
  lemma PartialFillsCarryValues(u: UserRecord, exclude: Option<string>)
    ensures forall x :: x in FillPartialRegistrationForm(u, exclude) ==>
      x == Fill(x.field, Value(u, x.field)) && x.value != []
  {
    var full := FillRegistrationForm(u);
    forall x | x in FillPartialRegistrationForm(u, exclude)
      ensures x == Fill(x.field, Value(u, x.field)) && x.value != []
    {
      FilterMembers(full, Selection(u, ExcludedField(exclude)), x);
      var k :| 0 <= k < |full| && full[k] == x;
    }
  }

  /** The confirmation input is filled, with the password, exactly when the
      password is not the excluded field and is non-empty. */
  lemma ConfirmationFilledIff(u: UserRecord, exclude: Option<string>)
    ensures Fill(ConfirmPassword, u.password) in FillPartialRegistrationForm(u, exclude)
      <==> exclude != Some("password") && u.password != []
  {
    PartialFillsExactlyFilled(u, exclude, ConfirmPassword);
  }

  predicate AllValuesPresent(u: UserRecord) {
    forall f :: Value(u, f) != []
  }

  /** The full fill lists every field with its value. */
  lemma FullFillLists(u: UserRecord, f: Field)
    ensures Fill(f, Value(u, f)) in FillRegistrationForm(u)
  {
    var q := FillRegistrationForm(u);
    assert q[Rank(f)] == Fill(f, Value(u, f));
  }

  /** With no exclusion and every value present, the partial fill issues
      the same fills as the full fill. */
  lemma PartialWithoutExclusionIsFull(u: UserRecord)
    requires AllValuesPresent(u)
    ensures FillPartialRegistrationForm(u, None) == FillRegistrationForm(u)
  {
    FilterKeepsAccepted(FillRegistrationForm(u), Selection(u, None));
  }

  /** An exclusion that names no field of the map excludes nothing. */
  lemma UnknownExclusionExcludesNothing(u: UserRecord, name: string)
    requires name !in MappedKeys
    ensures FillPartialRegistrationForm(u, Some(name)) == FillPartialRegistrationForm(u, None)
  {
    FieldNamedOutsideKeys(name);
  }

  /** Excluding a field by its key excludes that field. */
  lemma ExcludedFieldOfKey(f: Field)
    requires f != ConfirmPassword
    ensures ExcludedField(Some(Key(f))) == Some(f)
  {
    FieldNamedKey(f);
  }

  /** With every value present and a mapped field other than the password
      excluded, exactly the excluded field is left unselected. */
  lemma SelectedUnlessExcluded(u: UserRecord, f: Field, g: Field)
    requires AllValuesPresent(u)
    requires f != Password && f != ConfirmPassword
    ensures Selected(u, Some(f), g) <==> g != f
  {
    assert Value(u, g) != [];
  }

  /** The same, position by position in the full fill. */
  lemma SelectionRejectsOnly(u: UserRecord, f: Field)
    requires AllValuesPresent(u)
    requires f != Password && f != ConfirmPassword
    ensures var full, keep := FillRegistrationForm(u), Selection(u, Some(f));
      && !keep(full[Rank(f)])
      && (forall k :: 0 <= k < Rank(f) ==> keep(full[k]))
      && (forall k :: Rank(f) < k < |full| ==> keep(full[k]))
  {
    var full := FillRegistrationForm(u);
    forall k | 0 <= k < |full|
      ensures Selected(u, Some(f), full[k].field) <==> k != Rank(f)
    {
      SelectedUnlessExcluded(u, f, full[k].field);
    }
  }

  /** With every value present, excluding a mapped field other than the
      password skips exactly that field's fill and issues all the others
      in form order. */
  lemma ExclusionSkipsOnlyThatField(u: UserRecord, f: Field)
    requires AllValuesPresent(u)
    requires f != Password && f != ConfirmPassword
    ensures var full := FillRegistrationForm(u);
      FillPartialRegistrationForm(u, Some(Key(f))) == full[..Rank(f)] + full[Rank(f) + 1..]
  {
    ExcludedFieldOfKey(f);
    SelectionRejectsOnly(u, f);
    FilterDropsOne(FillRegistrationForm(u), Selection(u, Some(f)), Rank(f));
  }

  /** The negative test's call: excluding `firstName` from a generated user
      fills the ten other inputs, confirmation included, exactly as the full
      fill does. */
  lemma ExcludingFirstNameSkipsOnlyIt(fake: FakeProfile, timestamp: nat)
    requires fake.firstName != [] && fake.lastName != [] && fake.address != [] && fake.city != []
    requires fake.state != [] && fake.zipCode != [] && fake.phone != [] && fake.ssn != []
    ensures var u := GenerateUserData(fake, timestamp);
      FillPartialRegistrationForm(u, Some("firstName")) == FillRegistrationForm(u)[1..]
  {
    var u := GenerateUserData(fake, timestamp);
    assert AllValuesPresent(u);
    ExclusionSkipsOnlyThatField(u, FirstName);
    assert FillRegistrationForm(u)[..0] == [];
  }

  /** The invalid user's partial fill touches no name or credential input:
      each of those values is empty. */
  lemma InvalidUserFillsOnlyContactFields(fake: FakeProfile, exclude: Option<string>)
    ensures forall x :: x in FillPartialRegistrationForm(GenerateInvalidUserData(fake), exclude) ==>
      && x.field != FirstName && x.field != LastName
      && x.field != Username && x.field != Password && x.field != ConfirmPassword
  {
    var u := GenerateInvalidUserData(fake);
    PartialFillsCarryValues(u, exclude);
    forall x | x in FillPartialRegistrationForm(u, exclude)
      ensures x.field != FirstName && x.field != LastName
      ensures x.field != Username && x.field != Password && x.field != ConfirmPassword
    {
      InvalidUserEmptyFields(fake, x.field);
    }
  }

  /** Only the contact fields of the invalid user have a value. */
  lemma InvalidUserEmptyFields(fake: FakeProfile, f: Field)
    requires Value(GenerateInvalidUserData(fake), f) != []
    ensures f != FirstName && f != LastName && f != Username && f != Password && f != ConfirmPassword
  {
  }

  // ---------------------------------------------------------------------
  // Validation errors

  const RequiredMarker: string := "is required"

  /** One error text counts for `fieldName`: it contains the field name,
      ignoring case, or it contains "is required", respecting case. */
  predicate Mentions(text: string, fieldName: string) {
    Contains(ToLower(text), ToLower(fieldName)) || Contains(text, RequiredMarker)
  }

  /** `verifyValidationError(fieldName)` over the inline error texts read
      from the page: passes exactly when some text mentions the field. */
  function VerifyValidationError(errors: seq<string>, fieldName: string): (passed: bool)
    ensures passed <==> exists i :: 0 <= i < |errors| && Mentions(errors[i], fieldName)
  {
    if errors == [] then false
    else if Mentions(errors[0], fieldName) then true
    else
      var rest := VerifyValidationError(errors[1..], fieldName);
      assert forall i :: 1 <= i < |errors| ==> errors[i] == errors[1..][i - 1];
      rest
  }

  /** At offset `p` of `text` begins either the lower-cased field name (in
      the lower-cased text) or "is required". */
  predicate MentionsAt(text: string, fieldName: string, p: int) {
    OccursAt(ToLower(text), ToLower(fieldName), p) || OccursAt(text, RequiredMarker, p)
  }

  /** One text mentions the field exactly when some offset holds one of
      the two occurrences. */
  lemma MentionsIffOccurs(text: string, fieldName: string)
    ensures Mentions(text, fieldName) <==> exists p :: MentionsAt(text, fieldName, p)
  {
    ContainsIffOccurs(ToLower(text), ToLower(fieldName));
    ContainsIffOccurs(text, RequiredMarker);
    if Mentions(text, fieldName) {
      if Contains(ToLower(text), ToLower(fieldName)) {
        var p :| OccursAt(ToLower(text), ToLower(fieldName), p);
        assert MentionsAt(text, fieldName, p);
      } else {
        var p :| OccursAt(text, RequiredMarker, p);
        assert MentionsAt(text, fieldName, p);
      }
    }
  }

  /** The check passes exactly when some error text has the lower-cased
      field name at some offset of its lower-cased form, or "is required"
      at some offset. */
  lemma ValidationErrorIffOccurrence(errors: seq<string>, fieldName: string)
    ensures VerifyValidationError(errors, fieldName) <==>
      exists i, p :: 0 <= i < |errors| && MentionsAt(errors[i], fieldName, p)
  {
    if VerifyValidationError(errors, fieldName) {
      var i :| 0 <= i < |errors| && Mentions(errors[i], fieldName);
      MentionsIffOccurs(errors[i], fieldName);
      var p :| MentionsAt(errors[i], fieldName, p);
      assert 0 <= i < |errors| && MentionsAt(errors[i], fieldName, p);
    } else {
      forall i, p | 0 <= i < |errors|
        ensures !MentionsAt(errors[i], fieldName, p)
      {
        MentionsIffOccurs(errors[i], fieldName);
      }
    }
  }

  /** A page with the usual message for a missing first name satisfies
      the check for `firstName`. */
  lemma RequiredMessageSatisfiesCheck()
    ensures VerifyValidationError(["First name is required."], "firstName")
  {
    var text := "First name is required.";
    assert OccursAt(text, RequiredMarker, 11);
    ContainsIffOccurs(text, RequiredMarker);
    assert Mentions(text, "firstName");
  }
}
