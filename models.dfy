/** The two stored entities: the user account with its field rules, and the
    ECG record whose leads the analytic reads. */
module Models {
  import opened Wrappers
  import opened Decimal

  /** A user as the rest of the system sees it: by primary key. Django
      compares two model instances by their key. */
  type UserKey = nat

  // ---------------------------------------------------------------------
  // The username rule.

  const UsernameMessage := "Username must contain only alphanumeric characters."

  /** A character of the class `[a-zA-Z0-9_-]`. */
  predicate IsUsernameChar(c: char) {
    'a' <= c <= 'z' || 'A' <= c <= 'Z' || '0' <= c <= '9' || c == '_' || c == '-'
  }

  /** How many username characters the text starts with: what the greedy
      `[a-zA-Z0-9_-]+` takes from the start of the text. */
  function UsernameRun(s: string): (n: nat)
    ensures n <= |s|
  {
    if s != [] && IsUsernameChar(s[0]) then UsernameRun(s[1..]) + 1 else 0
  }

  /** The run is made of username characters and stops at the first other one. */
  lemma {:induction false} UsernameRunStops(s: string)
    ensures forall i | 0 <= i < UsernameRun(s) :: IsUsernameChar(s[i])
    ensures UsernameRun(s) < |s| ==> !IsUsernameChar(s[UsernameRun(s)])
  {
    if s != [] && IsUsernameChar(s[0]) {
      UsernameRunStops(s[1..]);
      forall i | 0 < i < UsernameRun(s) ensures IsUsernameChar(s[i]) {
        assert s[i] == s[1..][i - 1];
      }
    }
  }

  /** The validator's pattern `^[a-zA-Z0-9_-]+$` as Python's `re.search`
      reads it: the run must be non-empty and be followed by the end of the
      text, or by a newline that is the last character, since `$` also
      matches just before a final newline. No shorter run can do better: the
      character after it is a username character, never a newline. */
  predicate UsernameMatchesAsWritten(s: string) {
    var n := UsernameRun(s);
    n >= 1 && (n == |s| || (n == |s| - 1 && s[n] == '\n'))
  }

  /** The rule the validator's message and comment state: the run is the
      whole text. */
  predicate UsernameMatches(s: string) {
    var n := UsernameRun(s);
    n >= 1 && n == |s|
  }

  /** The rule, character by character: non-empty and nothing but
      letters, digits, underscores and hyphens. */
  lemma UsernameRule(s: string)
    ensures UsernameMatches(s) <==> |s| > 0 && forall i | 0 <= i < |s| :: IsUsernameChar(s[i])
  {
    UsernameRunStops(s);
  }

  /** As written, the pattern accepts exactly the valid usernames and the
      valid usernames followed by one newline. */
  lemma AsWrittenAcceptsFinalNewline(s: string)
    ensures UsernameMatchesAsWritten(s)
        <==> UsernameMatches(s) || (|s| >= 2 && s[|s| - 1] == '\n' && UsernameMatches(s[..|s| - 1]))
  {
    UsernameRule(s);
    UsernameRunStops(s);
    if |s| >= 1 {
      var init := s[..|s| - 1];
      UsernameRule(init);
      if UsernameMatchesAsWritten(s) && !UsernameMatches(s) {
        assert forall i | 0 <= i < |init| :: init[i] == s[i];
      }
      if |s| >= 2 && s[|s| - 1] == '\n' && UsernameMatches(init) {
        assert !IsUsernameChar(s[|s| - 1]);
        assert forall i | 0 <= i < |init| :: s[i] == init[i];
      }
    }
  }

  /** `user\n` gets through the pattern as written, though it is not a
      valid username. */
  lemma TrailingNewlineAccepted()
    ensures UsernameMatchesAsWritten("user\n")
    ensures !UsernameMatches("user\n")
  {
    var s := "user\n";
    assert s[1..] == "ser\n" && s[1..][1..] == "er\n" && s[1..][1..][1..] == "r\n";
    assert s[1..][1..][1..][1..] == "\n";
  }

  /** The username validator: no error for a valid username, the message
      otherwise. */
  function UsernameError(s: string): (r: Option<string>)
    ensures r.None? <==> |s| > 0 && forall i | 0 <= i < |s| :: IsUsernameChar(s[i])
    ensures r.Some? ==> r.value == UsernameMessage
  {
    UsernameRule(s);
    if UsernameMatches(s) then None else Some(UsernameMessage)
  }

  /** The username of the model tests, `user with spaces`, is refused with
      the validator's message. */
  lemma SpacesRejected()
    ensures UsernameError("user with spaces") == Some(UsernameMessage)
  {
    assert !IsUsernameChar("user with spaces"[4]);
  }

  // ---------------------------------------------------------------------
  // The user account.

  const UsernameMaxLength := 50
  const FirstNameMaxLength := 20
  const LastNameMaxLength := 50
  const SecondLastNameMaxLength := 50

  /** What a new user is built from; `isAdmin` and `secondLastName` may be
      left out. */
  datatype UserFields = UserFields(username: string, firstName: string, lastName: string,
                                   secondLastName: Option<string>, email: string,
                                   isAdmin: Option<bool>)

  datatype User = User(username: string, firstName: string, lastName: string,
                       secondLastName: Option<string>, email: string, isAdmin: bool)

  /** A new user: the fields as given, `is_admin` false unless it is set. */
  function NewUser(f: UserFields): (u: User)
    ensures u.isAdmin <==> f.isAdmin == Some(true)
    ensures u.username == f.username && u.firstName == f.firstName && u.lastName == f.lastName
    ensures u.secondLastName == f.secondLastName && u.email == f.email
  {
    User(f.username, f.firstName, f.lastName, f.secondLastName, f.email,
         match f.isAdmin case None => false case Some(b) => b)
  }

  datatype Field = Username | FirstName | LastName | SecondLastName

  /** What field validation can report: a required field left empty, a
      value over its field's length limit, or a username the pattern
      refuses. */
  datatype FieldError = Blank(field: Field) | TooLong(field: Field, limit: nat) | Invalid(field: Field, message: string)

  /** The checks of each field, the set of errors found. A field that may
      not be blank and is empty reports only that: Django's field check
      stops there, and it runs no validator on an empty value. The second
      last name may be blank. The username is checked against the rule the
      validator's message states, `UsernameError`, not the pattern as
      written, which also lets a final newline through. */
  function FieldErrors(u: User): (r: set<FieldError>)
    ensures r == {} <==> (u.username != "" && |u.username| <= UsernameMaxLength && UsernameError(u.username).None?
                          && u.firstName != "" && |u.firstName| <= FirstNameMaxLength
                          && u.lastName != "" && |u.lastName| <= LastNameMaxLength
                          && (u.secondLastName.Some? ==> |u.secondLastName.value| <= SecondLastNameMaxLength))
    ensures Blank(Username) in r <==> u.username == ""
    ensures Blank(FirstName) in r <==> u.firstName == ""
    ensures Blank(LastName) in r <==> u.lastName == ""
    ensures Invalid(Username, UsernameMessage) in r <==> u.username != "" && UsernameError(u.username).Some?
    ensures TooLong(Username, UsernameMaxLength) in r <==> |u.username| > UsernameMaxLength
    ensures TooLong(FirstName, FirstNameMaxLength) in r <==> |u.firstName| > FirstNameMaxLength
    ensures TooLong(LastName, LastNameMaxLength) in r <==> |u.lastName| > LastNameMaxLength
    ensures TooLong(SecondLastName, SecondLastNameMaxLength) in r
        <==> u.secondLastName.Some? && |u.secondLastName.value| > SecondLastNameMaxLength
    ensures forall e | e in r :: Reportable(e)
  {
    var username := UsernameChecks(u.username);
    var firstName := Required(FirstName, u.firstName);
    var lastName := Required(LastName, u.lastName);
    var secondLastName := Optional(SecondLastName, u.secondLastName);
    username + firstName + lastName + secondLastName
  }

  /** The limit of each field's `max_length`. */
  function Limit(field: Field): nat {
    match field
    case Username => UsernameMaxLength
    case FirstName => FirstNameMaxLength
    case LastName => LastNameMaxLength
    case SecondLastName => SecondLastNameMaxLength
  }

  /** The errors field validation can report at all: a blank field other
      than the second last name, which may be blank; a value over its own
      field's limit; the username message on the username. */
  predicate Reportable(e: FieldError) {
    match e
    case Blank(f) => f != SecondLastName
    case TooLong(f, limit) => limit == Limit(f)
    case Invalid(f, message) => f == Username && message == UsernameMessage
  }

  /** The checks of the username: it may not be blank, then the length
      limit and the username rule. */
  function UsernameChecks(value: string): (r: set<FieldError>)
    ensures Blank(Username) in r <==> value == ""
    ensures Invalid(Username, UsernameMessage) in r <==> value != "" && UsernameError(value).Some?
    ensures TooLong(Username, UsernameMaxLength) in r <==> |value| > UsernameMaxLength
    ensures r == {} <==> value != "" && |value| <= UsernameMaxLength && UsernameError(value).None?
    ensures forall e | e in r :: e.field == Username && Reportable(e)
  {
    if value == "" then {Blank(Username)}
    else Within(Username, value)
         + (match UsernameError(value) case None => {} case Some(m) => {Invalid(Username, m)})
  }

  /** A field that may not be blank: empty reports only that, anything
      else goes to the length check. */
  function Required(field: Field, value: string): (r: set<FieldError>)
    requires field != SecondLastName
    ensures Blank(field) in r <==> value == ""
    ensures TooLong(field, Limit(field)) in r <==> |value| > Limit(field)
    ensures r == {} <==> value != "" && |value| <= Limit(field)
    ensures forall e | e in r :: e.field == field && Reportable(e)
  {
    if value == "" then {Blank(field)} else Within(field, value)
  }

  /** A field that may be left out or blank: only a given value is checked
      against the length limit. */
  function Optional(field: Field, value: Option<string>): (r: set<FieldError>)
    ensures TooLong(field, Limit(field)) in r <==> value.Some? && |value.value| > Limit(field)
    ensures r == {} <==> (value.Some? ==> |value.value| <= Limit(field))
    ensures forall e | e in r :: e.field == field && Reportable(e)
  {
    match value
    case None => {}
    case Some(v) => Within(field, v)
  }

  /** The `max_length` check of one field. */
  function Within(field: Field, value: string): (r: set<FieldError>)
    ensures r == {} <==> |value| <= Limit(field)
    ensures forall e | e in r :: e == TooLong(field, Limit(field))
  {
    if |value| <= Limit(field) then {} else {TooLong(field, Limit(field))}
  }

  /** An empty username is reported as blank and nothing else: neither the
      length limit nor the username rule is applied to it. */
  lemma EmptyUsernameOnlyBlank(u: User)
    requires u.username == ""
    ensures Blank(Username) in FieldErrors(u)
    ensures forall e | e in FieldErrors(u) && e.field == Username :: e == Blank(Username)
  {
    assert UsernameChecks(u.username) == {Blank(Username)};
  }

  /** The user of the model tests is valid and is no administrator. */
  lemma ValidTestUser()
    ensures var u := NewUser(UserFields("testuser", "name", "last_name", None, "testuser@example.com", None));
            FieldErrors(u) == {} && !u.isAdmin
  {
    UsernameRule("testuser");
  }

  /** An administrator is one only when created so. */
  lemma AdminOnlyWhenSet(f: UserFields)
    ensures NewUser(f).isAdmin ==> f.isAdmin.Some?
    ensures NewUser(f.(isAdmin := None)).isAdmin == false
    ensures NewUser(f.(isAdmin := Some(true))).isAdmin
  {
  }

  // ---------------------------------------------------------------------
  // The ECG record.

  /** One lead as stored in the record's JSON list: each key may be absent. */
  datatype Lead = Lead(name: Option<string>, numSamples: Option<int>, signal: Option<string>)

  /** An ECG record: its key (none until it is saved), its leads, and the
      key of the user who created it. The creation date is not modelled. */
  datatype Ecg = Ecg(id: Option<nat>, leads: seq<Lead>, owner: UserKey)

  /** `str(ecg)`: `ECG ` and the key, or `ECG None` before the record is saved. */
  function EcgDisplay(e: Ecg): (r: string)
    ensures |r| > 4 && r[..4] == "ECG "
    ensures e.id.Some? ==> AllDigits(r[4..]) && DigitsValue(r[4..]) == e.id.value
    ensures e.id.Some? ==> (r[4] == '0' ==> |r| == 5)
    ensures e.id.None? ==> r[4..] == "None"
  {
    match e.id
    case None =>
      assert ("ECG " + "None")[4..] == "None";
      "ECG None"
    case Some(k) =>
      NatToStringRoundTrip(k);
      assert ("ECG " + NatToString(k))[4..] == NatToString(k);
      "ECG " + NatToString(k)
  }

  /** Records with different keys are shown differently. */
  lemma EcgDisplayInjective(a: Ecg, b: Ecg)
    requires EcgDisplay(a) == EcgDisplay(b)
    ensures a.id == b.id
  {
    assert EcgDisplay(a)[4..] == EcgDisplay(b)[4..];
  }
}
