/** The input validators of the API: the signal text and the name of a
    lead, the password policy of registration, and the login check on the
    credentials. */
module Serializers {
  import opened Wrappers
  import opened Json
  import opened SignalCodec
  import opened Models

  // ---------------------------------------------------------------------
  // The signal of a lead.

  const NotListMessage := "Invalid signal format. Must be a list of numbers (integers or floats)."
  const NotJsonMessage := "Invalid signal format. Must be a valid JSON list of numbers (integers or floats)."

  /** `validate_signal`: the text must be JSON, and that JSON an array of
      numbers; the text itself is what is kept. */
  function ValidateSignal(value: string): (r: Result<string, string>)
    ensures r.Ok? <==> IsNumberList(value)
    ensures r.Ok? ==> r.value == value
    ensures r == Err(NotJsonMessage) <==> Parse(value).None?
    ensures r == Err(NotListMessage) <==> Parse(value).Some? && !IsNumberList(value)
  {
    match Parse(value)
    case None => Err(NotJsonMessage)
    case Some(v) => if v.Array? && AllNumbers(v.elements) then Ok(value) else Err(NotListMessage)
  }

  /** What the validator lets through, the zero-crossing count can decode,
      and it refuses for the same reason the decoder does. */
  lemma ValidatedSignalDecodes(value: string)
    ensures ValidateSignal(value).Ok? <==> Decode(value).Ok?
    ensures ValidateSignal(value) == Err(NotJsonMessage) <==> Decode(value) == Err(Malformed)
    ensures ValidateSignal(value) == Err(NotListMessage) <==> Decode(value) == Err(NotListOfNumbers)
  {
  }

  /** Every list of integer and decimal literals, laid out with any
      whitespace after its commas, is accepted as it is. */
  lemma EncodedSignalAccepted(ds: seq<Sample>, gap: string)
    requires forall i | 0 <= i < |ds| :: ValidSample(ds[i])
    requires AllWs(gap)
    ensures ValidateSignal(Encode(ds, gap)) == Ok(Encode(ds, gap))
  {
    EncodeDecode(ds, gap);
  }

  /** `[]` is accepted: an empty array has no element that is not a number. */
  lemma EmptySignalAccepted()
    ensures ValidateSignal("[]") == Ok("[]")
  {
    EncodedSignalAccepted([], "");
    assert Encode([], "") == "[]";
  }

  /** `invalid` is no JSON text. */
  lemma WordSignalRejected()
    ensures ValidateSignal("invalid") == Err(NotJsonMessage)
  {
    assert ParseValue(SkipWs("invalid")) == None by {
      assert SkipWs("invalid") == "invalid";
    }
  }

  /** A lone number, such as `5 `, is JSON but no list: the other message. */
  lemma BareNumberRejected(d: Sample)
    requires ValidSample(d)
    ensures ValidateSignal(SampleText(d) + " ") == Err(NotListMessage)
  {
    var s := SampleText(d) + " ";
    SampleTextStart(d);
    assert SkipWs(s) == s by {
      SkipWsPrefix("", s);
    }
    ParseSample(d, " ");
    assert SkipWs(" ") == "" by {
      SkipWsPrefix(" ", "");
    }
  }

  /** The signal of the serializer tests, integers and decimals mixed, is accepted. */
  lemma MixedSignalAccepted(value: string)
    requires value == "[1, 2, 3, -4, 2, -6, -4.3, 4.2]"
    ensures ValidateSignal(value) == Ok(value)
  {
    MixedSignalDecodes(value);
  }

  // ---------------------------------------------------------------------
  // The name of a lead.

  /** The twelve leads of a standard ECG. */
  const LeadIdentifiers: seq<string> :=
    ["I", "II", "III", "aVR", "aVL", "aVF", "V1", "V2", "V3", "V4", "V5", "V6"]

  /** The name field is a choice among the lead identifiers; anything else
      is refused with the choice field's message. */
  function ValidateLeadName(name: string): (r: Result<string, string>)
    ensures r.Ok? <==> name in LeadIdentifiers
    ensures r.Ok? ==> r.value == name
    ensures r.Err? ==> r.error == "\"" + name + "\" is not a valid choice."
  {
    if name in LeadIdentifiers then Ok(name) else Err("\"" + name + "\" is not a valid choice.")
  }

  /** The identifiers, described by their shape: the limb leads I, II and
      III, the augmented leads aVR, aVL and aVF, and the chest leads V1 to V6. */
  predicate IsLeadShape(name: string) {
    name == "I" || name == "II" || name == "III"
    || (|name| == 3 && name[..2] == "aV" && (name[2] == 'R' || name[2] == 'L' || name[2] == 'F'))
    || (|name| == 2 && name[0] == 'V' && '1' <= name[1] <= '6')
  }

  lemma LeadNameShape(name: string)
    ensures ValidateLeadName(name).Ok? <==> IsLeadShape(name)
  {
    if |name| == 3 && name[..2] == "aV" {
      assert name == "aV" + [name[2]];
      if name[2] == 'R' || name[2] == 'L' || name[2] == 'F' {
        assert name == "aVR" || name == "aVL" || name == "aVF";
      }
    } else if |name| == 2 && name[0] == 'V' {
      assert name == "V" + [name[1]];
      if '1' <= name[1] <= '6' {
        assert name == "V1" || name == "V2" || name == "V3" || name == "V4" || name == "V5" || name == "V6" by {
          assert name[1] as int - '1' as int in {0, 1, 2, 3, 4, 5};
        }
      }
    }
  }

  /** Twelve distinct identifiers. */
  lemma TwelveLeads()
    ensures |LeadIdentifiers| == 12
    ensures forall i, j | 0 <= i < j < |LeadIdentifiers| :: LeadIdentifiers[i] != LeadIdentifiers[j]
  {
  }

  /** The name of the serializer tests, `InvalidLead`, is refused. */
  lemma InvalidLeadRejected()
    ensures ValidateLeadName("InvalidLead").Err?
  {
    LeadNameShape("InvalidLead");
  }

  // ---------------------------------------------------------------------
  // The password policy.

  const ShortPasswordMessage := "Password must be at least 8 characters long."
  const NoUppercaseMessage := "Password must contain at least one uppercase letter."
  const NoSpecialMessage := "Password must contain at least one special character."

  const MinPasswordLength := 8

  /** The character class of the policy's pattern. */
  const SpecialCharacters := "!@#$%^&*(),.?\":{}|<>"

  predicate IsUppercase(c: char) {
    'A' <= c <= 'Z'
  }

  /** Whether some character of the text is an uppercase letter. */
  function HasUppercase(s: string): (b: bool)
    ensures b <==> exists i | 0 <= i < |s| :: IsUppercase(s[i])
  {
    if s == [] then false
    else if IsUppercase(s[0]) then true
    else
      var b := HasUppercase(s[1..]);
      assert b ==> exists i | 0 <= i < |s| :: IsUppercase(s[i]) by {
        if b {
          var i :| 0 <= i < |s[1..]| && IsUppercase(s[1..][i]);
          assert IsUppercase(s[i + 1]);
        }
      }
      assert (exists i | 0 <= i < |s| :: IsUppercase(s[i])) ==> b by {
        if exists i | 0 <= i < |s| :: IsUppercase(s[i]) {
          var i :| 0 <= i < |s| && IsUppercase(s[i]);
          assert i > 0 && IsUppercase(s[1..][i - 1]);
        }
      }
      b
  }

  /** Whether the pattern finds a special character anywhere in the text. */
  function HasSpecial(s: string): (b: bool)
    ensures b <==> exists i | 0 <= i < |s| :: s[i] in SpecialCharacters
  {
    if s == [] then false
    else if s[0] in SpecialCharacters then true
    else
      var b := HasSpecial(s[1..]);
      assert b ==> exists i | 0 <= i < |s| :: s[i] in SpecialCharacters by {
        if b {
          var i :| 0 <= i < |s[1..]| && s[1..][i] in SpecialCharacters;
          assert s[i + 1] in SpecialCharacters;
        }
      }
      assert (exists i | 0 <= i < |s| :: s[i] in SpecialCharacters) ==> b by {
        if exists i | 0 <= i < |s| :: s[i] in SpecialCharacters {
          var i :| 0 <= i < |s| && s[i] in SpecialCharacters;
          assert i > 0 && s[1..][i - 1] in SpecialCharacters;
        }
      }
      b
  }

  /** `validate_password`: length first, then an uppercase letter, then a
      special character; the first rule broken names the error, and a
      password that keeps all three is returned as it is. */
  function ValidatePassword(value: string): (r: Result<string, string>)
    ensures r.Ok? <==> (|value| >= MinPasswordLength
                        && (exists i | 0 <= i < |value| :: IsUppercase(value[i]))
                        && (exists i | 0 <= i < |value| :: value[i] in SpecialCharacters))
    ensures r.Ok? ==> r.value == value
    ensures r == Err(ShortPasswordMessage) <==> |value| < MinPasswordLength
    ensures r == Err(NoUppercaseMessage)
        <==> (|value| >= MinPasswordLength && forall i | 0 <= i < |value| :: !IsUppercase(value[i]))
    ensures r == Err(NoSpecialMessage)
        <==> (|value| >= MinPasswordLength && (exists i | 0 <= i < |value| :: IsUppercase(value[i]))
              && forall i | 0 <= i < |value| :: value[i] !in SpecialCharacters)
  {
    if |value| < MinPasswordLength then Err(ShortPasswordMessage)
    else if !HasUppercase(value) then Err(NoUppercaseMessage)
    else if !HasSpecial(value) then Err(NoSpecialMessage)
    else Ok(value)
  }

  /** A letter or a digit is no special character. */
  lemma AlphanumericNotSpecial(c: char)
    requires 'a' <= c <= 'z' || 'A' <= c <= 'Z' || '0' <= c <= '9'
    ensures c !in SpecialCharacters
  {
  }

  /** The password of the registration tests keeps all three rules. */
  lemma TestPasswordAccepted(value: string)
    requires value == "TestPassword123!"
    ensures ValidatePassword(value) == Ok(value)
  {
    assert IsUppercase(value[0]) && value[15] in SpecialCharacters;
  }

  /** `Pass` is too short. */
  lemma ShortPasswordRejected(value: string)
    requires value == "Pass"
    ensures ValidatePassword(value) == Err(ShortPasswordMessage)
  {
  }

  /** `password!` has no uppercase letter. */
  lemma LowercasePasswordRejected(value: string)
    requires value == "password!"
    ensures ValidatePassword(value) == Err(NoUppercaseMessage)
  {
    assert forall i | 0 <= i < |value| :: !IsUppercase(value[i]);
  }

  /** `MissingSpecialChar123` has no special character. */
  lemma PlainPasswordRejected(value: string)
    requires value == "MissingSpecialChar123"
    ensures ValidatePassword(value) == Err(NoSpecialMessage)
  {
    assert IsUppercase(value[0]);
    forall i | 0 <= i < |value| ensures value[i] !in SpecialCharacters {
      AlphanumericNotSpecial(value[i]);
    }
  }

  // ---------------------------------------------------------------------
  // Login.

  const MissingCredentialsMessage := "Must include both username and password"
  const InvalidCredentialsMessage := "Invalid credentials"

  /** A value in the login data: text from the request, or the user the
      check put there. */
  datatype Entry = Text(text: string) | Account(user: UserKey)

  /** Truth as Python sees it: an empty text is false, a user is true. */
  predicate Truthy(e: Entry) {
    e.Account? || e.text != ""
  }

  /** `data.get(key)` is present and true. */
  predicate Given(data: map<string, Entry>, key: string) {
    key in data && Truthy(data[key])
  }

  /** The credential check the login relies on: the user whose username and
      password these are, if there is one. */
  type Authenticator = (Entry, Entry) -> Option<UserKey>

  /** The login check on a copy of the data: both credentials must be
      given, the authenticator asked only then, and the user it names added
      under `user`. */
  function Login(data: map<string, Entry>, authenticate: Authenticator): (r: Result<map<string, Entry>, string>)
    ensures !(Given(data, "username") && Given(data, "password")) ==> r == Err(MissingCredentialsMessage)
    ensures Given(data, "username") && Given(data, "password") ==>
              (r.Err? <==> authenticate(data["username"], data["password"]).None?)
    ensures Given(data, "username") && Given(data, "password") && r.Err? ==> r.error == InvalidCredentialsMessage
    ensures r.Ok? ==> r.value.Keys == data.Keys + {"user"}
    ensures r.Ok? ==> r.value["user"] == Account(authenticate(data["username"], data["password"]).value)
    ensures r.Ok? ==> forall k | k in data && k != "user" :: r.value[k] == data[k]
  {
    if Given(data, "username") && Given(data, "password") then
      match authenticate(data["username"], data["password"])
      case None => Err(InvalidCredentialsMessage)
      case Some(user) => Ok(data["user" := Account(user)])
    else Err(MissingCredentialsMessage)
  }

  /** Without both credentials the outcome is the same whatever the
      authenticator would say. */
  lemma MissingCredentialsIgnoreAuthenticator(data: map<string, Entry>, a: Authenticator, b: Authenticator)
    requires !(Given(data, "username") && Given(data, "password"))
    ensures Login(data, a) == Login(data, b)
  {
  }

  /** The authenticator matters only through its answer for the two credentials. */
  lemma OnlyTheAnswerMatters(data: map<string, Entry>, a: Authenticator, b: Authenticator)
    requires Given(data, "username") && Given(data, "password")
    requires a(data["username"], data["password"]) == b(data["username"], data["password"])
    ensures Login(data, a) == Login(data, b)
  {
  }

  /** Checking the data a successful login produced again gives it back
      unchanged. */
  lemma LoginIdempotent(data: map<string, Entry>, authenticate: Authenticator)
    requires Login(data, authenticate).Ok?
    ensures Login(Login(data, authenticate).value, authenticate) == Login(data, authenticate)
  {
    var d := Login(data, authenticate).value;
    assert d["username"] == data["username"] && d["password"] == data["password"];
    assert d["user" := d["user"]] == d;
  }

  /** The login cases of the serializer tests, with an authenticator that
      knows the test user: the right password logs the user in, an email in
      place of the username is refused as missing credentials, a wrong
      password as invalid ones. */
  lemma TestLogins(authenticate: Authenticator, user: UserKey)
    requires authenticate(Text("testuser"), Text("TestPassword123!")) == Some(user)
    requires authenticate(Text("testuser"), Text("WrongPassword")) == None
    ensures var data := map["username" := Text("testuser"), "password" := Text("TestPassword123!")];
            Login(data, authenticate) == Ok(data["user" := Account(user)])
    ensures Login(map["email" := Text("testuser@example.com"), "password" := Text("TestPassword123!")], authenticate)
         == Err(MissingCredentialsMessage)
    ensures Login(map["username" := Text("testuser"), "password" := Text("WrongPassword")], authenticate)
         == Err(InvalidCredentialsMessage)
  {
    var email := map["email" := Text("testuser@example.com"), "password" := Text("TestPassword123!")];
    assert "username" !in email;
  }

  /** The login data of a request, which the check updates in place. */
  class LoginData {
    var entries: map<string, Entry>

    constructor (entries: map<string, Entry>)
      ensures this.entries == entries
    {
      this.entries := entries;
    }

    /** `validate`: on success the user is put into the data and the data is
        returned; on failure the data is left as it was. */
    method Validate(authenticate: Authenticator) returns (r: Result<map<string, Entry>, string>)
      modifies this
      ensures r == Login(old(entries), authenticate)
      ensures entries == if r.Ok? then r.value else old(entries)
    {
      var username := if "username" in entries then Some(entries["username"]) else None;
      var password := if "password" in entries then Some(entries["password"]) else None;
      if username.Some? && Truthy(username.value) && password.Some? && Truthy(password.value) {
        var user := authenticate(username.value, password.value);
        if user.Some? {
          entries := entries["user" := Account(user.value)];
          return Ok(entries);
        } else {
          return Err(InvalidCredentialsMessage);
        }
      } else {
        return Err(MissingCredentialsMessage);
      }
    }
  }
}
