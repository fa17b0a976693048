# ECG backend core in Dafny

A model of the logic at the heart of an ECG storage service. A user
registers and logs in, then stores electrocardiograms. Each record is a list
of leads, and each lead carries a name and a signal written as a JSON list
of numbers. The service answers, lead by lead, how many times the signal
crosses zero. Only the user who created a record may see it.

The modules are:

- `Wrappers`: `Option` and `Result`.
- `Decimal`: digit strings and the decimal writing of a natural number.
- `Json`: a parser for the JSON grammar of RFC 8259 with the acceptance
  rules of Python's `json.loads`. That means one value with whitespace
  around it, nothing after it, and the number grammar of section 6 of
  RFC 8259. The number scanner refuses a malformed literal such as `1.`
  outright, where Python's scanner would stop before the bad part. Both
  refuse the whole text, so only the overall verdict of `Parse` matches
  Python's, and only for texts nested less deeply than Python's recursion
  limit. Numbers are kept as `mantissa * 10^scale`, so their values
  are exact reals.
- `SignalCodec`: decoding a signal text (`json.loads` followed by the
  list-of-numbers test) and an encoder of decimal literals that decoding
  inverts. The two signals of the tests are proved to decode to their samples.
- `ZeroCrossing`: the count of adjacent sample pairs with a strictly
  negative product, tied to the set of crossing indices and to its algebra
  (appending, zero samples, polarity).
- `Models`: the username rule, the field length limits, the `is_admin`
  default, the ECG record and its display string.
- `Operations`: the count of one signal and the batch over a record's
  leads. The batch is a function over any per-lead counter, so the batch
  test, which stands in 3 and 4 for the counts, is a lemma about that
  function. A method with the source's loop is proved equal to it.
- `Serializers`: signal validation, the choice of lead name, the password
  policy, and the login check. The login check is a pure function plus a
  class whose `Validate` method updates the login data in place. The
  authenticator is a function parameter.
- `Permissions`: the object permission check. Users are compared by primary
  key, as Django compares model instances.

## Model

| member | source | states |
|---|---|---|
| SignalCodec.Decode | ecg/app/connector/operations.py:21 | a signal text decodes exactly when it is JSON and an array of numbers; malformed JSON and other JSON are told apart; the samples are the exact values of the array's numbers |
| SignalCodec.EncodeDecode | ecg/app/connector/operations.py:21 | every list of decimal literals, written as `json.dumps` writes a list (any whitespace after commas), decodes back to the literals' values |
| SignalCodec.ParseEncode | ecg/app/connector/operations.py:21 | the JSON parser reads such a text as the array of the literals' numbers, with nothing left over |
| SignalCodec.IntegerSignalDecodes | ecg/app/connector/tests/test_operations.py:99-105 | `[1, 2, 3, -4, 2, -6]` decodes to the six reals 1, 2, 3, -4, 2, -6 |
| SignalCodec.MixedSignalDecodes | ecg/app/connector/tests/test_serializers.py:118 | `[1, 2, 3, -4, 2, -6, -4.3, 4.2]` decodes to its eight samples, the decimals exactly |
| ZeroCrossing.Count | ecg/app/connector/operations.py:22 | the number of adjacent pairs with a negative product is at most one less than the number of samples |
| ZeroCrossing.CountIsCrossings | ecg/app/connector/operations.py:22 | the recursive count equals the size of the set of indices `i` with `s[i] * s[i+1] < 0` |
| ZeroCrossing.OppositeSigns | ecg/app/connector/operations.py:22 | a pair crosses exactly when one sample is strictly negative and the other strictly positive |
| ZeroCrossing.ShortSignal | ecg/app/connector/operations.py:22 | an empty or one-sample signal has no crossing, as the empty slices of the source give |
| ZeroCrossing.ZeroNeverCounted | ecg/app/connector/operations.py:22 | a pair with a zero sample is never a crossing (strict `< 0`) |
| ZeroCrossing.CountAppend | ecg/app/connector/operations.py:22 | the count of two signals end to end is the two counts plus one when the joining pair crosses |
| ZeroCrossing.ZeroSplits | ecg/app/connector/operations.py:22 | a zero sample splits the count into the counts on either side |
| ZeroCrossing.CountNegated | ecg/app/connector/operations.py:22 | negating every sample keeps the count |
| ZeroCrossing.ExampleCount | ecg/app/connector/tests/test_operations.py:99-105 | the samples 1, 2, 3, -4, 2, -6 cross zero three times |
| Operations.SignalZeroCrossing | ecg/app/connector/operations.py:17-24 | a lead's signal is counted exactly when it is present and a JSON list of numbers; the count is the number of crossing pairs of the decoded samples; an absent signal and a rejected one are failures with their reasons |
| Operations.TestSignalCount | ecg/app/connector/tests/test_operations.py:99-105 | the count of `[1, 2, 3, -4, 2, -6]` is 3 |
| Operations.Counts | ecg/app/connector/operations.py:26-46 | the batch succeeds exactly when every lead can be counted; then it has one entry per lead, in lead order, with that lead's count and name |
| Operations.FirstFailure | ecg/app/connector/operations.py:35-38 | a failed batch carries the error of the first lead that cannot be counted, and every lead before it can be counted |
| Operations.FailurePersists | ecg/app/connector/operations.py:35-38 | once a prefix of the leads fails, the batch over all of them fails with the same error |
| Operations.GetZeroCrossingCount | ecg/app/connector/operations.py:26-46 | the loop over a record's leads returns exactly the batch result for the real per-signal count |
| Operations.DeclaredSizeIgnored | ecg/app/connector/operations.py:35-44 | replacing the `num_samples` of every lead, by any values, leaves the batch result unchanged |
| Operations.BatchWithStandIn | ecg/app/connector/tests/test_operations.py:107-130 | with the count standing in 3 and 4 for the two test signals, the batch lists `(3, I)` then `(4, II)` |
| Models.UsernameRun | ecg/app/connector/models.py:8-11 | the greedy run of `[a-zA-Z0-9_-]` from the start never exceeds the text |
| Models.UsernameRunStops | ecg/app/connector/models.py:8-11 | the run consists of username characters and stops at the first other character |
| Models.UsernameRule | ecg/app/connector/models.py:8-11 | the intended pattern accepts exactly non-empty texts of letters, digits, `_` and `-` |
| Models.AsWrittenAcceptsFinalNewline | ecg/app/connector/models.py:8-11 | the pattern as Python reads it accepts exactly the valid usernames and the valid usernames followed by one newline |
| Models.TrailingNewlineAccepted | ecg/app/connector/models.py:8-11 | `user\n` passes the pattern as written but is no valid username |
| Models.UsernameError | ecg/app/connector/models.py:8-11 | the validator under the corrected rule (see Findings) reports nothing for a valid username and its message for any other text |
| Models.SpacesRejected | ecg/app/connector/tests/test_models.py:35-51 | `user with spaces` is refused with the validator's message |
| Models.NewUser | ecg/app/connector/models.py:13-30 | a new user keeps the given fields; it is an administrator exactly when `is_admin` is given as true |
| Models.AdminOnlyWhenSet | ecg/app/connector/models.py:13 | leaving `is_admin` out gives a non-administrator, and setting it gives an administrator |
| Models.FieldErrors | ecg/app/connector/models.py:14-29 | a user has no field error exactly when the username, first name and last name are non-empty, the username is valid and within 50 characters, the first name within 20, the last name within 50 and any second last name within 50; each error is reported exactly when its field is blank, its limit or its rule is broken, and no other kind of error is reported; the username is checked against the corrected rule (see Findings) |
| Models.UsernameChecks | ecg/app/connector/models.py:14-22 | an empty username is reported as blank and nothing else; a non-empty one gets the length error exactly when over 50 characters and the username message exactly when the rule refuses it |
| Models.Required | ecg/app/connector/models.py:23-24 | a first or last name is reported blank exactly when empty, and too long exactly when over its limit; every error it reports is about that field |
| Models.Optional | ecg/app/connector/models.py:25-29 | the second last name may be absent or blank; only a value over 50 characters is reported |
| Models.Within | ecg/app/connector/models.py:23-24 | one `max_length` check reports its field exactly when the value is over the field's limit |
| Models.EmptyUsernameOnlyBlank | ecg/app/connector/models.py:14-22 | an empty username gets the blank error and no length or pattern error, since Django runs no validator on an empty value |
| Models.ValidTestUser | ecg/app/connector/tests/test_models.py:21-27 | the test user has no field error and is no administrator |
| Models.EcgDisplay | ecg/app/connector/models.py:50-51 | `str(ecg)` is `ECG ` followed by the decimal digits of the key, with no leading zero, or by `None` before the record is saved |
| Models.EcgDisplayInjective | ecg/app/connector/models.py:50-51 | two records with the same display string have the same key |
| Decimal.NatToString | ecg/app/connector/models.py:51 | a key is written as a non-empty string of decimal digits without leading zeros |
| Decimal.NatToStringRoundTrip | ecg/app/connector/models.py:51 | reading the written digits gives the key back |
| Decimal.NatToStringInjective | ecg/app/connector/models.py:51 | different keys are written differently |
| Serializers.ValidateSignal | ecg/app/connector/serializers.py:95-117 | a signal is accepted, and returned unchanged, exactly when it is a JSON list of numbers; text that is not JSON gets the JSON message; JSON that is not a list of numbers gets the list message |
| Serializers.ValidatedSignalDecodes | ecg/app/connector/serializers.py:95-117 | the validator accepts exactly what the zero-crossing count can decode, and its two messages match the decoder's two reasons |
| Serializers.EncodedSignalAccepted | ecg/app/connector/serializers.py:95-117 | every list of decimal literals, laid out as `json.dumps` does, is accepted as it is |
| Serializers.EmptySignalAccepted | ecg/app/connector/serializers.py:99-110 | `[]` is accepted |
| Serializers.WordSignalRejected | ecg/app/connector/tests/test_serializers.py:174-185 | `invalid` is refused with the JSON message |
| Serializers.BareNumberRejected | ecg/app/connector/serializers.py:102-108 | a lone decimal literal without exponent, followed by one space, is valid JSON but gets the list message |
| Serializers.MixedSignalAccepted | ecg/app/connector/tests/test_serializers.py:122-137 | the test signal of integers and decimals is accepted as it is |
| Serializers.ValidateLeadName | ecg/app/connector/serializers.py:68-86 | a lead name is accepted exactly when it is one of the twelve identifiers; otherwise the error quotes the name in the choice field's message |
| Serializers.LeadNameShape | ecg/app/connector/serializers.py:68-81 | the accepted names are exactly the limb leads I, II, III, the augmented leads aVR, aVL, aVF and the chest leads V1 to V6 |
| Serializers.TwelveLeads | ecg/app/connector/serializers.py:68-81 | there are twelve identifiers and no two are equal |
| Serializers.InvalidLeadRejected | ecg/app/connector/tests/test_serializers.py:148-159 | `InvalidLead` is refused |
| Serializers.HasUppercase | ecg/app/connector/serializers.py:48 | true exactly when some character is an uppercase letter |
| Serializers.HasSpecial | ecg/app/connector/serializers.py:54 | true exactly when some character is one of the twenty special characters of the policy's pattern |
| Serializers.ValidatePassword | ecg/app/connector/serializers.py:40-59 | a password is accepted, unchanged, exactly when it has at least 8 characters, an uppercase letter and a special character; otherwise the error names the first rule broken, in the order length, uppercase, special |
| Serializers.AlphanumericNotSpecial | ecg/app/connector/serializers.py:54 | no letter or digit is a special character |
| Serializers.TestPasswordAccepted | ecg/app/connector/tests/test_serializers.py:72-76 | `TestPassword123!` is accepted |
| Serializers.ShortPasswordRejected | ecg/app/connector/tests/test_serializers.py:80-86 | `Pass` is refused as too short |
| Serializers.LowercasePasswordRejected | ecg/app/connector/tests/test_serializers.py:88-95 | `password!` is refused for lacking an uppercase letter |
| Serializers.PlainPasswordRejected | ecg/app/connector/tests/test_serializers.py:97-104 | `MissingSpecialChar123` is refused for lacking a special character |
| Serializers.Login | ecg/app/connector/serializers.py:15-30 | without a truthy username and password the login fails with the missing-credentials message; with both, it fails with the invalid-credentials message exactly when the authenticator finds no user; on success it adds that user under `user` and keeps every other entry |
| Serializers.MissingCredentialsIgnoreAuthenticator | ecg/app/connector/serializers.py:18-28 | without both credentials the authenticator is never consulted |
| Serializers.OnlyTheAnswerMatters | ecg/app/connector/serializers.py:18-24 | the authenticator matters only through its answer for the given username and password |
| Serializers.LoginIdempotent | ecg/app/connector/serializers.py:15-30 | checking the data of a successful login again gives the same data |
| Serializers.TestLogins | ecg/app/connector/tests/test_serializers.py:29-61 | the right password logs the test user in, an email in place of a username is missing credentials, a wrong password is invalid credentials |
| Serializers.LoginData.constructor | ecg/app/connector/serializers.py:15 | the login data holds the given entries |
| Serializers.LoginData.Validate | ecg/app/connector/serializers.py:15-30 | the check's result is the login outcome on the data it found; the data gains the user on success and is unchanged on failure |
| Permissions.HasObjectPermission | ecg/app/connector/permissions.py:5-12 | the check passes exactly when the requester is the record's creator; it never answers false but refuses with `Permission Denied` |
| Permissions.OnlyTheOwnerMatters | ecg/app/connector/permissions.py:8-12 | the decision depends only on the record's owner, never on the view or the record's other fields |
| Permissions.OwnerOnly | ecg/app/connector/tests/test_views.py:118-143 | the creator is let through; another user and an anonymous requester are refused |

## Left out

- HTTP views, URL routing, token authentication, Redis caching and the
  database (CRUD, `get_ecg_instance` and its exception mapping) are not part
  of this model. The authenticator and the password hasher are Django code
  the model cannot see. The authenticator is a function parameter of
  `Login`; `make_password` is not modelled.
- Decode, SignalZeroCrossing: samples are exact reals. In the source,
  `json.loads` rounds each literal with a fraction or an exponent to a
  binary float, underflowing tiny ones to zero: `[1e-400, -1]` counts 0
  there and 1 in the model. Integer literals stay exact Python integers.
  numpy's float rounding (a mixed list is coerced to `float64`), the
  overflow of its `int64` and its dtype coercion are not modelled either.
- SignalZeroCrossing: numpy would also count some JSON the model rejects.
  Booleans are read as 0 and 1 (`[true, -1]` counts once), and nested lists
  make a 2-D array whose rows are multiplied. The model fails on any array
  element that is not a number. An empty list or one sample gives 0 in both.
- ValidateSignal: Python's `bool` is a subclass of `int`, so the source
  accepts `[true, false]` as a list of numbers. The model refuses booleans
  with the list message.
- ValidateSignal, SignalZeroCrossing: CPython 3.11 and later refuse an
  integer literal of more than 4300 digits in `json.loads`, which the
  source reports with the JSON message. The model has no such limit and
  accepts it.
- ValidateSignal, SignalZeroCrossing: Python's JSON scanner recurses at
  every `[` and `{`, so a text nested deeper than the interpreter's
  recursion limit raises `RecursionError`. The handler of
  `validate_signal` does not catch it, so it surfaces as a server error,
  and the count fails with that exception. The model has no depth limit:
  such a text gets one of the two messages, or fails the count as
  malformed or not a list of numbers.
- ValidateSignal, SignalZeroCrossing: Python's `json.loads` also takes
  `NaN`, `Infinity` and `-Infinity`. The model follows RFC 8259 and refuses
  them.
- Json: string escapes are checked but not decoded. The model keeps string
  contents raw, since a string is never a number and no contract here
  depends on its contents.
- Counts, GetZeroCrossingCount: a failing lead raises an exception in the
  source. The model returns the error of the first failing lead instead.
- HasUppercase: only `A` to `Z` are uppercase. Python's `str.isupper` also
  accepts other uppercase Unicode letters.
- Login, LoginData.Validate: DRF's field checks, which run before
  `validate`, are not modelled. They make `password` required and refuse
  blank strings. The tests that omit the password are refused by that
  field check and never reach `validate`.
- FieldErrors: Django's `unique` checks on `username` and `email`, the
  email field's blank and format checks, the `null` option and the order in
  which Django lists the errors are not modelled. The errors are a set, and
  a blank error carries no message text.
- The ECG record's creation date and the `num_samples` field's integer
  parsing are not modelled. The `ECGResponseSerializer` (its key
  `zero_crossings_count` differs from the `zero_crossing_count` the
  operations build) is not part of this model.

## Findings

| source | as written | input that shows it | evidently intended | confidence | as-written member | corrected member |
|---|---|---|---|---|---|---|
| ecg/app/connector/models.py:8-11 | the pattern `^[a-zA-Z0-9_-]+$` is applied with Python's `re.search`, where `$` also matches before a final newline | `user\n` is accepted as a username | only letters, digits, `_` and `-`, as the message says (`\Z` in place of `$`) | not executed | Models.UsernameMatchesAsWritten, Models.TrailingNewlineAccepted | Models.UsernameMatches, Models.UsernameError, Models.UsernameRule, Models.FieldErrors |
