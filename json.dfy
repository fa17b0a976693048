/** The JSON text grammar of RFC 8259 (sections 2 to 7), as Python's
    `json.loads` reads it in its default strict mode: a value surrounded by
    optional whitespace, nothing after it. A parse either yields the value
    or fails; the reason for a failure is not modelled.

    Each parsing function takes the input that is still unread and returns
    the value it read together with what is left after it.

    Strings keep their escaped source text (`raw`): the validators only ask
    whether a value is a string, never what it says. Numbers keep their
    exact decimal meaning as `mantissa * 10^scale`. */
module Json {
  import opened Wrappers
  import opened Decimal

  datatype Value =
    | Null
    | Bool(b: bool)
    | Number(mantissa: int, scale: int)
    | Str(raw: string)
    | Array(elements: seq<Value>)
    | Object(members: seq<Member>)

  datatype Member = Member(key: string, value: Value)

  /** A value read from the front of the input, and the input left after it. */
  datatype Parsed = Parsed(value: Value, rest: string)

  /** Insignificant whitespace, section 2 of RFC 8259. */
  predicate IsWs(c: char) {
    c == ' ' || c == '\t' || c == '\n' || c == '\r'
  }

  predicate AllWs(s: string) {
    forall i | 0 <= i < |s| :: IsWs(s[i])
  }

  /** How many whitespace characters the input starts with. */
  function WsCount(s: string): (n: nat)
    ensures n <= |s|
    ensures n < |s| ==> !IsWs(s[n])
  {
    if s != [] && IsWs(s[0]) then WsCount(s[1..]) + 1 else 0
  }

  /** The input after its leading whitespace. */
  function SkipWs(s: string): (r: string)
    ensures |r| <= |s|
    ensures r != [] ==> !IsWs(r[0])
  {
    s[WsCount(s)..]
  }

  predicate IsHexDigit(c: char) {
    IsDigit(c) || 'a' <= c <= 'f' || 'A' <= c <= 'F'
  }

  /** Where the number recognizer stands, section 6 of RFC 8259:
      number = [ minus ] int [ frac ] [ exp ], int = zero / ( digit1-9 *DIGIT ),
      frac = decimal-point 1*DIGIT, exp = e [ minus / plus ] 1*DIGIT. */
  datatype NumberState =
    | IntStart    // the first digit of int is due
    | Zero        // int is a lone 0
    | IntDigits   // inside int, after a non-zero first digit
    | Point       // after the decimal point: a digit is due
    | FracDigits  // inside frac
    | ExpStart    // after e or E: a sign or a digit is due
    | ExpSign     // after the sign of the exponent: a digit is due
    | ExpDigits   // inside the digits of the exponent

  /** What the recognizer has read so far: the sign, the digits of int and
      frac together, how many of them belong to frac, and the exponent. */
  datatype NumberText = NumberText(negative: bool, digits: string, fractionLength: nat,
                                   expNegative: bool, expDigits: string)

  /** The number the text read denotes, as `mantissa * 10^scale`. */
  function NumberOf(n: NumberText): Value {
    var m: int := DigitsValue(n.digits);
    var e: int := DigitsValue(n.expDigits);
    Number(if n.negative then -m else m, (if n.expNegative then -e else e) - n.fractionLength)
  }

  predicate Accepting(q: NumberState) {
    q == Zero || q == IntDigits || q == FracDigits || q == ExpDigits
  }

  /** Reads the rest of a number one character at a time. A number ends at
      the first character that cannot continue it, and only in an accepting
      state; a decimal point without digits after it, or an exponent marker
      without digits, makes the text no number at all. */
  function ScanNumber(s: string, q: NumberState, n: NumberText): (r: Option<Parsed>)
    ensures r.Some? ==> |r.value.rest| <= |s| && r.value.value.Number?
    ensures r.Some? && !Accepting(q) ==> |r.value.rest| < |s|
    decreases |s|
  {
    var c := if s == [] then ' ' else s[0];
    var more := s != [];
    match q
    case IntStart =>
      if more && c == '0' then ScanNumber(s[1..], Zero, n.(digits := n.digits + [c]))
      else if more && IsDigit(c) then ScanNumber(s[1..], IntDigits, n.(digits := n.digits + [c]))
      else None
    case Zero =>
      if more && c == '.' then ScanNumber(s[1..], Point, n)
      else if more && (c == 'e' || c == 'E') then ScanNumber(s[1..], ExpStart, n)
      else Some(Parsed(NumberOf(n), s))
    case IntDigits =>
      if more && IsDigit(c) then ScanNumber(s[1..], IntDigits, n.(digits := n.digits + [c]))
      else if more && c == '.' then ScanNumber(s[1..], Point, n)
      else if more && (c == 'e' || c == 'E') then ScanNumber(s[1..], ExpStart, n)
      else Some(Parsed(NumberOf(n), s))
    case Point =>
      if more && IsDigit(c) then
        ScanNumber(s[1..], FracDigits, n.(digits := n.digits + [c], fractionLength := n.fractionLength + 1))
      else None
    case FracDigits =>
      if more && IsDigit(c) then
        ScanNumber(s[1..], FracDigits, n.(digits := n.digits + [c], fractionLength := n.fractionLength + 1))
      else if more && (c == 'e' || c == 'E') then ScanNumber(s[1..], ExpStart, n)
      else Some(Parsed(NumberOf(n), s))
    case ExpStart =>
      if more && (c == '-' || c == '+') then ScanNumber(s[1..], ExpSign, n.(expNegative := c == '-'))
      else if more && IsDigit(c) then ScanNumber(s[1..], ExpDigits, n.(expDigits := n.expDigits + [c]))
      else None
    case ExpSign =>
      if more && IsDigit(c) then ScanNumber(s[1..], ExpDigits, n.(expDigits := n.expDigits + [c]))
      else None
    case ExpDigits =>
      if more && IsDigit(c) then ScanNumber(s[1..], ExpDigits, n.(expDigits := n.expDigits + [c]))
      else Some(Parsed(NumberOf(n), s))
  }

  /** A number, from its optional minus sign on. */
  function ParseNumber(s: string): (r: Option<Parsed>)
    ensures r.Some? ==> |r.value.rest| < |s| && r.value.value.Number?
  {
    var start := NumberText(false, "", 0, false, "");
    if s != [] && s[0] == '-' then ScanNumber(s[1..], IntStart, start.(negative := true))
    else ScanNumber(s, IntStart, start)
  }

  predicate IsEscapable(c: char) {
    c in "\"\\/bfnrt"
  }

  /** Section 7 of RFC 8259, from just after the opening quotation mark:
      the input after the closing one. Control characters must be escaped,
      and `\u` takes exactly four hexadecimal digits. */
  function StringRest(s: string): (r: Option<string>)
    ensures r.Some? ==> |r.value| < |s|
  {
    if s == [] then None
    else if s[0] == '"' then Some(s[1..])
    else if s[0] == '\\' then
      if |s| > 1 && IsEscapable(s[1]) then StringRest(s[2..])
      else if |s| > 5 && s[1] == 'u' && IsHexDigit(s[2]) && IsHexDigit(s[3])
              && IsHexDigit(s[4]) && IsHexDigit(s[5]) then StringRest(s[6..])
      else None
    else if s[0] < ' ' then None
    else StringRest(s[1..])
  }

  /** A string, from just after its opening quotation mark. */
  function ParseString(s: string): (r: Option<Parsed>)
    ensures r.Some? ==> |r.value.rest| < |s| && r.value.value.Str?
  {
    match StringRest(s)
    case None => None
    case Some(rest) => Some(Parsed(Str(s[..|s| - |rest| - 1]), rest))
  }

  function ParseWord(s: string, word: string, v: Value): (r: Option<Parsed>)
    requires |word| > 0
    ensures r.Some? ==> |r.value.rest| < |s|
  {
    if |word| <= |s| && s[..|word|] == word then Some(Parsed(v, s[|word|..])) else None
  }

  /** Section 3 of RFC 8259: one value at the front of the input (no leading
      whitespace). */
  function ParseValue(s: string): (r: Option<Parsed>)
    ensures r.Some? ==> |r.value.rest| < |s|
    decreases |s|, 1
  {
    if s == [] then None
    else if s[0] == '-' || IsDigit(s[0]) then ParseNumber(s)
    else if s[0] == '[' then
      var t := SkipWs(s[1..]);
      if t != [] && t[0] == ']' then Some(Parsed(Array([]), t[1..])) else ParseElements(t, [])
    else if s[0] == '{' then
      var t := SkipWs(s[1..]);
      if t != [] && t[0] == '}' then Some(Parsed(Object([]), t[1..])) else ParseMembers(t, [])
    else if s[0] == '"' then ParseString(s[1..])
    else if s[0] == 'n' then ParseWord(s, "null", Null)
    else if s[0] == 't' then ParseWord(s, "true", Bool(true))
    else if s[0] == 'f' then ParseWord(s, "false", Bool(false))
    else None
  }

  /** Section 5 of RFC 8259, after `[` and whitespace, when the array is not
      empty: `value *( value-separator value ) end-array`. The elements read
      so far are `acc`. */
  function ParseElements(s: string, acc: seq<Value>): (r: Option<Parsed>)
    ensures r.Some? ==> |r.value.rest| < |s|
    decreases |s|, 2
  {
    match ParseValue(s)
    case None => None
    case Some(Parsed(v, q)) =>
      var t := SkipWs(q);
      if t != [] && t[0] == ',' then ParseElements(SkipWs(t[1..]), acc + [v])
      else if t != [] && t[0] == ']' then Some(Parsed(Array(acc + [v]), t[1..]))
      else None
  }

  /** Section 4 of RFC 8259, after `{` and whitespace, when the object is not
      empty: `member *( value-separator member ) end-object`, where
      `member = string name-separator value`. The members read so far are `acc`. */
  function ParseMembers(s: string, acc: seq<Member>): (r: Option<Parsed>)
    ensures r.Some? ==> |r.value.rest| < |s|
    decreases |s|, 2
  {
    if s != [] && s[0] == '"' then
      match ParseString(s[1..])
      case None => None
      case Some(Parsed(key, q)) =>
        var c := SkipWs(q);
        if c != [] && c[0] == ':' then
          match ParseValue(SkipWs(c[1..]))
          case None => None
          case Some(Parsed(v, q')) =>
            var t := SkipWs(q');
            var m := Member(key.raw, v);
            if t != [] && t[0] == ',' then ParseMembers(SkipWs(t[1..]), acc + [m])
            else if t != [] && t[0] == '}' then Some(Parsed(Object(acc + [m]), t[1..]))
            else None
        else None
    else None
  }

  /** `json.loads(text)`: whitespace, one value, whitespace, end of text. */
  function Parse(text: string): Option<Value> {
    match ParseValue(SkipWs(text))
    case None => None
    case Some(Parsed(v, rest)) => if SkipWs(rest) == [] then Some(v) else None
  }
}
