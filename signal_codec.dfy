/** The signal text of a lead: a JSON array of numbers such as
    `[1, 2, 3, -4, 2, -6]` or `[1, 2.5, -3]`. Decoding is `json.loads`
    followed by the list-of-numbers shape test; the samples come out as
    exact reals. Encoding writes decimal literals the way `json.dumps`
    lays out a list, and decoding what it writes gives the samples back. */
module SignalCodec {
  import opened Wrappers
  import opened Decimal
  import opened Json

  /** Why a signal text does not decode: it is not JSON at all, or it is
      JSON but not an array whose every element is a number. */
  datatype SignalError = Malformed | NotListOfNumbers

  /** The exact value of a JSON number `mantissa * 10^scale`. */
  function NumberValue(mantissa: int, scale: int): real {
    if scale >= 0 then (mantissa * Pow10(scale)) as real
    else mantissa as real / Pow10(-scale) as real
  }

  predicate AllNumbers(vs: seq<Value>) {
    forall i | 0 <= i < |vs| :: vs[i].Number?
  }

  /** True of exactly the JSON texts the source accepts as a signal. */
  predicate IsNumberList(text: string) {
    var v := Parse(text);
    v.Some? && v.value.Array? && AllNumbers(v.value.elements)
  }

  function Values(vs: seq<Value>): (r: seq<real>)
    requires AllNumbers(vs)
    ensures |r| == |vs|
    ensures forall i | 0 <= i < |vs| :: r[i] == NumberValue(vs[i].mantissa, vs[i].scale)
  {
    seq(|vs|, i requires 0 <= i < |vs| => NumberValue(vs[i].mantissa, vs[i].scale))
  }

  /** `json.loads` of a signal text, kept only when it is a list of numbers. */
  function Decode(text: string): (r: Result<seq<real>, SignalError>)
    ensures r.Ok? <==> IsNumberList(text)
    ensures r == Err(Malformed) <==> Parse(text).None?
    ensures r.Ok? ==> r.value == Values(Parse(text).value.elements)
  {
    match Parse(text)
    case None => Err(Malformed)
    case Some(v) =>
      if v.Array? && AllNumbers(v.elements) then Ok(Values(v.elements)) else Err(NotListOfNumbers)
  }

  // ---------------------------------------------------------------------
  // Encoding, the inverse of Decode on lists of decimal literals.

  /** A decimal literal: optional minus sign, whole part, optional fraction digits. */
  datatype Sample = Sample(negative: bool, whole: nat, fraction: string)

  predicate ValidSample(d: Sample) {
    AllDigits(d.fraction)
  }

  function SampleValue(d: Sample): real
  {
    var magnitude := d.whole as real + DigitsValue(d.fraction) as real / Pow10(|d.fraction|) as real;
    if d.negative then -magnitude else magnitude
  }

  function SampleText(d: Sample): string {
    Sign(d.negative) + Literal(NatToString(d.whole), d.fraction)
  }

  function Sign(negative: bool): string {
    if negative then "-" else ""
  }

  /** The samples written one after another, separated by `sep`. */
  function Join(ds: seq<Sample>, sep: string): string {
    if ds == [] then ""
    else if |ds| == 1 then SampleText(ds[0])
    else SampleText(ds[0]) + sep + Join(ds[1..], sep)
  }

  /** A signal text: `json.dumps` of the list lays it out with separator
      `", "`; any whitespace may follow each comma. */
  function Encode(ds: seq<Sample>, gap: string): string {
    "[" + Join(ds, "," + gap) + "]"
  }

  function SampleValues(ds: seq<Sample>): (r: seq<real>)
    ensures |r| == |ds| && forall i | 0 <= i < |ds| :: r[i] == SampleValue(ds[i])
  {
    seq(|ds|, i requires 0 <= i < |ds| => SampleValue(ds[i]))
  }

  /** Decoding an encoded list of decimal literals gives back their values. */
  lemma EncodeDecode(ds: seq<Sample>, gap: string)
    requires forall i | 0 <= i < |ds| :: ValidSample(ds[i])
    requires AllWs(gap)
    ensures Decode(Encode(ds, gap)) == Ok(SampleValues(ds))
  {
    ParseEncode(ds, gap);
    var es := Numbers(ds);
    assert Values(es) == SampleValues(ds) by {
      forall i | 0 <= i < |ds| ensures Values(es)[i] == SampleValues(ds)[i] {
        SampleNumberValue(ds[i]);
      }
    }
  }

  /** The parser reads an encoded list as the array of its literals' numbers. */
  lemma ParseEncode(ds: seq<Sample>, gap: string)
    requires forall i | 0 <= i < |ds| :: ValidSample(ds[i])
    requires AllWs(gap)
    ensures Parse(Encode(ds, gap)) == Some(Array(Numbers(ds)))
  {
    var s := Encode(ds, gap);
    assert SkipWs(s) == s by {
      SkipWsPrefix("", s);
    }
    if ds == [] {
      assert s == "[]";
      ParseEmptyArray();
    } else {
      ParseArrayValue(ds, gap);
    }
    SkipWsPrefix("", "");
  }

  lemma ParseEmptyArray()
    ensures ParseValue("[]") == Some(Parsed(Array([]), ""))
  {
    SkipWsPrefix("", "]");
    assert "[]"[1..] == "]";
  }

  /** The text of a non-empty list read as one value. */
  lemma ParseArrayValue(ds: seq<Sample>, gap: string)
    requires ds != [] && forall i | 0 <= i < |ds| :: ValidSample(ds[i])
    requires AllWs(gap)
    ensures ParseValue(Encode(ds, gap)) == Some(Parsed(Array(Numbers(ds)), ""))
  {
    var s := Encode(ds, gap);
    var body := Join(ds, "," + gap) + "]";
    assert s[1..] == body && s[0] == '[';
    JoinFirst(ds, "," + gap, "]");
    SkipWsPrefix("", body);
    assert body[0] != ']' by {
      SampleTextStart(ds[0]);
    }
    ParseElementsJoin(ds, gap, "", []);
    assert body + "" == body;
    assert [] + Numbers(ds) == Numbers(ds);
  }

  // ---------------------------------------------------------------------
  // Helpers for EncodeDecode.

  function SampleMantissa(d: Sample): int
  {
    var m: int := DigitsValue(NatToString(d.whole) + d.fraction);
    if d.negative then -m else m
  }

  /** The JSON number the parser reads from the literal of a sample. */
  function SampleNumber(d: Sample): Value
  {
    Number(SampleMantissa(d), -|d.fraction|)
  }

  function Numbers(ds: seq<Sample>): (r: seq<Value>)
    ensures |r| == |ds| && forall i | 0 <= i < |ds| :: r[i] == SampleNumber(ds[i])
  {
    seq(|ds|, i requires 0 <= i < |ds| => SampleNumber(ds[i]))
  }

  lemma SampleNumberValue(d: Sample)
    ensures NumberValue(SampleMantissa(d), -|d.fraction|) == SampleValue(d)
  {
    var k := |d.fraction|;
    var f := DigitsValue(d.fraction);
    var m: int := DigitsValue(NatToString(d.whole) + d.fraction);
    assert m == d.whole * Pow10(k) + f by {
      DigitsValueAppend(NatToString(d.whole), d.fraction);
      NatToStringRoundTrip(d.whole);
    }
    ScaledValue(d.whole, f, k);
    if d.negative {
      NegatedValue(m, -k);
    }
  }

  /** `(whole * 10^k + f) * 10^-k` is `whole + f / 10^k`. */
  lemma ScaledValue(whole: int, f: int, k: nat)
    ensures NumberValue(whole * Pow10(k) + f, -(k as int)) == whole as real + f as real / Pow10(k) as real
  {
    var p := Pow10(k);
    if k == 0 {
      assert p == 1;
    } else {
      CastProduct(whole, p);
      DivideSum(whole as real, f as real, p as real);
    }
  }

  lemma NegatedValue(m: int, scale: int)
    ensures NumberValue(-m, scale) == -NumberValue(m, scale)
  {
    if scale < 0 {
      NegateDivide(m as real, Pow10(-scale) as real);
    }
  }

  lemma CastProduct(x: int, y: int)
    ensures (x * y) as real == x as real * y as real
  {
  }

  lemma DivideSum(x: real, y: real, p: real)
    requires p > 0.0
    ensures (x * p + y) / p == x + y / p
  {
  }

  lemma NegateDivide(x: real, p: real)
    requires p > 0.0
    ensures (-x) / p == -(x / p)
  {
  }

  /** The first character of a literal is a minus sign or a digit. */
  lemma SampleTextStart(d: Sample)
    ensures |SampleText(d)| >= 1
    ensures SampleText(d)[0] == '-' || IsDigit(SampleText(d)[0])
  {
  }

  lemma JoinStartsWithSample(ds: seq<Sample>, sep: string)
    requires ds != []
    ensures |Join(ds, sep)| >= |SampleText(ds[0])|
    ensures Join(ds, sep)[..|SampleText(ds[0])|] == SampleText(ds[0])
  {
  }

  lemma NumbersCons(ds: seq<Sample>, acc: seq<Value>)
    requires ds != []
    ensures acc + [SampleNumber(ds[0])] + Numbers(ds[1..]) == acc + Numbers(ds)
  {
    assert [SampleNumber(ds[0])] + Numbers(ds[1..]) == Numbers(ds);
  }

  lemma {:induction false} SkipWsPrefix(gap: string, x: string)
    requires AllWs(gap)
    requires x != [] ==> !IsWs(x[0])
    ensures SkipWs(gap + x) == x
  {
    WsCountPrefix(gap, x);
    assert (gap + x)[|gap|..] == x;
  }

  lemma {:induction false} WsCountPrefix(gap: string, x: string)
    requires AllWs(gap)
    requires x != [] ==> !IsWs(x[0])
    ensures WsCount(gap + x) == |gap|
    decreases |gap|
  {
    if gap == [] {
      assert gap + x == x;
    } else {
      assert (gap + x)[1..] == gap[1..] + x;
      WsCountPrefix(gap[1..], x);
    }
  }

  /** A character that cannot continue a number. */
  predicate EndsNumber(c: char) {
    !IsDigit(c) && c != '.' && c != 'e' && c != 'E'
  }

  /** The parser reads the literal of a sample back as its number. */
  lemma ParseSample(d: Sample, tail: string)
    requires ValidSample(d)
    requires tail != [] && EndsNumber(tail[0])
    ensures ParseValue(SampleText(d) + tail) == Some(Parsed(SampleNumber(d), tail))
  {
    ParseNumberSample(d, tail);
    SampleTextStart(d);
    ParseValueOfNumber(SampleText(d) + tail);
  }

  /** A value that starts with a minus sign or a digit is a number. */
  lemma ParseValueOfNumber(s: string)
    requires s != [] && (s[0] == '-' || IsDigit(s[0]))
    ensures ParseValue(s) == ParseNumber(s)
  {
  }

  lemma ParseNumberSample(d: Sample, tail: string)
    requires ValidSample(d)
    requires tail != [] && EndsNumber(tail[0])
    ensures ParseNumber(SampleText(d) + tail) == Some(Parsed(SampleNumber(d), tail))
  {
    ParseNumberLiteral(d.negative, NatToString(d.whole), d.fraction, tail);
    SampleMantissaDigits(d);
  }

  lemma SampleMantissaDigits(d: Sample)
    ensures NumberOf(NumberText(d.negative, NatToString(d.whole) + d.fraction, |d.fraction|, false, ""))
         == SampleNumber(d)
  {
  }

  /** The parser reads a literal given by its sign, integer part and fraction. */
  lemma ParseNumberLiteral(negative: bool, w: string, fraction: string, tail: string)
    requires |w| >= 1 && AllDigits(w) && (w[0] == '0' ==> |w| == 1)
    requires AllDigits(fraction)
    requires tail != [] && EndsNumber(tail[0])
    ensures ParseNumber(Sign(negative) + Literal(w, fraction) + tail)
         == Some(Parsed(NumberOf(NumberText(negative, w + fraction, |fraction|, false, "")), tail))
  {
    var x := Literal(w, fraction) + tail;
    var s := Sign(negative) + Literal(w, fraction) + tail;
    var start := NumberText(false, "", 0, false, "");
    ScanLiteral(w, fraction, tail, start.(negative := negative));
    if negative {
      assert s[0] == '-' && s[1..] == x;
    } else {
      assert s == x;
    }
  }

  /** An integer part `w` without leading zeros and optional fraction digits. */
  function Literal(w: string, fraction: string): string {
    w + (if fraction == "" then "" else "." + fraction)
  }

  /** The recognizer reads a literal from the start of its integer part. */
  lemma ScanLiteral(w: string, fraction: string, tail: string, n: NumberText)
    requires |w| >= 1 && AllDigits(w) && (w[0] == '0' ==> |w| == 1)
    requires AllDigits(fraction)
    requires tail != [] && EndsNumber(tail[0])
    requires n.digits == "" && n.fractionLength == 0
    ensures Literal(w, fraction) + tail != [] && IsDigit((Literal(w, fraction) + tail)[0])
    ensures ScanNumber(Literal(w, fraction) + tail, IntStart, n)
         == Some(Parsed(NumberOf(n.(digits := w + fraction, fractionLength := |fraction|)), tail))
  {
    var f := if fraction == "" then "" else "." + fraction;
    var s := Literal(w, fraction) + tail;
    assert s == w + (f + tail);
    if w[0] == '0' {
      ScanLeadingZero(w, f + tail, n);
      ScanFraction(Zero, fraction, tail, n.(digits := [w[0]]));
    } else {
      ScanIntegerPart(w, f + tail, n);
      ScanFraction(IntDigits, fraction, tail, n.(digits := w));
    }
  }

  /** An integer part that is a lone `0`. */
  lemma ScanLeadingZero(w: string, rest: string, n: NumberText)
    requires w == "0"
    requires n.digits == ""
    ensures ScanNumber(w + rest, IntStart, n) == ScanNumber(rest, Zero, n.(digits := w))
  {
    assert (w + rest)[1..] == rest;
    assert n.digits + [w[0]] == w;
  }

  /** An integer part that starts with a non-zero digit. */
  lemma ScanIntegerPart(w: string, rest: string, n: NumberText)
    requires |w| >= 1 && AllDigits(w) && w[0] != '0'
    requires n.digits == ""
    ensures ScanNumber(w + rest, IntStart, n) == ScanNumber(rest, IntDigits, n.(digits := w))
  {
    var n1 := n.(digits := [w[0]]);
    assert n.digits + [w[0]] == [w[0]];
    assert (w + rest)[1..] == w[1..] + rest;
    assert ScanNumber(w + rest, IntStart, n) == ScanNumber(w[1..] + rest, IntDigits, n1);
    ScanDigits(IntDigits, w[1..], rest, n1);
    assert n1.digits + w[1..] == w;
  }

  /** After the integer part: the optional fraction, then the end of the number. */
  lemma ScanFraction(q: NumberState, fraction: string, tail: string, n: NumberText)
    requires q == Zero || q == IntDigits
    requires AllDigits(fraction)
    requires tail != [] && EndsNumber(tail[0])
    ensures ScanNumber((if fraction == "" then "" else "." + fraction) + tail, q, n)
         == Some(Parsed(NumberOf(n.(digits := n.digits + fraction,
                                    fractionLength := n.fractionLength + |fraction|)), tail))
  {
    if fraction == "" {
      assert "" + tail == tail;
      assert n.digits + fraction == n.digits;
    } else {
      ScanPointFraction(q, fraction, tail, n);
    }
  }

  /** A decimal point, a non-empty run of digits, then the end of the number. */
  lemma ScanPointFraction(q: NumberState, fraction: string, tail: string, n: NumberText)
    requires q == Zero || q == IntDigits
    requires fraction != [] && AllDigits(fraction)
    requires tail != [] && EndsNumber(tail[0])
    ensures ScanNumber("." + fraction + tail, q, n)
         == Some(Parsed(NumberOf(n.(digits := n.digits + fraction,
                                    fractionLength := n.fractionLength + |fraction|)), tail))
  {
    var s := "." + fraction + tail;
    var n1 := n.(digits := n.digits + [fraction[0]], fractionLength := n.fractionLength + 1);
    assert s[1..] == fraction + tail;
    assert s[1..][1..] == fraction[1..] + tail;
    assert ScanNumber(s, q, n) == ScanNumber(fraction[1..] + tail, FracDigits, n1);
    ScanDigits(FracDigits, fraction[1..], tail, n1);
    assert n1.digits + fraction[1..] == n.digits + fraction;
    ScanEnd(FracDigits, tail, n1.(digits := n.digits + fraction, fractionLength := n1.fractionLength + |fraction[1..]|));
  }

  /** A run of digits inside int or frac is read into the digits of the number. */
  lemma {:induction false} ScanDigits(q: NumberState, u: string, rest: string, n: NumberText)
    requires q == IntDigits || q == FracDigits
    requires AllDigits(u)
    ensures ScanNumber(u + rest, q, n)
         == ScanNumber(rest, q, n.(digits := n.digits + u,
                                   fractionLength := n.fractionLength + if q == FracDigits then |u| else 0))
    decreases |u|
  {
    if u == [] {
      assert u + rest == rest;
      assert n.digits + u == n.digits;
    } else {
      var n1 := if q == FracDigits then n.(digits := n.digits + [u[0]], fractionLength := n.fractionLength + 1)
                else n.(digits := n.digits + [u[0]]);
      assert (u + rest)[1..] == u[1..] + rest;
      ScanDigits(q, u[1..], rest, n1);
      assert n1.digits + u[1..] == n.digits + u;
    }
  }

  /** A character that cannot continue a number ends it. */
  lemma ScanEnd(q: NumberState, tail: string, n: NumberText)
    requires q == Zero || q == IntDigits || q == FracDigits
    requires tail != [] && EndsNumber(tail[0])
    ensures ScanNumber(tail, q, n) == Some(Parsed(NumberOf(n), tail))
  {
  }

  /** The parser reads a non-empty joined list and the `]` after it as the
      array of the samples' numbers, appended to what it has read so far. */
  lemma {:induction false} ParseElementsJoin(ds: seq<Sample>, gap: string, tail: string, acc: seq<Value>)
    requires ds != [] && forall i | 0 <= i < |ds| :: ValidSample(ds[i])
    requires AllWs(gap)
    ensures ParseElements(Join(ds, "," + gap) + "]" + tail, acc)
         == Some(Parsed(Array(acc + Numbers(ds)), tail))
    decreases |ds|
  {
    if |ds| == 1 {
      JoinSingle(ds, "," + gap, tail);
      ElementsLast(ds[0], tail, acc);
      assert acc + [SampleNumber(ds[0])] == acc + Numbers(ds);
    } else {
      JoinSplit(ds, gap, tail);
      ElementsNext(ds[0], gap, Join(ds[1..], "," + gap) + "]" + tail, acc);
      ParseElementsJoin(ds[1..], gap, tail, acc + [SampleNumber(ds[0])]);
      NumbersCons(ds, acc);
    }
  }

  lemma JoinSingle(ds: seq<Sample>, sep: string, tail: string)
    requires |ds| == 1
    ensures Join(ds, sep) + "]" + tail == SampleText(ds[0]) + ("]" + tail)
  {
  }

  lemma JoinSplit(ds: seq<Sample>, gap: string, tail: string)
    requires |ds| >= 2
    ensures var rest := Join(ds[1..], "," + gap) + "]" + tail;
            Join(ds, "," + gap) + "]" + tail == SampleText(ds[0]) + ("," + (gap + rest))
            && rest != [] && !IsWs(rest[0])
  {
    var b := Join(ds[1..], "," + gap);
    assert Join(ds, "," + gap) == SampleText(ds[0]) + ("," + gap) + b;
    Regroup(SampleText(ds[0]), gap, b, "]" + tail);
    JoinFirst(ds[1..], "," + gap, "]" + tail);
  }

  lemma Regroup(a: string, gap: string, b: string, c: string)
    ensures a + ("," + gap) + b + c == a + ("," + (gap + (b + c)))
  {
  }

  /** A joined list followed by anything starts like its first literal. */
  lemma JoinFirst(ds: seq<Sample>, sep: string, c: string)
    requires ds != []
    ensures |Join(ds, sep) + c| > 0 && !IsWs((Join(ds, sep) + c)[0])
  {
    JoinStartsWithSample(ds, sep);
    SampleTextStart(ds[0]);
    assert (Join(ds, sep) + c)[0] == Join(ds, sep)[..|SampleText(ds[0])|][0];
  }

  /** The last element of an array, then its closing bracket. */
  lemma ElementsLast(d: Sample, tail: string, acc: seq<Value>)
    requires ValidSample(d)
    ensures ParseElements(SampleText(d) + ("]" + tail), acc)
         == Some(Parsed(Array(acc + [SampleNumber(d)]), tail))
  {
    ParseSample(d, "]" + tail);
    ParseElementsStep(SampleText(d) + ("]" + tail), acc, SampleNumber(d), "]" + tail);
    assert ("]" + tail)[1..] == tail;
  }

  /** An element followed by a comma and whitespace: the parser goes on
      with the text after them. */
  lemma ElementsNext(d: Sample, gap: string, rest: string, acc: seq<Value>)
    requires ValidSample(d)
    requires AllWs(gap)
    requires rest != [] && !IsWs(rest[0])
    ensures ParseElements(SampleText(d) + ("," + (gap + rest)), acc)
         == ParseElements(rest, acc + [SampleNumber(d)])
  {
    var q := "," + (gap + rest);
    ParseSample(d, q);
    ParseElementsStep(SampleText(d) + q, acc, SampleNumber(d), q);
    assert q[1..] == gap + rest;
    SkipWsPrefix(gap, rest);
  }

  /** One step of ParseElements: a value, then `]` or `,`. */
  lemma ParseElementsStep(s: string, acc: seq<Value>, v: Value, q: string)
    requires ParseValue(s) == Some(Parsed(v, q))
    requires q != [] && !IsWs(q[0])
    ensures q[0] == ']' ==> ParseElements(s, acc) == Some(Parsed(Array(acc + [v]), q[1..]))
    ensures q[0] == ',' ==> ParseElements(s, acc) == ParseElements(SkipWs(q[1..]), acc + [v])
  {
    assert WsCount(q) == 0;
    assert SkipWs(q) == q;
  }

  // ---------------------------------------------------------------------
  // The signal texts of the tests, as encodings of their literals.

  /** A list of two or more literals: the first, the separator, the rest. */
  lemma JoinStep(d: Sample, rest: seq<Sample>, sep: string)
    requires rest != []
    ensures Join([d] + rest, sep) == SampleText(d) + sep + Join(rest, sep)
  {
    assert ([d] + rest)[1..] == rest;
  }

  /** The signal of the operations tests decodes to its six samples. */
  lemma IntegerSignalDecodes(text: string)
    requires text == "[1, 2, 3, -4, 2, -6]"
    ensures Decode(text) == Ok([1.0, 2.0, 3.0, -4.0, 2.0, -6.0])
  {
    var ds := IntegerSamples();
    IntegerSignalText(ds[0], ds[1], ds[2], ds[3], ds[4], ds[5]);
    EncodeDecode(ds, " ");
    IntegerSampleValues();
  }

  function IntegerSamples(): (ds: seq<Sample>)
    ensures |ds| == 6 && ds == [ds[0], ds[1], ds[2], ds[3], ds[4], ds[5]]
    ensures ds[0] == Sample(false, 1, "") && ds[1] == Sample(false, 2, "") && ds[2] == Sample(false, 3, "")
    ensures ds[3] == Sample(true, 4, "") && ds[4] == Sample(false, 2, "") && ds[5] == Sample(true, 6, "")
  {
    [Sample(false, 1, ""), Sample(false, 2, ""), Sample(false, 3, ""),
     Sample(true, 4, ""), Sample(false, 2, ""), Sample(true, 6, "")]
  }

  lemma IntegerSampleValues()
    ensures SampleValues(IntegerSamples()) == [1.0, 2.0, 3.0, -4.0, 2.0, -6.0]
  {
  }

  /** The signal of the serializer tests, with two decimal samples, decodes
      to its eight samples. */
  lemma MixedSignalDecodes(text: string)
    requires text == "[1, 2, 3, -4, 2, -6, -4.3, 4.2]"
    ensures Decode(text) == Ok([1.0, 2.0, 3.0, -4.0, 2.0, -6.0, -4.3, 4.2])
  {
    var ds := MixedSamples();
    MixedSignalText(ds[0], ds[1], ds[2], ds[3], ds[4], ds[5], ds[6], ds[7]);
    EncodeDecode(ds, " ");
    MixedSampleValues();
  }

  function MixedSamples(): (ds: seq<Sample>)
    ensures |ds| == 8 && ds == [ds[0], ds[1], ds[2], ds[3], ds[4], ds[5], ds[6], ds[7]]
    ensures ds[0] == Sample(false, 1, "") && ds[1] == Sample(false, 2, "") && ds[2] == Sample(false, 3, "")
    ensures ds[3] == Sample(true, 4, "") && ds[4] == Sample(false, 2, "") && ds[5] == Sample(true, 6, "")
    ensures ds[6] == Sample(true, 4, "3") && ds[7] == Sample(false, 4, "2")
    ensures forall i | 0 <= i < |ds| :: ValidSample(ds[i])
  {
    [Sample(false, 1, ""), Sample(false, 2, ""), Sample(false, 3, ""),
     Sample(true, 4, ""), Sample(false, 2, ""), Sample(true, 6, ""),
     Sample(true, 4, "3"), Sample(false, 4, "2")]
  }

  lemma MixedSampleValues()
    ensures SampleValues(MixedSamples()) == [1.0, 2.0, 3.0, -4.0, 2.0, -6.0, -4.3, 4.2]
  {
  }

  /** `[1, 2, 3, -4, 2, -6]` is the encoding of its six integer literals. */
  lemma IntegerSignalText(a: Sample, b: Sample, c: Sample, d: Sample, e: Sample, f: Sample)
    requires a == Sample(false, 1, "") && b == Sample(false, 2, "") && c == Sample(false, 3, "")
    requires d == Sample(true, 4, "") && e == Sample(false, 2, "") && f == Sample(true, 6, "")
    ensures Encode([a, b, c, d, e, f], " ") == "[1, 2, 3, -4, 2, -6]"
  {
    var sep := "," + " ";
    assert SampleText(a) == "1" && SampleText(b) == "2" && SampleText(c) == "3";
    assert SampleText(d) == "-4" && SampleText(e) == "2" && SampleText(f) == "-6";
    JoinStep(e, [f], sep);
    assert [e] + [f] == [e, f];
    JoinStep(d, [e, f], sep);
    assert [d] + [e, f] == [d, e, f];
    JoinStep(c, [d, e, f], sep);
    assert [c] + [d, e, f] == [c, d, e, f];
    JoinStep(b, [c, d, e, f], sep);
    assert [b] + [c, d, e, f] == [b, c, d, e, f];
    JoinStep(a, [b, c, d, e, f], sep);
    assert [a] + [b, c, d, e, f] == [a, b, c, d, e, f];
    IntegerSignalGlue(sep);
  }

  lemma IntegerSignalGlue(sep: string)
    requires sep == ", "
    ensures "[" + ("1" + sep + ("2" + sep + ("3" + sep + ("-4" + sep + ("2" + sep + "-6"))))) + "]"
         == "[1, 2, 3, -4, 2, -6]"
  {
  }

  /** `[1, 2, 3, -4, 2, -6, -4.3, 4.2]` is the encoding of its eight
      literals, two of them with a fraction. */
  lemma MixedSignalText(a: Sample, b: Sample, c: Sample, d: Sample, e: Sample, f: Sample,
                        g: Sample, h: Sample)
    requires a == Sample(false, 1, "") && b == Sample(false, 2, "") && c == Sample(false, 3, "")
    requires d == Sample(true, 4, "") && e == Sample(false, 2, "") && f == Sample(true, 6, "")
    requires g == Sample(true, 4, "3") && h == Sample(false, 4, "2")
    ensures Encode([a, b, c, d, e, f, g, h], " ") == "[1, 2, 3, -4, 2, -6, -4.3, 4.2]"
  {
    var sep := "," + " ";
    MixedSignalJoin(a, b, c, d, e, f, g, h, sep);
    assert SampleText(a) == "1" && SampleText(b) == "2" && SampleText(c) == "3";
    assert SampleText(d) == "-4" && SampleText(e) == "2" && SampleText(f) == "-6";
    assert SampleText(g) == "-4.3" && SampleText(h) == "4.2";
    MixedSignalGlue(sep);
  }

  lemma MixedSignalJoin(a: Sample, b: Sample, c: Sample, d: Sample, e: Sample, f: Sample,
                        g: Sample, h: Sample, sep: string)
    ensures Join([a, b, c, d, e, f, g, h], sep)
         == SampleText(a) + sep + (SampleText(b) + sep + (SampleText(c) + sep + (SampleText(d) + sep
          + (SampleText(e) + sep + (SampleText(f) + sep + (SampleText(g) + sep + SampleText(h)))))))
  {
    MixedSignalJoinMiddle(c, d, e, f, g, h, sep);
    JoinStep(b, [c, d, e, f, g, h], sep);
    assert [b] + [c, d, e, f, g, h] == [b, c, d, e, f, g, h];
    JoinStep(a, [b, c, d, e, f, g, h], sep);
    assert [a] + [b, c, d, e, f, g, h] == [a, b, c, d, e, f, g, h];
  }

  lemma MixedSignalJoinMiddle(c: Sample, d: Sample, e: Sample, f: Sample, g: Sample, h: Sample, sep: string)
    ensures Join([c, d, e, f, g, h], sep)
         == SampleText(c) + sep + (SampleText(d) + sep
          + (SampleText(e) + sep + (SampleText(f) + sep + (SampleText(g) + sep + SampleText(h)))))
  {
    MixedSignalJoinTail(e, f, g, h, sep);
    JoinStep(d, [e, f, g, h], sep);
    assert [d] + [e, f, g, h] == [d, e, f, g, h];
    JoinStep(c, [d, e, f, g, h], sep);
    assert [c] + [d, e, f, g, h] == [c, d, e, f, g, h];
  }

  lemma MixedSignalJoinTail(e: Sample, f: Sample, g: Sample, h: Sample, sep: string)
    ensures Join([e, f, g, h], sep)
         == SampleText(e) + sep + (SampleText(f) + sep + (SampleText(g) + sep + SampleText(h)))
  {
    JoinStep(g, [h], sep);
    assert [g] + [h] == [g, h];
    JoinStep(f, [g, h], sep);
    assert [f] + [g, h] == [f, g, h];
    JoinStep(e, [f, g, h], sep);
    assert [e] + [f, g, h] == [e, f, g, h];
  }

  lemma MixedSignalGlue(sep: string)
    requires sep == ", "
    ensures "[" + ("1" + sep + ("2" + sep + ("3" + sep + ("-4" + sep + ("2" + sep + ("-6" + sep
          + ("-4.3" + sep + "4.2"))))))) + "]"
         == "[1, 2, 3, -4, 2, -6, -4.3, 4.2]"
  {
  }
}
