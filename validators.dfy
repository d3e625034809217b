/** The validator of the temperature widget: checks the text the user typed
    (emptiness, lexical format, physical range), and the two display mappings
    that live beside it, the thermometer colour and the gauge fill. */
module Validators {
  import opened Decimal

  datatype Option<T> = None | Some(value: T)

  // ---------------------------------------------------------------------
  // String.prototype.trim
  // ---------------------------------------------------------------------

  /** The characters JavaScript's `trim` removes: WhiteSpace (tab, vertical
      tab, form feed, space, no-break space, byte order mark and the other
      space separators) and LineTerminator (LF, CR, U+2028, U+2029). */
  predicate IsJsWhitespace(c: char) {
    c in {'\t', '\n', '\U{B}', '\U{C}', '\r', ' ', '\U{A0}', '\U{1680}',
          '\U{2028}', '\U{2029}', '\U{202F}', '\U{205F}', '\U{3000}', '\U{FEFF}'}
    || '\U{2000}' <= c <= '\U{200A}'
  }

  predicate AllWhitespace(s: string) {
    forall i :: 0 <= i < |s| ==> IsJsWhitespace(s[i])
  }

  /** Drops the leading whitespace: what is dropped is whitespace, and what
      is kept is a suffix of `s` that does not start with whitespace. */
  function TrimStart(s: string): (r: string)
    ensures |r| <= |s| && r == s[|s| - |r|..]
    ensures AllWhitespace(s[..|s| - |r|])
    ensures r == [] || !IsJsWhitespace(r[0])
  {
    if s != [] && IsJsWhitespace(s[0]) then TrimStart(s[1..]) else s
  }

  /** Drops the trailing whitespace, symmetrically to TrimStart. */
  function TrimEnd(s: string): (r: string)
    ensures |r| <= |s| && r == s[..|r|]
    ensures AllWhitespace(s[|r|..])
    ensures r == [] || !IsJsWhitespace(r[|r| - 1])
  {
    if s != [] && IsJsWhitespace(s[|s| - 1]) then TrimEnd(s[..|s| - 1]) else s
  }

  /** `r` is what is left of `s` once the `i` characters before it and
      all those after it, every one of them whitespace, are cut off; `r`
      neither starts nor ends with whitespace. */
  predicate IsTrimmingOf(s: string, i: nat, r: string) {
    && i + |r| <= |s|
    && r == s[i..i + |r|]
    && AllWhitespace(s[..i]) && AllWhitespace(s[i + |r|..])
    && (r == [] || (!IsJsWhitespace(r[0]) && !IsJsWhitespace(r[|r| - 1])))
  }

  /** String.prototype.trim: the result is the stretch of `s` left between
      a whitespace prefix and a whitespace suffix, and it neither starts nor
      ends with whitespace. */
  function Trim(s: string): (r: string)
    ensures IsTrimmingOf(s, |s| - |TrimStart(s)|, r)
  {
    TrimSteps(s);
    TrimEnd(TrimStart(s))
  }

  lemma TrimSteps(s: string)
    ensures IsTrimmingOf(s, |s| - |TrimStart(s)|, TrimEnd(TrimStart(s)))
  {
    var t := TrimStart(s);
    TrimSlices(s, t, TrimEnd(t));
  }

  /** Where the kept stretch sits in `s`, given where each trimming step
      cut. */
  lemma TrimSlices(s: string, t: string, r: string)
    requires |t| <= |s| && t == s[|s| - |t|..] && AllWhitespace(s[..|s| - |t|])
    requires t == [] || !IsJsWhitespace(t[0])
    requires |r| <= |t| && r == t[..|r|] && AllWhitespace(t[|r|..])
    requires r == [] || !IsJsWhitespace(r[|r| - 1])
    ensures IsTrimmingOf(s, |s| - |t|, r)
  {
    var i := |s| - |t|;
    assert t[|r|..] == s[i + |r|..];
    if r != [] {
      assert r[0] == t[0];
    }
  }

  /** Trimming leaves nothing exactly when every character is whitespace. */
  lemma TrimEmptyIff(s: string)
    ensures Trim(s) == [] <==> AllWhitespace(s)
  {
    var t := TrimStart(s);
    if Trim(s) == [] {
      assert AllWhitespace(t[0..]);
      assert s == s[..|s| - |t|] + t;
    }
  }

  /** Trimming twice is trimming once. */
  lemma TrimIdempotent(s: string)
    ensures Trim(Trim(s)) == Trim(s)
  {
    var u := TrimStart(s);
    var t := Trim(s);
    if t != [] {
      assert t[0] == u[0];
      assert TrimStart(t) == t;
    }
  }

  // ---------------------------------------------------------------------
  // The lexical format /^-?\d+(\.\d{1,6})?$/
  // ---------------------------------------------------------------------

  const MaxFractionDigits: nat := 6

  /** The parts of a numeral the pattern accepts: an optional minus sign,
      the digits before the point and the digits after it (empty when the
      text has no point). */
  datatype Numeral = Numeral(negative: bool, whole: string, fraction: string)

  predicate WellFormed(n: Numeral) {
    && |n.whole| >= 1 && AllDigits(n.whole)
    && |n.fraction| <= MaxFractionDigits && AllDigits(n.fraction)
  }

  /** The text of a numeral: the one string the pattern reads as `n`. */
  function Render(n: Numeral): string {
    (if n.negative then "-" else "") + Unsigned(n.whole, n.fraction)
  }

  /** The digits, then the point and the fraction when there is one. */
  function Unsigned(whole: string, fraction: string): string {
    whole + (if fraction == [] then "" else "." + fraction)
  }

  /** The length of the longest prefix of `s` made of digits (greedy `\d+`). */
  function DigitRun(s: string): (k: nat)
    ensures k <= |s| && AllDigits(s[..k])
    ensures k < |s| ==> !IsDigit(s[k])
  {
    if s != [] && IsDigit(s[0]) then
      var k := 1 + DigitRun(s[1..]);
      assert s[..k] == [s[0]] + s[1..][..k - 1];
      k
    else 0
  }

  /** A hand-written recogniser for the pattern: it succeeds only on the
      rendering of a well-formed numeral, and returns that numeral. */
  function Lex(s: string): (r: Option<Numeral>)
    ensures r.Some? ==> WellFormed(r.value) && Render(r.value) == s
  {
    var negative := |s| > 0 && s[0] == '-';
    var body := if negative then s[1..] else s;
    assert s == (if negative then "-" else "") + body;
    match LexUnsigned(body)
    case None => None
    case Some(parts) => Some(Numeral(negative, parts.0, parts.1))
  }

  /** The unsigned part of the pattern, `\d+(\.\d{1,6})?` to the end of the
      text: the digits before the point and those after it. */
  function LexUnsigned(body: string): (r: Option<(string, string)>)
    ensures r.Some? ==> WellFormed(Numeral(false, r.value.0, r.value.1)) && Unsigned(r.value.0, r.value.1) == body
  {
    var k := DigitRun(body);
    if k == 0 then None
    else if k == |body| then
      assert Unsigned(body, "") == body;
      Some((body, ""))
    else if body[k] == '.' && 1 <= |body| - (k + 1) <= MaxFractionDigits && AllDigits(body[k + 1..]) then
      assert Unsigned(body[..k], body[k + 1..]) == body;
      Some((body[..k], body[k + 1..]))
    else None
  }

  predicate MatchesFormat(s: string) {
    Lex(s).Some?
  }

  /** `regex.test`: the pattern matches exactly the renderings of the
      well-formed numerals. */
  lemma MatchesFormatIff(s: string)
    ensures MatchesFormat(s) <==> exists n :: WellFormed(n) && Render(n) == s
  {
    if exists n :: WellFormed(n) && Render(n) == s {
      var n :| WellFormed(n) && Render(n) == s;
      LexRender(n);
    }
  }

  lemma {:induction false} DigitRunOfDigitsThenStop(a: string, b: string)
    requires AllDigits(a)
    requires b == [] || !IsDigit(b[0])
    ensures DigitRun(a + b) == |a|
  {
    if a != [] {
      assert (a + b)[1..] == a[1..] + b;
      DigitRunOfDigitsThenStop(a[1..], b);
    } else {
      assert a + b == b;
    }
  }

  /** The recogniser accepts the rendering of every well-formed numeral, and
      reads back that same numeral; with the postcondition of Lex this says
      that the pattern matches exactly the renderings of well-formed
      numerals. */
  lemma LexRender(n: Numeral)
    requires WellFormed(n)
    ensures Lex(Render(n)) == Some(n)
  {
    var s := Render(n);
    var u := Unsigned(n.whole, n.fraction);
    assert u[0] == n.whole[0];
    if n.negative {
      assert s[1..] == u;
    } else {
      assert s == u;
    }
    LexUnsignedRender(n.whole, n.fraction);
  }

  lemma LexUnsignedRender(whole: string, fraction: string)
    requires WellFormed(Numeral(false, whole, fraction))
    ensures LexUnsigned(Unsigned(whole, fraction)) == Some((whole, fraction))
  {
    var tail := if fraction == [] then "" else "." + fraction;
    var body := whole + tail;
    DigitRunOfDigitsThenStop(whole, tail);
    if fraction != [] {
      assert body[..|whole|] == whole;
      assert body[|whole| + 1..] == fraction;
    }
  }

  /** Every string the pattern accepts starts with '-' or a digit, so it is
      never blank. */
  lemma MatchedIsNotBlank(s: string)
    ensures MatchesFormat(s) ==> !AllWhitespace(s)
  {
    if MatchesFormat(s) {
      var n := Lex(s).value;
      if n.negative {
        assert s[0] == '-';
      } else {
        assert s[0] == n.whole[0];
      }
    }
  }

  /** The shape of every accepted string, character by character: only
      digits, a point and a leading minus sign occur; a digit comes first or
      right after the sign, and last; after a point come 1 to 6 digits and
      nothing else. */
  lemma AcceptedShape(s: string, i: nat)
    requires i < |s|
    ensures MatchesFormat(s) ==>
      && (IsDigit(s[i]) || s[i] == '.' || (i == 0 && s[i] == '-'))
      && (IsDigit(s[0]) || (s[0] == '-' && |s| >= 2 && IsDigit(s[1])))
      && IsDigit(s[|s| - 1])
      && (s[i] == '.' ==> 1 <= |s| - (i + 1) <= MaxFractionDigits && AllDigits(s[i + 1..]))
  {
    if MatchesFormat(s) {
      RenderChar(Lex(s).value, i);
      RenderEnds(Lex(s).value);
    }
  }

  /** Every character of a rendered numeral is a digit, the point or a
      leading minus, and the point is followed by 1 to 6 digits. */
  lemma RenderChar(n: Numeral, i: nat)
    requires WellFormed(n) && i < |Render(n)|
    ensures var s := Render(n);
      && (IsDigit(s[i]) || s[i] == '.' || (i == 0 && s[i] == '-'))
      && (s[i] == '.' ==> 1 <= |s| - (i + 1) <= MaxFractionDigits && AllDigits(s[i + 1..]))
  {
    var sign := if n.negative then "-" else "";
    var tail := if n.fraction == [] then "" else "." + n.fraction;
    var s := Render(n);
    var a := |sign|;
    var b := a + |n.whole|;
    if i < a {
      assert s[i] == '-';
    } else if i < b {
      assert s[i] == (sign + n.whole)[i];
    } else if i == b {
      assert s[i] == tail[0];
      assert s[i + 1..] == tail[1..];
    } else {
      assert s[i] == tail[i - b];
    }
  }

  /** A rendered numeral starts with a digit, or a minus and then a digit,
      and ends with a digit. */
  lemma RenderEnds(n: Numeral)
    requires WellFormed(n)
    ensures var s := Render(n);
      && (IsDigit(s[0]) || (s[0] == '-' && |s| >= 2 && IsDigit(s[1])))
      && IsDigit(s[|s| - 1])
  {
    var sign := if n.negative then "-" else "";
    var tail := if n.fraction == [] then "" else "." + n.fraction;
    var s := Render(n);
    assert s[|sign|] == n.whole[0];
    if n.fraction == [] {
      assert s[|s| - 1] == n.whole[|n.whole| - 1];
    } else {
      assert s[|s| - 1] == tail[|tail| - 1];
    }
  }

  // ---------------------------------------------------------------------
  // parseFloat on the accepted strings
  // ---------------------------------------------------------------------

  /** The exact value of a numeral: its digits as one integer, scaled down by
      ten to the number of fractional digits. */
  function Value(n: Numeral): (v: real)
    requires WellFormed(n)
    ensures n.negative ==> v <= 0.0
    ensures !n.negative ==> v >= 0.0
  {
    assert AllDigits(n.whole + n.fraction);
    var magnitude := DigitsValue(n.whole + n.fraction) as real / Pow10(|n.fraction|) as real;
    if n.negative then -magnitude else magnitude
  }

  /** parseFloat on the strings that reach it; None plays the part of NaN. */
  function ParseFloat(s: string): (r: Option<real>)
    ensures r.Some? <==> exists n :: WellFormed(n) && Render(n) == s
    ensures r.Some? ==> r.value == Value(Lex(s).value)
  {
    MatchesFormatIff(s);
    match Lex(s)
    case None => None
    case Some(n) => Some(Value(n))
  }

  /** Reading back the text of a well-formed numeral gives that numeral's
      value. */
  lemma ParseRender(n: Numeral)
    requires WellFormed(n)
    ensures ParseFloat(Render(n)) == Some(Value(n))
  {
    LexRender(n);
  }

  /** A numeral's value has no more decimals than the numeral has
      fractional digits. */
  lemma ValueOnGrid(n: Numeral)
    requires WellFormed(n)
    ensures OnGrid(Value(n), |n.fraction|)
  {
    assert AllDigits(n.whole + n.fraction);
    var m: int := DigitsValue(n.whole + n.fraction);
    var d := |n.fraction|;
    assert Value(n) == if n.negative then -(m as real / Pow10(d) as real) else m as real / Pow10(d) as real;
    SignedQuotientOnGrid(m, d, n.negative, Value(n));
  }

  lemma SignedQuotientOnGrid(m: int, d: nat, negative: bool, v: real)
    requires v == if negative then -(m as real / Pow10(d) as real) else m as real / Pow10(d) as real
    ensures OnGrid(v, d)
  {
    var p := Pow10(d) as real;
    assert m as real / p * p == m as real;
    var k := if negative then -m else m;
    var x := v * p;
    assert x == k as real;
    assert x.Floor == k;
    assert Scaled(v, d) == x;
  }

  // ---------------------------------------------------------------------
  // validateTemperatureInput
  // ---------------------------------------------------------------------

  const AbsoluteZero: real := -273.15
  const MaxTemperature: real := 6000.0

  const MsgEmpty := "Por favor ingresa una temperatura"
  const MsgFormat := "Ingresa un número válido (máximo 6 decimales)"
  const MsgNotANumber := "El valor ingresado no es un número válido"
  const MsgBelowAbsoluteZero := "La temperatura no puede ser menor a -273.15°C (cero absoluto)"
  const MsgTooHigh := "La temperatura es demasiado alta (máximo 6000°C)"

  datatype ValidationResult = ValidationResult(isValid: bool, error: string)

  function Reject(message: string): ValidationResult {
    ValidationResult(false, message)
  }

  predicate InRange(v: real) {
    AbsoluteZero <= v <= MaxTemperature
  }

  /** Checks, in this order: not blank, matches the pattern, parses to a
      number, not below absolute zero, not above 6000. */
  function ValidateTemperatureInput(input: string): (r: ValidationResult)
    ensures r.isValid <==> r.error == ""
    ensures r.isValid <==> MatchesFormat(input) && InRange(Value(Lex(input).value))
    ensures AllWhitespace(input) ==> r == Reject(MsgEmpty)
    ensures !AllWhitespace(input) && !MatchesFormat(input) ==> r == Reject(MsgFormat)
    ensures MatchesFormat(input) && Value(Lex(input).value) < AbsoluteZero ==>
              r == Reject(MsgBelowAbsoluteZero)
    ensures MatchesFormat(input) && AbsoluteZero <= Value(Lex(input).value) && MaxTemperature < Value(Lex(input).value) ==>
              r == Reject(MsgTooHigh)
    ensures r.error != MsgNotANumber
  {
    TrimEmptyIff(input);
    MatchedIsNotBlank(input);
    if input == "" || Trim(input) == "" then Reject(MsgEmpty)
    else if !MatchesFormat(input) then Reject(MsgFormat)
    else
      var temp := ParseFloat(input);
      if temp.None? then Reject(MsgNotANumber)
      else if temp.value < AbsoluteZero then Reject(MsgBelowAbsoluteZero)
      else if temp.value > MaxTemperature then Reject(MsgTooHigh)
      else ValidationResult(true, "")
  }

  /** What ValidateTemperatureInput says about the rendering of a
      well-formed numeral depends only on the numeral's value. */
  lemma ValidateNumeral(n: Numeral)
    requires WellFormed(n)
    ensures ValidateTemperatureInput(Render(n)).isValid <==> InRange(Value(n))
    ensures Value(n) < AbsoluteZero ==> ValidateTemperatureInput(Render(n)) == Reject(MsgBelowAbsoluteZero)
    ensures MaxTemperature < Value(n) ==> ValidateTemperatureInput(Render(n)) == Reject(MsgTooHigh)
  {
    LexRender(n);
  }

  /** The longest fraction the pattern allows: "100.123456" is the
      rendering of a well-formed numeral, whose value is in range. */
  lemma SixDecimalsAccepted()
    ensures WellFormed(Numeral(false, "100", "123456")) && Render(Numeral(false, "100", "123456")) == "100.123456"
    ensures InRange(Value(Numeral(false, "100", "123456")))
  {
    var n := Numeral(false, "100", "123456");
    assert WellFormed(n);
    assert AllDigits(n.whole + n.fraction);
    assert DigitsValue(n.whole + n.fraction) < Pow10(9);
    assert Pow10(6) == 1000000;
  }

  /** Accepts the example "23". */
  lemma ValidateAccepts23()
    ensures ValidateTemperatureInput("23").isValid
  {
    var n := Numeral(false, "23", "");
    assert "23" + "" == "23";
    assert "23"[..1] == "2";
    assert "2"[..0] == "";
    assert WellFormed(n) && Render(n) == "23" && Value(n) == 23.0;
    ValidateNumeral(n);
  }

  /** Accepts the example "-40". */
  lemma ValidateAcceptsMinus40()
    ensures ValidateTemperatureInput("-40").isValid
  {
    var n := Numeral(true, "40", "");
    assert "40" + "" == "40";
    assert "40"[..1] == "4";
    assert "4"[..0] == "";
    assert WellFormed(n) && Render(n) == "-40" && Value(n) == -40.0;
    ValidateNumeral(n);
  }

  /** Accepts the example "25.5". */
  lemma ValidateAccepts25Point5()
    ensures ValidateTemperatureInput("25.5").isValid
  {
    var n := Numeral(false, "25", "5");
    assert "25" + "5" == "255";
    assert "255"[..2] == "25";
    assert "25"[..1] == "2";
    assert "2"[..0] == "";
    assert WellFormed(n) && Render(n) == "25.5" && Value(n) == 25.5;
    ValidateNumeral(n);
  }

  /** Accepts absolute zero itself, the lower limit being inclusive. */
  lemma ValidateAcceptsAbsoluteZero()
    ensures ValidateTemperatureInput("-273.15").isValid
  {
    var n := Numeral(true, "273", "15");
    assert "273" + "15" == "27315";
    assert "27315"[..4] == "2731";
    assert "2731"[..3] == "273";
    assert "273"[..2] == "27";
    assert "27"[..1] == "2";
    assert "2"[..0] == "";
    assert WellFormed(n) && Render(n) == "-273.15" && Value(n) == AbsoluteZero;
    ValidateNumeral(n);
  }

  /** Accepts the example with six decimals. */
  lemma ValidateAcceptsSixDecimals()
    ensures ValidateTemperatureInput("100.123456").isValid
  {
    SixDecimalsAccepted();
    ValidateNumeral(Numeral(false, "100", "123456"));
  }

  /** Accepts 6000 itself, the upper limit being inclusive. */
  lemma ValidateAcceptsMaximum()
    ensures ValidateTemperatureInput("6000").isValid
  {
    var n := Numeral(false, "6000", "");
    assert "6000" + "" == "6000";
    assert "6000"[..3] == "600";
    assert "600"[..2] == "60";
    assert "60"[..1] == "6";
    assert "6"[..0] == "";
    assert WellFormed(n) && Render(n) == "6000" && Value(n) == MaxTemperature;
    ValidateNumeral(n);
  }

  /** Rejects "-300", below absolute zero. */
  lemma ValidateRejectsMinus300()
    ensures ValidateTemperatureInput("-300") == Reject(MsgBelowAbsoluteZero)
  {
    var n := Numeral(true, "300", "");
    assert "300" + "" == "300";
    assert "300"[..2] == "30";
    assert "30"[..1] == "3";
    assert "3"[..0] == "";
    assert WellFormed(n) && Render(n) == "-300" && Value(n) == -300.0;
    ValidateNumeral(n);
  }

  /** Rejects "-273.16", one hundredth below absolute zero. */
  lemma ValidateRejectsJustBelowAbsoluteZero()
    ensures ValidateTemperatureInput("-273.16") == Reject(MsgBelowAbsoluteZero)
  {
    var n := Numeral(true, "273", "16");
    assert "273" + "16" == "27316";
    assert "27316"[..4] == "2731";
    assert "2731"[..3] == "273";
    assert "273"[..2] == "27";
    assert "27"[..1] == "2";
    assert "2"[..0] == "";
    assert WellFormed(n) && Render(n) == "-273.16" && Value(n) == -273.16;
    ValidateNumeral(n);
  }

  /** Rejects "7000", above the maximum. */
  lemma ValidateRejects7000()
    ensures ValidateTemperatureInput("7000") == Reject(MsgTooHigh)
  {
    var n := Numeral(false, "7000", "");
    assert "7000" + "" == "7000";
    assert "7000"[..3] == "700";
    assert "700"[..2] == "70";
    assert "70"[..1] == "7";
    assert "7"[..0] == "";
    assert WellFormed(n) && Render(n) == "7000" && Value(n) == 7000.0;
    ValidateNumeral(n);
  }

  /** Blank inputs are reported as empty. */
  lemma ValidateRejectsBlank()
    ensures ValidateTemperatureInput("") == Reject(MsgEmpty)
    ensures ValidateTemperatureInput(" \t ") == Reject(MsgEmpty)
  {
  }

  /** Inputs starting with a character the pattern never accepts first. */
  lemma ValidateRejectsForeign()
    ensures ValidateTemperatureInput("abc") == Reject(MsgFormat)
    ensures ValidateTemperatureInput("+5") == Reject(MsgFormat)
    ensures ValidateTemperatureInput(" 5") == Reject(MsgFormat)
  {
    AcceptedShape("abc", 0);
    AcceptedShape("+5", 0);
    AcceptedShape(" 5", 0);
    assert !IsJsWhitespace("abc"[0]) && !IsJsWhitespace("+5"[0]);
    assert !IsJsWhitespace(" 5"[1]);
  }

  /** Exponent notation, which parseFloat reads but the pattern refuses. */
  lemma ValidateRejectsExponent()
    ensures ValidateTemperatureInput("1e3") == Reject(MsgFormat)
  {
    AcceptedShape("1e3", 1);
    assert !IsJsWhitespace("1e3"[0]);
  }

  /** A point must have 1 to 6 digits after it and a digit before it. */
  lemma ValidateRejectsMisplacedPoint()
    ensures ValidateTemperatureInput("5.") == Reject(MsgFormat)
    ensures ValidateTemperatureInput(".5") == Reject(MsgFormat)
    ensures ValidateTemperatureInput("23.1234567") == Reject(MsgFormat)
  {
    AcceptedShape("5.", 1);
    AcceptedShape(".5", 0);
    AcceptedShape("23.1234567", 2);
    assert !IsJsWhitespace("5."[0]) && !IsJsWhitespace(".5"[0]);
    assert !IsJsWhitespace("23.1234567"[0]);
  }

  // ---------------------------------------------------------------------
  // getTemperatureColor
  // ---------------------------------------------------------------------

  /** The lower bounds of the colour bands above the coldest one. */
  const BandFloors: seq<real> := [0.0, 15.0, 25.0, 35.0]

  /** Blue (cold), cyan (cool), green (moderate), orange (warm), red (hot). */
  const Palette: seq<string> := ["#3b82f6", "#06b6d4", "#10b981", "#f59e0b", "#ef4444"]

  /** How many of `floors` lie at or below `t`. */
  function CountAtMost(floors: seq<real>, t: real): (k: nat)
    ensures k <= |floors|
  {
    if floors == [] then 0
    else (if floors[0] <= t then 1 else 0) + CountAtMost(floors[1..], t)
  }

  /** The colour band of a Celsius temperature, 0 (coldest) to 4 (hottest). */
  function ColorBand(celsius: real): (b: nat)
    ensures b < |Palette|
  {
    CountAtMost(BandFloors, celsius)
  }

  /** The band, counted threshold by threshold. */
  lemma ColorBandUnfold(celsius: real)
    ensures ColorBand(celsius) ==
      (if 0.0 <= celsius then 1 else 0) + (if 15.0 <= celsius then 1 else 0)
      + (if 25.0 <= celsius then 1 else 0) + (if 35.0 <= celsius then 1 else 0)
  {
    var f0, f1, f2, f3 := BandFloors, [15.0, 25.0, 35.0], [25.0, 35.0], [35.0];
    assert f0[1..] == f1 && f1[1..] == f2 && f2[1..] == f3 && f3[1..] == [];
    assert CountAtMost(f3, celsius) == if 35.0 <= celsius then 1 else 0;
    assert CountAtMost(f2, celsius) == (if 25.0 <= celsius then 1 else 0) + CountAtMost(f3, celsius);
    assert CountAtMost(f1, celsius) == (if 15.0 <= celsius then 1 else 0) + CountAtMost(f2, celsius);
  }

  function TemperatureColor(celsius: real): (color: string)
    ensures color == Palette[ColorBand(celsius)]
  {
    ColorBandUnfold(celsius);
    if celsius < 0.0 then "#3b82f6"
    else if celsius < 15.0 then "#06b6d4"
    else if celsius < 25.0 then "#10b981"
    else if celsius < 35.0 then "#f59e0b"
    else "#ef4444"
  }

  lemma {:induction false} CountAtMostMonotone(floors: seq<real>, a: real, b: real)
    requires a <= b
    ensures CountAtMost(floors, a) <= CountAtMost(floors, b)
  {
    if floors != [] {
      CountAtMostMonotone(floors[1..], a, b);
    }
  }

  /** A warmer temperature never gets a colder band. */
  lemma ColorBandMonotone(a: real, b: real)
    requires a <= b
    ensures ColorBand(a) <= ColorBand(b)
  {
    CountAtMostMonotone(BandFloors, a, b);
  }

  /** The five bands, each closed below and open above. */
  lemma ColorBands(celsius: real)
    ensures ColorBand(celsius) == 0 <==> celsius < 0.0
    ensures ColorBand(celsius) == 1 <==> 0.0 <= celsius < 15.0
    ensures ColorBand(celsius) == 2 <==> 15.0 <= celsius < 25.0
    ensures ColorBand(celsius) == 3 <==> 25.0 <= celsius < 35.0
    ensures ColorBand(celsius) == 4 <==> 35.0 <= celsius
  {
    ColorBandUnfold(celsius);
  }

  /** Different bands get different colours. */
  lemma PaletteDistinct(i: nat, j: nat)
    requires i < |Palette| && j < |Palette| && i != j
    ensures Palette[i] != Palette[j]
  {
  }

  // ---------------------------------------------------------------------
  // calculateThermometerFill
  // ---------------------------------------------------------------------

  /** The temperatures at the empty and the full end of a gauge. */
  datatype GaugeRange = GaugeRange(min: real, max: real)

  /** The gauge of each scale spans -50 to 150 degrees Celsius, expressed in
      that scale; any other scale name has no gauge. */
  function ScaleRange(scale: string): (g: Option<GaugeRange>)
    ensures g.Some? ==> g.value.min < g.value.max
    ensures g.Some? <==> scale == "celsius" || scale == "fahrenheit" || scale == "kelvin"
  {
    if scale == "celsius" then Some(GaugeRange(-50.0, 150.0))
    else if scale == "fahrenheit" then Some(GaugeRange(-58.0, 302.0))
    else if scale == "kelvin" then Some(GaugeRange(223.15, 423.15))
    else None
  }

  function Min(a: real, b: real): real {
    if a <= b then a else b
  }

  function Max(a: real, b: real): real {
    if a >= b then a else b
  }

  /** The share of the gauge filled, in percent: linear between the gauge's
      ends, clamped to 0..100; an unknown scale gives 0. */
  function ThermometerFill(temp: real, scale: string): (percentage: real)
    ensures 0.0 <= percentage <= 100.0
    ensures ScaleRange(scale).None? ==> percentage == 0.0
    ensures ScaleRange(scale).Some? && temp <= ScaleRange(scale).value.min ==> percentage == 0.0
    ensures ScaleRange(scale).Some? && temp >= ScaleRange(scale).value.max ==> percentage == 100.0
    ensures ScaleRange(scale).Some? && ScaleRange(scale).value.min <= temp <= ScaleRange(scale).value.max ==>
              var g := ScaleRange(scale).value;
              percentage * (g.max - g.min) == (temp - g.min) * 100.0
  {
    match ScaleRange(scale)
    case None => 0.0
    case Some(g) =>
      var percentage := ((temp - g.min) / (g.max - g.min)) * 100.0;
      Max(0.0, Min(100.0, percentage))
  }

  /** Filling never goes down as the temperature goes up. */
  lemma FillMonotone(t1: real, t2: real, scale: string)
    requires t1 <= t2
    ensures ThermometerFill(t1, scale) <= ThermometerFill(t2, scale)
  {
    if ScaleRange(scale).Some? {
      var g := ScaleRange(scale).value;
      var w := g.max - g.min;
      assert (t1 - g.min) / w <= (t2 - g.min) / w;
    }
  }
}
