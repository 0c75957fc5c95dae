/** The hour and consumption fields of one remote reading, and
    `parse_hour_field` of flexibility_pred.py: take the text before the
    first ':', read it as a number, truncate it toward zero and accept it
    only in 0..23. Python's `float()` is modelled on the decimal grammar
    `[sign] digits [. digits]` (either side of the point may be empty, not
    both), surrounded by optional whitespace; the consumption field is read
    on the unsigned part of that grammar. */
module HourField {
  import opened Wrappers

  /** A field value of a JSON entry: JSON null, or any other value as
      Python's `str()` renders it (a JSON number 6 arrives as "6"). */
  datatype Json = Null | Text(s: string)

  /** The three ways `parse_hour_field` raises. */
  datatype HourError = HourIsNone | NotANumber | OutOfRange(hour: int)

  /** The characters `str.strip()` removes: those for which Python's
      `str.isspace()` holds. */
  predicate IsSpace(c: char)
  {
    if c <= ' ' then '\U{0009}' <= c <= '\U{000D}' || '\U{001C}' <= c
    else c >= '\U{0085}' && IsWideSpace(c)
  }

  /** The whitespace characters beyond ASCII. */
  predicate IsWideSpace(c: char)
  {
    || c == '\U{0085}' || c == '\U{00A0}' || c == '\U{1680}'
    || '\U{2000}' <= c <= '\U{200A}'
    || c == '\U{2028}' || c == '\U{2029}' || c == '\U{202F}' || c == '\U{205F}' || c == '\U{3000}'
  }

  function TrimLeft(s: string): (r: string)
    ensures |r| <= |s|
    ensures r != [] ==> r[0] == s[|s| - |r|]
    ensures r != [] ==> !IsSpace(r[0])
  {
    if |s| > 0 && IsSpace(s[0]) then TrimLeft(s[1..]) else s
  }

  function TrimRight(s: string): (r: string)
    ensures |r| <= |s|
    ensures r != [] ==> r[0] == s[0] && r[|r| - 1] == s[|r| - 1]
    ensures r != [] ==> !IsSpace(r[|r| - 1])
  {
    if |s| > 0 && IsSpace(s[|s| - 1]) then TrimRight(s[..|s| - 1]) else s
  }

  /** `str.strip()`: the result has no whitespace at either end. */
  function Strip(s: string): (r: string)
    ensures |r| <= |s|
    ensures r != [] ==> !IsSpace(r[0]) && !IsSpace(r[|r| - 1])
  {
    var t := TrimLeft(s);
    TrimRight(t)
  }

  lemma {:induction false} TrimLeftEmptyIff(s: string)
    ensures TrimLeft(s) == [] <==> forall i :: 0 <= i < |s| ==> IsSpace(s[i])
  {
    if |s| > 0 && IsSpace(s[0]) {
      TrimLeftEmptyIff(s[1..]);
      assert forall i :: 1 <= i < |s| ==> s[i] == s[1..][i - 1];
    }
  }

  lemma {:induction false} TrimRightEmptyIff(s: string)
    ensures TrimRight(s) == [] <==> forall i :: 0 <= i < |s| ==> IsSpace(s[i])
  {
    if |s| > 0 && IsSpace(s[|s| - 1]) {
      TrimRightEmptyIff(s[..|s| - 1]);
    }
  }

  /** Stripping leaves nothing exactly when the text is all whitespace. */
  lemma StripEmptyIff(s: string)
    ensures Strip(s) == [] <==> forall i :: 0 <= i < |s| ==> IsSpace(s[i])
  {
    var t := TrimLeft(s);
    TrimLeftEmptyIff(s);
    TrimRightEmptyIff(t);
    if t != [] {
      assert !IsSpace(t[0]);
    }
  }

  /** Position of the first `c` in `s`, or `|s|` when there is none. */
  function IndexOf(s: string, c: char): (k: nat)
    ensures k <= |s|
    ensures k < |s| ==> s[k] == c
    ensures forall i :: 0 <= i < k ==> s[i] != c
  {
    IndexFrom(s, c, 0)
  }

  /** Position of the first `c` in `s` at or after `from`. */
  function IndexFrom(s: string, c: char, from: nat): (k: nat)
    requires from <= |s|
    ensures from <= k <= |s|
    ensures k < |s| ==> s[k] == c
    ensures forall i :: from <= i < k ==> s[i] != c
    decreases |s| - from
  {
    if from == |s| then from else if s[from] == c then from else IndexFrom(s, c, from + 1)
  }

  /** `s.split(":")[0]`. */
  function BeforeColon(s: string): string
  {
    s[..IndexOf(s, ':')]
  }

  predicate IsDigit(c: char)
  {
    '0' <= c <= '9'
  }

  predicate AllDigits(s: string)
  {
    forall i :: 0 <= i < |s| ==> IsDigit(s[i])
  }

  function DigitValue(c: char): nat
    requires IsDigit(c)
  {
    (c as int) - ('0' as int)
  }

  function DigitsValue(s: string): nat
    requires AllDigits(s)
  {
    if s == [] then 0 else DigitsValue(s[..|s| - 1]) * 10 + DigitValue(s[|s| - 1])
  }

  function Pow10(n: nat): (p: nat)
    ensures p >= 1
  {
    if n == 0 then 1 else 10 * Pow10(n - 1)
  }

  /** The value of the digits after the decimal point. */
  function Fraction(fp: string): (f: real)
    requires AllDigits(fp)
    ensures 0.0 <= f < 1.0
  {
    DigitsValueBelowPow10(fp);
    DivBelowOne(DigitsValue(fp) as real, Pow10(|fp|) as real);
    (DigitsValue(fp) as real) / (Pow10(|fp|) as real)
  }

  /** The value of "ip.fp". */
  function DecimalValue(ip: string, fp: string): (x: real)
    requires AllDigits(ip) && AllDigits(fp)
    ensures x.Floor == DigitsValue(ip)
  {
    DigitsValue(ip) as real + Fraction(fp)
  }

  /** Python's `float()` on the decimal grammar; `None` where it raises. */
  function ParseDecimal(s: string): (r: Option<real>)
    ensures r.Some? ==> r.value >= 0.0
  {
    ParseNumber(Strip(s))
  }

  /** `float()` of text with no surrounding whitespace. */
  function ParseNumber(t: string): (r: Option<real>)
    ensures r.Some? ==> r.value >= 0.0
  {
    var k := IndexOf(t, '.');
    if k == |t| then
      if |t| > 0 && AllDigits(t) then Some(DigitsValue(t) as real) else None
    else
      ParseParts(t[..k], t[k + 1..])
  }

  /** Python's `float()` with an optional leading sign, as the hour field
      is read; `None` where it raises. */
  function ParseSigned(s: string): Option<real>
  {
    SignedNumber(Strip(s))
  }

  predicate HasSign(t: string)
  {
    t != [] && (t[0] == '-' || t[0] == '+')
  }

  /** The text after an optional leading sign. */
  function Magnitude(t: string): (m: string)
    ensures !HasSign(t) ==> m == t
    ensures HasSign(t) ==> m == t[1..]
  {
    if HasSign(t) then t[1..] else t
  }

  /** Signed `float()` of text with no surrounding whitespace: the unsigned
      reading of the magnitude, negated after a '-'. */
  function SignedNumber(t: string): (r: Option<real>)
    ensures !HasSign(t) ==> r == ParseNumber(t)
    ensures r.Some? <==> ParseNumber(Magnitude(t)).Some?
    ensures r.Some? && t[0] == '-' ==> r.value == -ParseNumber(Magnitude(t)).value
  {
    match ParseNumber(Magnitude(t))
    case None => None
    case Some(x) => if t[0] == '-' then Some(-x) else Some(x)
  }


  /** `int()` of a float: truncation toward zero. */
  function Truncate(x: real): (h: int)
    ensures x >= 0.0 ==> h as real <= x < h as real + 1.0
    ensures x < 0.0 ==> h as real - 1.0 < x <= h as real
  {
    if x >= 0.0 then x.Floor else -((-x).Floor)
  }

  /** "ip.fp": at least one side non-empty, both all digits. */
  function ParseParts(ip: string, fp: string): (r: Option<real>)
    ensures r.Some? ==> r.value >= 0.0
  {
    if (|ip| > 0 || |fp| > 0) && AllDigits(ip) && AllDigits(fp) then
      Some(DecimalValue(ip, fp))
    else None
  }

  /** `parse_hour_field`: `int(float(str(v).strip().split(":")[0]))`,
      accepted only in 0..23. */
  function ParseHourField(v: Json): (r: Result<int, HourError>)
    ensures r.Success? ==> 0 <= r.value <= 23
    ensures v.Null? ==> r == Failure(HourIsNone)
  {
    match v
    case Null => Failure(HourIsNone)
    case Text(s) =>
      match ParseSigned(BeforeColon(Strip(s)))
      case None => Failure(NotANumber)
      case Some(x) =>
        var h := Truncate(x);
        if 0 <= h <= 23 then Success(h) else Failure(OutOfRange(h))
  }

  /** `float(v)` for the consumption field, on unsigned decimal text:
      `float(None)` raises, and a value that parses is non-negative. */
  function ParseConsumption(v: Json): (r: Option<real>)
    ensures v.Null? ==> r.None?
    ensures r.Some? ==> r.value >= 0.0
  {
    match v
    case Null => None
    case Text(s) => ParseDecimal(s)
  }

  function DigitChar(d: nat): (c: char)
    requires d < 10
    ensures IsDigit(c) && DigitValue(c) == d
  {
    ('0' as int + d) as char
  }

  /** The shortest decimal text of `n`, as `str(n)` writes it. */
  function NumberText(n: nat): (s: string)
    ensures |s| > 0 && AllDigits(s)
  {
    if n < 10 then [DigitChar(n)] else NumberText(n / 10) + [DigitChar(n % 10)]
  }

  /** The "HH:00" form the remote source uses, e.g. "06:00". */
  function HourText(h: nat): (s: string)
    requires h <= 23
  {
    [DigitChar(h / 10), DigitChar(h % 10)] + ":00"
  }

  lemma {:induction false} NumberTextValue(n: nat)
    ensures DigitsValue(NumberText(n)) == n
  {
    if n >= 10 {
      NumberTextValue(n / 10);
      var s := NumberText(n);
      assert s[..|s| - 1] == NumberText(n / 10);
    }
  }

  lemma {:induction false} DigitsValueBelowPow10(s: string)
    requires AllDigits(s)
    ensures DigitsValue(s) < Pow10(|s|)
  {
    if s != [] {
      DigitsValueBelowPow10(s[..|s| - 1]);
    }
  }

  /** The first `c` is at `k` when `s[k]` is `c` (or `k == |s|`) and no earlier character is. */
  lemma IndexOfAt(s: string, c: char, k: nat)
    requires k <= |s| && (k < |s| ==> s[k] == c)
    requires forall i :: 0 <= i < k ==> s[i] != c
    ensures IndexOf(s, c) == k
  {
  }

  lemma DigitsValueTwo(a: char, b: char)
    requires IsDigit(a) && IsDigit(b)
    ensures DigitsValue([a, b]) == 10 * DigitValue(a) + DigitValue(b)
  {
    var s := [a, b];
    assert s[..|s| - 1] == [a];
    assert [a][..0] == [];
    assert DigitsValue([a]) == DigitValue(a);
  }

  /** Text with no whitespace at either end is left unchanged. */
  lemma StripUnchanged(s: string)
    requires s != [] && !IsSpace(s[0]) && !IsSpace(s[|s| - 1])
    ensures Strip(s) == s
  {
  }

  /** Text that starts and ends with a digit has nothing to strip. */
  lemma DigitEndsStripped(s: string)
    requires s != [] && IsDigit(s[0]) && IsDigit(s[|s| - 1])
    ensures Strip(s) == s
  {
    StripUnchanged(s);
  }

  lemma DigitsNumber(s: string)
    requires s != [] && AllDigits(s)
    ensures ParseNumber(s) == Some(DigitsValue(s) as real)
  {
    IndexOfAt(s, '.', |s|);
  }

  /** A digit string with no '.' reads as its integer value. */
  lemma ParseDigits(s: string)
    requires s != [] && AllDigits(s)
    ensures ParseDecimal(s) == Some(DigitsValue(s) as real)
    ensures ParseSigned(s) == Some(DigitsValue(s) as real)
  {
    DigitEndsStripped(s);
    StrippedReadings(s);
    DigitsNumber(s);
    assert !HasSign(s);
  }

  /** Text with nothing to strip is read as it stands. */
  lemma StrippedReadings(s: string)
    requires Strip(s) == s
    ensures ParseDecimal(s) == ParseNumber(s) && ParseSigned(s) == SignedNumber(s)
  {
  }

  lemma ParseHourFieldOf(s: string, x: nat)
    requires ParseSigned(BeforeColon(Strip(s))) == Some(x as real)
    ensures ParseHourField(Text(s)) == if x <= 23 then Success(x) else Failure(OutOfRange(x))
  {
    assert (x as real).Floor == x;
  }

  lemma DigitsBeforeColon(s: string, rest: string)
    requires AllDigits(s)
    ensures BeforeColon(s + [':'] + rest) == s
  {
    var t := s + [':'] + rest;
    assert t[..|s|] == s;
    assert t[|s|] == ':';
    IndexOfAt(t, ':', |s|);
  }

  /** A digit string followed by ':' and anything that does not end in
      whitespace parses as the digits' value, when that is an hour. */
  lemma ParseDigitsColon(s: string, rest: string)
    requires s != [] && AllDigits(s)
    requires rest == [] || !IsSpace(rest[|rest| - 1])
    ensures var x := DigitsValue(s);
      ParseHourField(Text(s + [':'] + rest)) == if x <= 23 then Success(x) else Failure(OutOfRange(x))
  {
    var t := s + [':'] + rest;
    assert Strip(t) == t by {
      assert t[0] == s[0] && t[|t| - 1] == if rest == [] then ':' else rest[|rest| - 1];
      StripUnchanged(t);
    }
    DigitsBeforeColon(s, rest);
    ParseDigits(s);
    ParseHourFieldOf(t, DigitsValue(s));
  }

  /** Round trip: every hour written in the source's "HH:00" form parses back. */
  lemma HourTextRoundTrip(h: nat)
    requires h <= 23
    ensures ParseHourField(Text(HourText(h))) == Success(h)
  {
    var a, b := DigitChar(h / 10), DigitChar(h % 10);
    var digits := [a, b];
    assert HourText(h) == digits + [':'] + "00";
    assert DigitsValue(digits) == h by {
      DigitsValueTwo(a, b);
    }
    assert AllDigits(digits);
    ParseDigitsColon(digits, "00");
  }

  /** A bare digit string parses as its value, when that is an hour. */
  lemma ParseDigitsHour(s: string)
    requires s != [] && AllDigits(s)
    ensures var x := DigitsValue(s);
      ParseHourField(Text(s)) == if x <= 23 then Success(x) else Failure(OutOfRange(x))
  {
    DigitEndsStripped(s);
    IndexOfAt(s, ':', |s|);
    assert BeforeColon(s) == s;
    ParseDigits(s);
    ParseHourFieldOf(s, DigitsValue(s));
  }

  /** Round trip: an hour sent as a bare JSON number (`str(6) == "6"`) parses back. */
  lemma NumberTextRoundTrip(h: nat)
    requires h <= 23
    ensures ParseHourField(Text(NumberText(h))) == Success(h)
  {
    NumberTextValue(h);
    ParseDigitsHour(NumberText(h));
  }

  lemma DivBelowOne(a: real, b: real)
    requires 0.0 <= a < b
    ensures 0.0 <= a / b < 1.0
  {
  }

  /** "digits.digits" reads as the integer part plus the fraction. */
  lemma ParseFraction(ip: string, frac: string)
    requires ip != [] && AllDigits(ip) && frac != [] && AllDigits(frac)
    ensures ParseDecimal(ip + "." + frac) == Some(DecimalValue(ip, frac))
    ensures ParseSigned(ip + "." + frac) == Some(DecimalValue(ip, frac))
  {
    var t := ip + "." + frac;
    assert t[0] == ip[0] && t[|t| - 1] == frac[|frac| - 1];
    DigitEndsStripped(t);
    FractionNumber(ip, frac);
  }

  lemma FractionNumber(ip: string, frac: string)
    requires AllDigits(ip) && AllDigits(frac) && frac != []
    ensures ParseNumber(ip + "." + frac) == Some(DecimalValue(ip, frac))
  {
    var t := ip + "." + frac;
    assert t[|ip|] == '.';
    assert forall i :: 0 <= i < |ip| ==> t[i] != '.' by {
      forall i | 0 <= i < |ip| ensures t[i] != '.' { assert t[i] == ip[i]; }
    }
    IndexOfAt(t, '.', |ip|);
    assert t[..|ip|] == ip && t[|ip| + 1..] == frac;
    assert ParseNumber(t) == ParseParts(ip, frac);
  }

  /** A decimal text "digits.digits" has no surrounding space and no colon. */
  lemma DecimalTextUnchanged(ip: string, frac: string)
    requires ip != [] && AllDigits(ip) && frac != [] && AllDigits(frac)
    ensures var t := ip + "." + frac; Strip(t) == t && BeforeColon(t) == t
  {
    var t := ip + "." + frac;
    assert t[0] == ip[0] && t[|t| - 1] == frac[|frac| - 1];
    DigitEndsStripped(t);
    DecimalNoColon(ip, frac);
  }

  lemma DecimalNoColon(ip: string, frac: string)
    requires AllDigits(ip) && AllDigits(frac)
    ensures var t := ip + "." + frac; BeforeColon(t) == t
  {
    var t := ip + "." + frac;
    forall i | 0 <= i < |t| ensures t[i] != ':' {
      if i < |ip| { assert t[i] == ip[i]; }
      else if i > |ip| { assert t[i] == frac[i - |ip| - 1]; }
    }
    IndexOfAt(t, ':', |t|);
  }

  /** For a non-negative number the hour is its floor. */
  lemma ParseHourFieldFloor(s: string, x: real)
    requires ParseSigned(BeforeColon(Strip(s))) == Some(x) && x >= 0.0 && 0 <= x.Floor <= 23
    ensures ParseHourField(Text(s)) == Success(x.Floor)
  {
  }

  /** `int()` truncates: a fractional part never changes the parsed hour. */
  lemma FractionTruncated(h: nat, frac: string)
    requires h <= 23 && AllDigits(frac) && frac != []
    ensures ParseHourField(Text(NumberText(h) + "." + frac)) == Success(h)
  {
    var ip := NumberText(h);
    NumberTextValue(h);
    DecimalTextUnchanged(ip, frac);
    ParseFraction(ip, frac);
    ParseHourFieldFloor(ip + "." + frac, DecimalValue(ip, frac));
  }

  /** `float()` reads a '-' before unsigned text as its negation. */
  lemma NegatedNumber(u: string)
    requires u != [] && !IsSpace(u[|u| - 1]) && ParseNumber(u).Some?
    ensures Strip(['-'] + u) == ['-'] + u
    ensures ParseSigned(['-'] + u) == Some(-ParseNumber(u).value)
  {
    NegatedStripped(u);
    NegatedSigned(u);
  }

  lemma NegatedStripped(u: string)
    requires u != [] && !IsSpace(u[|u| - 1])
    ensures Strip(['-'] + u) == ['-'] + u
  {
    var t := ['-'] + u;
    assert t[0] == '-' && t[|t| - 1] == u[|u| - 1];
    StripUnchanged(t);
  }

  lemma NegatedSigned(u: string)
    requires ParseNumber(u).Some?
    ensures SignedNumber(['-'] + u) == Some(-ParseNumber(u).value)
  {
    var t := ['-'] + u;
    assert t[1..] == u;
  }

  /** The hour is `int()` of the signed reading of the text before ':'. */
  lemma HourOfReading(s: string, x: real)
    requires ParseSigned(BeforeColon(Strip(s))) == Some(x)
    ensures var h := Truncate(x);
      ParseHourField(Text(s)) == if 0 <= h <= 23 then Success(h) else Failure(OutOfRange(h))
  {
  }

  /** '-' followed by text with no ':' has no ':' either. */
  lemma NegatedNoColon(u: string)
    requires BeforeColon(u) == u
    ensures BeforeColon(['-'] + u) == ['-'] + u
  {
    var t := ['-'] + u;
    assert IndexOf(u, ':') == |u|;
    forall i | 0 <= i < |t| ensures t[i] != ':' {
      if i > 0 { assert t[i] == u[i - 1]; }
    }
    IndexOfAt(t, ':', |t|);
  }

  lemma DigitsNoColon(u: string)
    requires AllDigits(u)
    ensures BeforeColon(u) == u
  {
    IndexOfAt(u, ':', |u|);
  }

  /** A negative whole hour is rejected as out of range, not wrapped. */
  lemma NegativeDigitsHour(t: string, n: nat)
    requires |t| >= 2 && t[0] == '-' && AllDigits(t[1..]) && DigitsValue(t[1..]) == n >= 1
    ensures ParseHourField(Text(t)) == Failure(OutOfRange(-(n as int)))
  {
    NegativeDigitsReading(t, n);
    TruncateWhole(n);
    HourOfReading(t, -(n as real));
  }

  lemma NegativeDigitsReading(t: string, n: nat)
    requires |t| >= 2 && t[0] == '-' && AllDigits(t[1..]) && DigitsValue(t[1..]) == n
    ensures ParseSigned(BeforeColon(Strip(t))) == Some(-(n as real))
  {
    var u := t[1..];
    assert t[|t| - 1] == u[|u| - 1];
    StripUnchanged(t);
    forall i | 0 <= i < |t| ensures t[i] != ':' {
      if i > 0 { assert t[i] == u[i - 1]; }
    }
    IndexOfAt(t, ':', |t|);
    assert BeforeColon(t) == t;
    DigitsNumber(u);
    assert Magnitude(t) == u;
  }

  lemma TruncateWhole(n: nat)
    ensures Truncate(-(n as real)) == -(n as int)
  {
  }

  /** `str(-n)` for a whole hour n >= 1 is rejected as out of range. */
  lemma NegativeWholeHour(n: nat)
    requires n >= 1
    ensures ParseHourField(Text(['-'] + NumberText(n))) == Failure(OutOfRange(-(n as int)))
  {
    var t := ['-'] + NumberText(n);
    NumberTextValue(n);
    assert t[1..] == NumberText(n);
    NegativeDigitsHour(t, n);
  }

  /** A '-' in front of a zero hour, as in "-0:00", reads as
      `int(float("-0"))`, which is 0: the hour is accepted. */
  lemma NegativeZeroHour(rest: string)
    requires rest == [] || !IsSpace(rest[|rest| - 1])
    ensures ParseHourField(Text("-0:" + rest)) == Success(0)
  {
    var t := "-0:" + rest;
    assert Strip(t) == t by {
      assert t[0] == '-' && t[|t| - 1] == if rest == [] then ':' else rest[|rest| - 1];
      StripUnchanged(t);
    }
    assert t[..2] == ['-'] + "0" && t[2] == ':';
    IndexOfAt(t, ':', 2);
    DigitsNumber("0");
    NegatedNumber("0");
    HourOfReading(t, -0.0);
  }

  /** A negative hour above -1, such as "-0.5", truncates toward zero to 0
      and is accepted. */
  lemma NegativeFractionTruncated(frac: string)
    requires AllDigits(frac) && frac != []
    ensures ParseHourField(Text("-0." + frac)) == Success(0)
  {
    var x := DecimalValue("0", frac);
    NegativeFractionReading(frac);
    TruncateAboveMinusOne(x);
    HourOfReading("-0." + frac, -x);
  }

  lemma NegativeFractionReading(frac: string)
    requires AllDigits(frac) && frac != []
    ensures ParseSigned(BeforeColon(Strip("-0." + frac))) == Some(-DecimalValue("0", frac))
  {
    var t := "-0." + frac;
    var u := t[1..];
    assert u == "0" + "." + frac;
    assert t[|t| - 1] == frac[|frac| - 1];
    StripUnchanged(t);
    forall i | 0 <= i < |t| ensures t[i] != ':' {
      if i > 2 { assert t[i] == frac[i - 3]; }
    }
    IndexOfAt(t, ':', |t|);
    assert BeforeColon(t) == t;
    FractionNumber("0", frac);
    assert Magnitude(t) == u;
  }

  lemma TruncateAboveMinusOne(x: real)
    requires 0.0 <= x < 1.0
    ensures Truncate(-x) == 0
  {
  }

  /** Round trip: a consumption sent as a whole number parses back. */
  lemma ConsumptionTextRoundTrip(n: nat)
    ensures ParseConsumption(Text(NumberText(n))) == Some(n as real)
  {
    NumberTextValue(n);
    ParseDigits(NumberText(n));
  }

  /** "24:00" is rejected, not wrapped to 0. */
  lemma TwentyFourRejected()
    ensures ParseHourField(Text("24:00")) == Failure(OutOfRange(24))
  {
    var digits := [DigitChar(2), DigitChar(4)];
    assert "24:00" == digits + [':'] + "00";
    DigitsValueTwo(DigitChar(2), DigitChar(4));
    ParseDigitsColon(digits, "00");
  }
}
