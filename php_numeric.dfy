/**
 * PHP 8's numeric strings, as is_numeric() accepts them, the (int) cast of
 * such a string, and the decimal text of an integer.
 *
 * A numeric string is optional whitespace, an optional sign, digits with at
 * most one decimal point and at least one digit, an optional exponent
 * (e or E, an optional sign, at least one digit), and optional whitespace.
 */
module PhpNumeric {
  import opened Wrappers
  import opened PhpStrings

  /** The whitespace PHP allows before and after a numeric string: space, tab, LF, CR, vertical tab, form feed. */
  const NumericSpace: set<char> := {' ', '\t', '\n', '\r', '\U{000B}', '\U{000C}'}

  /** The range of PHP's 64-bit int. */
  const IntMin: int := -0x8000_0000_0000_0000
  const IntMax: int := 0x7FFF_FFFF_FFFF_FFFF

  predicate IsDigit(c: char)
  {
    '0' <= c <= '9'
  }

  predicate AllDigits(s: string)
  {
    forall i :: 0 <= i < |s| ==> IsDigit(s[i])
  }

  predicate IsSign(s: string)
  {
    s == "" || s == "+" || s == "-"
  }

  datatype Exponent = Exponent(marker: char, sign: string, digits: string)

  /** The parts of a numeric string once its surrounding whitespace is gone. */
  datatype Numeral = Numeral(sign: string, whole: string, dot: bool, frac: string, exponent: Option<Exponent>)

  predicate ValidExponent(e: Exponent)
  {
    (e.marker == 'e' || e.marker == 'E') && IsSign(e.sign) && e.digits != [] && AllDigits(e.digits)
  }

  predicate ValidNumeral(n: Numeral)
  {
    IsSign(n.sign) && AllDigits(n.whole) && AllDigits(n.frac) &&
    (if n.dot then |n.whole| + |n.frac| > 0 else n.whole != [] && n.frac == []) &&
    (n.exponent.Some? ==> ValidExponent(n.exponent.value))
  }

  function ExponentText(e: Option<Exponent>): string
  {
    match e
    case None => ""
    case Some(x) => [x.marker] + (x.sign + x.digits)
  }

  function MantissaText(whole: string, dot: bool, frac: string): string
  {
    if dot then whole + ("." + frac) else whole
  }

  /** The text a numeral is written as. */
  function Spell(n: Numeral): string
  {
    n.sign + (MantissaText(n.whole, n.dot, n.frac) + ExponentText(n.exponent))
  }

  /** The index of the first character of s that is in cs. */
  function FirstIndexOf(s: string, cs: set<char>): (r: Option<nat>)
    ensures r.Some? ==> r.value < |s| && s[r.value] in cs && forall j :: 0 <= j < r.value ==> s[j] !in cs
    ensures r.None? ==> forall j :: 0 <= j < |s| ==> s[j] !in cs
  {
    if s == [] then None
    else if s[0] in cs then Some(0)
    else match FirstIndexOf(s[1..], cs)
      case None => None
      case Some(i) => Some(i + 1)
  }

  function SplitSign(s: string): (r: (string, string))
    ensures IsSign(r.0) && s == r.0 + r.1
  {
    if s != [] && (s[0] == '+' || s[0] == '-') then (s[..1], s[1..]) else ("", s)
  }

  function ParseMantissa(sign: string, m: string, e: Option<Exponent>): (r: Option<Numeral>)
    ensures r.Some? ==> Spell(r.value) == sign + (m + ExponentText(e))
    ensures r.Some? && IsSign(sign) && (e.Some? ==> ValidExponent(e.value)) ==> ValidNumeral(r.value)
  {
    match FirstIndexOf(m, {'.'})
    case None =>
      if m != [] && AllDigits(m) then Some(Numeral(sign, m, false, "", e)) else None
    case Some(d) =>
      var whole, frac := m[..d], m[d + 1..];
      assert m == whole + ("." + frac);
      if AllDigits(whole) && AllDigits(frac) && |whole| + |frac| > 0 then Some(Numeral(sign, whole, true, frac, e))
      else None
  }

  /** Reads the numeral spelled sign + rest whose exponent marker is rest[i]. */
  function ParseExponentForm(sign: string, rest: string, i: nat): (r: Option<Numeral>)
    requires IsSign(sign) && i < |rest| && (rest[i] == 'e' || rest[i] == 'E')
    ensures r.Some? ==> ValidNumeral(r.value) && Spell(r.value) == sign + rest
  {
    var tail := SplitSign(rest[i + 1..]);
    var e := Exponent(rest[i], tail.0, tail.1);
    if tail.1 != [] && AllDigits(tail.1) then
      assert ExponentText(Some(e)) == [rest[i]] + rest[i + 1..];
      assert rest[..i] + ([rest[i]] + rest[i + 1..]) == rest;
      ParseMantissa(sign, rest[..i], Some(e))
    else None
  }

  /** Reads a numeral from text that has no surrounding whitespace. */
  function ParseNumeral(t: string): (r: Option<Numeral>)
    ensures r.Some? ==> ValidNumeral(r.value) && Spell(r.value) == t
  {
    var split := SplitSign(t);
    var sign, rest := split.0, split.1;
    var marker := FirstIndexOf(rest, {'e', 'E'});
    if marker.None? then
      assert rest + ExponentText(None) == rest;
      ParseMantissa(sign, rest, None)
    else
      ParseExponentForm(sign, rest, marker.value)
  }

  /** is_numeric($s) for a string. */
  predicate IsNumeric(s: string)
  {
    ParseNumeral(Trim(s, NumericSpace)).Some?
  }

  lemma {:induction false} FirstIndexOfSkips(a: string, b: string, cs: set<char>)
    requires forall j :: 0 <= j < |a| ==> a[j] !in cs
    ensures FirstIndexOf(a + b, cs) == match FirstIndexOf(b, cs) case None => None case Some(i) => Some(|a| + i)
    decreases |a|
  {
    if a == [] {
      assert a + b == b;
    } else {
      assert (a + b)[0] == a[0] && (a + b)[1..] == a[1..] + b;
      FirstIndexOfSkips(a[1..], b, cs);
    }
  }

  lemma ParseMantissaSpelled(n: Numeral)
    requires ValidNumeral(n)
    ensures ParseMantissa(n.sign, MantissaText(n.whole, n.dot, n.frac), n.exponent) == Some(n)
  {
    var m := MantissaText(n.whole, n.dot, n.frac);
    if n.dot {
      FirstIndexOfSkips(n.whole, "." + n.frac, {'.'});
      assert m == n.whole + ("." + n.frac);
      assert m[..|n.whole|] == n.whole && m[|n.whole| + 1..] == n.frac;
    } else {
      FirstIndexOfSkips(n.whole, "", {'.'});
      assert n.whole + "" == n.whole;
    }
  }

  lemma SplitSignOf(sign: string, body: string)
    requires IsSign(sign) && body != [] && body[0] != '+' && body[0] != '-'
    ensures SplitSign(sign + body) == (sign, body)
  {
    if sign == "" {
      assert sign + body == body;
    } else {
      assert (sign + body)[..1] == sign && (sign + body)[1..] == body;
    }
  }

  lemma ParseExponentFormSpelled(n: Numeral)
    requires ValidNumeral(n) && n.exponent.Some?
    ensures var m := MantissaText(n.whole, n.dot, n.frac);
      ParseExponentForm(n.sign, m + ExponentText(n.exponent), |m|) == Some(n)
  {
    var m := MantissaText(n.whole, n.dot, n.frac);
    var e := n.exponent.value;
    var x := e.sign + e.digits;
    var rest := m + ([e.marker] + x);
    assert rest[..|m|] == m;
    assert rest[|m|..] == [e.marker] + x;
    assert rest[|m|] == e.marker && rest[|m| + 1..] == x by {
      assert rest[|m| + 1..] == rest[|m|..][1..];
    }
    SplitSignOf(e.sign, e.digits);
    ParseMantissaSpelled(n);
  }

  lemma MantissaChars(n: Numeral)
    requires ValidNumeral(n)
    ensures var m := MantissaText(n.whole, n.dot, n.frac);
      m != [] && m[0] != '+' && m[0] != '-' && (forall j :: 0 <= j < |m| ==> m[j] !in {'e', 'E'}) &&
      (forall j :: 0 <= j < |m| ==> IsDigit(m[j]) || m[j] == '.')
  {
    var m := MantissaText(n.whole, n.dot, n.frac);
    forall j | 0 <= j < |m| ensures IsDigit(m[j]) || m[j] == '.' {
      if n.dot && j >= |n.whole| {
        assert m[j] == ("." + n.frac)[j - |n.whole|];
      }
    }
  }

  /** A numeric string starts with whitespace, a sign, a digit or a decimal point. */
  lemma NumericFirstChar(t: string)
    requires IsNumeric(t) && t != []
    ensures t[0] in NumericSpace || t[0] == '+' || t[0] == '-' || t[0] == '.' || IsDigit(t[0])
  {
    if t[0] !in NumericSpace {
      var r := Trim(t, NumericSpace);
      assert TrimLeft(t, NumericSpace) == t;
      SpellFirst(ParseNumeral(r).value);
    }
  }

  /** A numeral's text starts with a sign, a digit or a decimal point. */
  lemma SpellFirst(n: Numeral)
    requires ValidNumeral(n)
    ensures var t := Spell(n); t != [] && (t[0] == '+' || t[0] == '-' || t[0] == '.' || IsDigit(t[0]))
  {
    MantissaChars(n);
    if n.sign == "" {
      assert Spell(n) == MantissaText(n.whole, n.dot, n.frac) + ExponentText(n.exponent);
    }
  }

  /** Every valid numeral is read back from its own text. */
  lemma ParseSpelled(n: Numeral)
    requires ValidNumeral(n)
    ensures ParseNumeral(Spell(n)) == Some(n)
  {
    var m := MantissaText(n.whole, n.dot, n.frac);
    var x := ExponentText(n.exponent);
    MantissaChars(n);
    SplitSignOf(n.sign, m + x);
    FirstIndexOfSkips(m, x, {'e', 'E'});
    if n.exponent.None? {
      assert m + x == m;
      ParseMantissaSpelled(n);
    } else {
      assert FirstIndexOf(x, {'e', 'E'}) == Some(0);
      ParseExponentFormSpelled(n);
    }
  }

  /**
   * What is_numeric accepts: exactly the strings that are a valid numeral with
   * whitespace around it.
   */
  lemma IsNumericIsNumeral(s: string)
    ensures IsNumeric(s) <==> exists n :: ValidNumeral(n) && Spell(n) == Trim(s, NumericSpace)
  {
    if exists n :: ValidNumeral(n) && Spell(n) == Trim(s, NumericSpace) {
      var n :| ValidNumeral(n) && Spell(n) == Trim(s, NumericSpace);
      ParseSpelled(n);
    }
  }

  function DigitValue(c: char): nat
  {
    if IsDigit(c) then (c as int - '0' as int) else 0
  }

  /** The value of a string of decimal digits. */
  function DigitsValue(s: string): nat
  {
    if s == [] then 0 else 10 * DigitsValue(s[..|s| - 1]) + DigitValue(s[|s| - 1])
  }

  function Pow10(e: nat): (r: nat)
    ensures r >= 1
  {
    if e == 0 then 1 else 10 * Pow10(e - 1)
  }

  function Saturate(x: int): (r: int)
    ensures IntMin <= r <= IntMax
    ensures IntMin <= x <= IntMax ==> r == x
    ensures x < IntMin ==> r == IntMin
    ensures x > IntMax ==> r == IntMax
  {
    if x < IntMin then IntMin else if x > IntMax then IntMax else x
  }

  /** The value of a numeral without a decimal point, truncated toward zero. */
  function IntegerValue(n: Numeral): int
  {
    var m := DigitsValue(n.whole);
    var e: int := match n.exponent
      case None => 0
      case Some(x) => if x.sign == "-" then -(DigitsValue(x.digits) as int) else DigitsValue(x.digits) as int;
    var magnitude := if e >= 0 then m * Pow10(e) else m / Pow10(-e);
    if n.sign == "-" then -magnitude else magnitude
  }

  /** (int)$s for a numeric string without a decimal point. */
  function IntCast(s: string): (r: int)
    requires IsNumeric(s) && '.' !in s
    ensures IntMin <= r <= IntMax
  {
    Saturate(IntegerValue(ParseNumeral(Trim(s, NumericSpace)).value))
  }

  function DigitChar(d: nat): char
    requires d < 10
  {
    ('0' as int + d) as char
  }

  /** The decimal digits of a natural number, without leading zeros. */
  function Digits(n: nat): (r: string)
    ensures r != [] && AllDigits(r)
  {
    if n < 10 then [DigitChar(n)] else Digits(n / 10) + [DigitChar(n % 10)]
  }

  /** The text PHP writes for an int. */
  function Decimal(i: int): string
  {
    if i < 0 then "-" + Digits(-i) else Digits(i)
  }

  lemma {:induction false} DigitsValueOfDigits(n: nat)
    ensures DigitsValue(Digits(n)) == n
  {
    if n >= 10 {
      var s := Digits(n);
      assert s[..|s| - 1] == Digits(n / 10);
      DigitsValueOfDigits(n / 10);
    }
  }

  lemma DecimalUntrimmed(i: int)
    ensures Trim(Decimal(i), NumericSpace) == Decimal(i)
  {
    var s := Decimal(i);
    var d := Digits(if i < 0 then -i else i);
    assert IsDigit(d[|d| - 1]);
    assert s[|s| - 1] == d[|d| - 1];
    assert s[0] == '-' || s[0] == d[0];
    TrimNothing(s, NumericSpace);
  }

  /** The numeral an int's decimal text is made of. */
  function DecimalNumeral(i: int): (n: Numeral)
    ensures ValidNumeral(n) && Spell(n) == Decimal(i)
  {
    var n := Numeral(if i < 0 then "-" else "", Digits(if i < 0 then -i else i), false, "", None);
    assert Spell(n) == n.sign + (n.whole + "");
    assert n.whole + "" == n.whole;
    n
  }

  lemma DecimalHasNoDot(i: int)
    ensures '.' !in Decimal(i)
  {
    var d := Digits(if i < 0 then -i else i);
    assert '.' !in d by {
      assert forall j :: 0 <= j < |d| ==> IsDigit(d[j]);
    }
  }

  lemma IntegerValueWithoutExponent(n: Numeral)
    requires n.exponent.None?
    ensures IntegerValue(n) == if n.sign == "-" then -(DigitsValue(n.whole) as int) else DigitsValue(n.whole)
  {
    assert Pow10(0) == 1;
  }

  /** A string of digits, leading zeros included, is numeric and casts to the number it denotes. */
  lemma DigitStringCast(s: string)
    requires s != [] && AllDigits(s)
    ensures IsNumeric(s) && '.' !in s
    ensures IntCast(s) == Saturate(DigitsValue(s))
  {
    var n := Numeral("", s, false, "", None);
    assert ValidNumeral(n);
    assert Spell(n) == s by {
      assert Spell(n) == "" + (s + "");
    }
    assert IsDigit(s[|s| - 1]);
    TrimNothing(s, NumericSpace);
    ParseSpelled(n);
    IntegerValueWithoutExponent(n);
    assert !IsDigit('.');
  }

  /** The decimal text of an int is numeric and casts back to the same int. */
  lemma DecimalRoundTrip(i: int)
    requires IntMin <= i <= IntMax
    ensures IsNumeric(Decimal(i)) && '.' !in Decimal(i)
    ensures IntCast(Decimal(i)) == i
  {
    var mag: nat := if i < 0 then -i else i;
    DigitsValueOfDigits(mag);
    var n := DecimalNumeral(i);
    IntegerValueWithoutExponent(n);
    assert IntegerValue(n) == i;
    DecimalUntrimmed(i);
    ParseSpelled(n);
    assert ParseNumeral(Trim(Decimal(i), NumericSpace)) == Some(n);
    DecimalHasNoDot(i);
  }
}
