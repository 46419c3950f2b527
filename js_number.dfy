/**
 * JavaScript's Number() applied to a string of at most two characters, the only strings the
 * time fields pass to it. Values are kept in tenths, so that "5." is 50 and ".5" is 5 and no
 * floating point is needed; NaN is None.
 */
module JsNumber {
  import opened Wrappers
  import opened JsString

  predicate IsDigit(c: char) {
    '0' <= c <= '9'
  }

  function DigitValue(c: char): (n: nat)
    requires IsDigit(c)
    ensures n <= 9
  {
    c as int - '0' as int
  }

  predicate AllDigits(s: string) {
    forall i :: 0 <= i < |s| ==> IsDigit(s[i])
  }

  function Pow10(k: nat): (p: nat)
    ensures p >= 1
  {
    if k == 0 then 1 else 10 * Pow10(k - 1)
  }

  /** The value of a run of decimal digits, most significant first. */
  function DigitsValue(s: string): (n: nat)
    requires AllDigits(s)
    ensures n < Pow10(|s|)
  {
    if s == [] then 0 else 10 * DigitsValue(s[..|s| - 1]) + DigitValue(s[|s| - 1])
  }

  /** Ten times Number(t) for an already trimmed t of at most two characters. The empty string
      is 0; otherwise one or two digits, a sign and a digit, "d." or ".d". A hexadecimal, octal
      or binary literal, an exponent and "Infinity" all need three characters or more. */
  function ShortNumeralTenths(t: string): Option<int>
    requires |t| <= 2
  {
    if |t| == 0 then Some(0)
    else if |t| == 1 then (if IsDigit(t[0]) then Some(10 * DigitValue(t[0])) else None)
    else if IsDigit(t[0]) && IsDigit(t[1]) then Some(10 * (10 * DigitValue(t[0]) + DigitValue(t[1])))
    else if t[0] == '+' && IsDigit(t[1]) then Some(10 * DigitValue(t[1]))
    else if t[0] == '-' && IsDigit(t[1]) then Some(-10 * DigitValue(t[1]))
    else if IsDigit(t[0]) && t[1] == '.' then Some(10 * DigitValue(t[0]))
    else if t[0] == '.' && IsDigit(t[1]) then Some(DigitValue(t[1]))
    else None
  }

  /** Ten times Number(s), or None where Number(s) is NaN: white space around the numeral is
      ignored, as StringToNumber does. */
  function NumberTenths(s: string): Option<int>
    requires |s| <= 2
  {
    ShortNumeralTenths(Trim(s))
  }

  /** A decimal numeral worth (negative ? -1 : 1) * mantissa / 10^scale. */
  datatype Decimal = Decimal(negative: bool, mantissa: nat, scale: nat)

  /** Reference grammar, of any length: StrUnsignedDecimalLiteral without an exponent part and
      without Infinity, that is DecimalDigits [ "." [DecimalDigits] ] or "." DecimalDigits. */
  function UnsignedDecimal(u: string): Option<Decimal> {
    var i := IndexOf(u, '.');
    var whole := u[..i];
    var fraction := if i < |u| then u[i + 1..] else [];
    if AllDigits(whole) && AllDigits(fraction) && |whole| + |fraction| > 0 then
      Some(Decimal(false, DigitsValue(whole) * Pow10(|fraction|) + DigitsValue(fraction), |fraction|))
    else None
  }

  /** Reference grammar: StrDecimalLiteral without an exponent part and without Infinity,
      that is an optional sign followed by an unsigned numeral. */
  function DecimalLiteral(t: string): Option<Decimal> {
    if |t| > 0 && (t[0] == '+' || t[0] == '-') then
      match UnsignedDecimal(t[1..])
      case None => None
      case Some(d) => Some(d.(negative := t[0] == '-'))
    else UnsignedDecimal(t)
  }

  /** Ten times the value of a numeral with at most one fractional digit. */
  function Tenths(d: Decimal): int
    requires d.scale <= 1
  {
    (if d.negative then -1 else 1) * d.mantissa * Pow10(1 - d.scale)
  }

  /** The case list of ShortNumeralTenths is exactly the reference grammar cut down to two
      characters: it accepts the same numerals and gives them the same value. */
  lemma ShortNumeralMatchesGrammar(t: string)
    requires |t| <= 2
    ensures t == [] ==> ShortNumeralTenths(t) == Some(0)
    ensures t != [] ==> (ShortNumeralTenths(t).Some? <==> DecimalLiteral(t).Some?)
    ensures DecimalLiteral(t).Some? ==>
      DecimalLiteral(t).value.scale <= 1 && ShortNumeralTenths(t) == Some(Tenths(DecimalLiteral(t).value))
  {
    if |t| == 1 {
      assert t == [t[0]];
      OneCharGrammar(t[0]);
    } else if |t| == 2 {
      assert t == [t[0], t[1]];
      TwoCharGrammar(t[0], t[1]);
    }
  }

  /** One character: a numeral exactly when it is a digit, one with no fractional part. */
  lemma OneCharGrammar(c: char)
    ensures UnsignedDecimal([c]) == if IsDigit(c) then Some(Decimal(false, DigitValue(c), 0)) else None
    ensures DecimalLiteral([c]) == UnsignedDecimal([c])
  {
    if c == '.' {
      assert IndexOf([c], '.') == 0;
      assert [c][..0] == [] && [c][1..] == [];
    } else {
      assert IndexOf([c], '.') == 1;
      assert [c][..1] == [c] && [c][..0] == [];
    }
  }

  /** Two characters: a sign before one character, or one of the unsigned forms. */
  lemma TwoCharGrammar(a: char, b: char)
    ensures ShortNumeralTenths([a, b]).Some? <==> DecimalLiteral([a, b]).Some?
    ensures DecimalLiteral([a, b]).Some? ==>
      DecimalLiteral([a, b]).value.scale <= 1 && ShortNumeralTenths([a, b]) == Some(Tenths(DecimalLiteral([a, b]).value))
  {
    if a == '+' || a == '-' {
      assert [a, b][1..] == [b];
      OneCharGrammar(b);
    } else if a == '.' {
      PointFirstGrammar(b);
    } else if b == '.' {
      PointSecondGrammar(a);
    } else {
      NoPointGrammar(a, b);
    }
  }

  /** ".d" is d tenths; "." followed by anything else is not a numeral. */
  lemma PointFirstGrammar(c: char)
    ensures UnsignedDecimal(['.', c]) == if IsDigit(c) then Some(Decimal(false, DigitValue(c), 1)) else None
  {
    var t := ['.', c];
    assert IndexOf(t, '.') == 0;
    assert t[..0] == [] && t[1..] == [c];
    assert [c][..0] == [];
  }

  /** "d." is d; any other character followed by "." is not a numeral. */
  lemma PointSecondGrammar(c: char)
    requires c != '.'
    ensures UnsignedDecimal([c, '.']) == if IsDigit(c) then Some(Decimal(false, DigitValue(c), 0)) else None
  {
    var t := [c, '.'];
    assert IndexOf(t, '.') == 1;
    assert t[..1] == [c] && [c][..0] == [];
    assert t[2..] == [];
  }

  /** Two characters without a point are a numeral exactly when both are digits. */
  lemma NoPointGrammar(a: char, b: char)
    requires a != '.' && b != '.'
    ensures UnsignedDecimal([a, b]) ==
      if IsDigit(a) && IsDigit(b) then Some(Decimal(false, 10 * DigitValue(a) + DigitValue(b), 0)) else None
  {
    var t := [a, b];
    assert IndexOf(t, '.') == 2;
    assert t[..2] == t;
    assert t[2..] == [];
    if IsDigit(a) && IsDigit(b) {
      assert t[..1] == [a] && [a][..0] == [];
      assert DigitsValue(t) == 10 * DigitValue(a) + DigitValue(b);
      assert DigitsValue([]) == 0 && Pow10(0) == 1;
    }
  }

  /** Two characters neither of which is white space are read without trimming. */
  lemma UnpaddedPair(a: char, b: char)
    requires !IsWhite(a) && !IsWhite(b)
    ensures NumberTenths([a, b]) == ShortNumeralTenths([a, b])
  {
    TrimUnpadded([a, b]);
  }

  /** Number() of s through its trimmed form, as a step for concrete strings. */
  lemma NumberOfTrimmed(s: string, t: string)
    requires |s| <= 2 && Trim(s) == t
    ensures NumberTenths(s) == ShortNumeralTenths(t)
  {
  }

  /** Number() ignores a white-space character before a digit ... */
  lemma LeftPaddedDigit(w: char, c: char)
    requires IsWhite(w) && IsDigit(c)
    ensures NumberTenths([w, c]) == Some(10 * DigitValue(c))
  {
    DigitIsNotWhite(c);
    TrimStartDropsOne(w, c);
    NumberOfTrimmed([w, c], [c]);
  }

  lemma TrimStartDropsOne(w: char, c: char)
    requires IsWhite(w) && !IsWhite(c)
    ensures Trim([w, c]) == [c]
  {
    assert TrimEnd([w, c]) == [w, c];
    assert [w, c][1..] == [c];
    assert TrimStart([c]) == [c];
  }

  /** ... and after it. */
  lemma RightPaddedDigit(w: char, c: char)
    requires IsWhite(w) && IsDigit(c)
    ensures NumberTenths([c, w]) == Some(10 * DigitValue(c))
  {
    DigitIsNotWhite(c);
    TrimEndDropsOne(c, w);
    NumberOfTrimmed([c, w], [c]);
  }

  lemma TrimEndDropsOne(c: char, w: char)
    requires IsWhite(w) && !IsWhite(c)
    ensures Trim([c, w]) == [c]
  {
    assert [c, w][..1] == [c];
    assert TrimEnd([c]) == [c];
    assert TrimStart([c]) == [c];
  }

  lemma DigitIsNotWhite(c: char)
    requires IsDigit(c)
    ensures !IsWhite(c)
  {
  }

  lemma TrimDigits(s: string)
    requires AllDigits(s)
    ensures Trim(s) == s
  {
    if s != [] {
      DigitIsNotWhite(s[0]);
      DigitIsNotWhite(s[|s| - 1]);
    }
    TrimUnpadded(s);
  }

  lemma ShortDigitsValue(s: string)
    requires 1 <= |s| <= 2 && AllDigits(s)
    ensures DigitsValue(s) == if |s| == 1 then DigitValue(s[0]) else 10 * DigitValue(s[0]) + DigitValue(s[1])
  {
    assert s[..1] == [s[0]] && [s[0]][..0] == [];
  }

  /** A field holding at most two ASCII digits is read as the decimal number they spell. */
  lemma DigitStringValue(s: string)
    requires |s| <= 2 && AllDigits(s)
    ensures NumberTenths(s) == Some(10 * DigitsValue(s))
  {
    TrimDigits(s);
    if s != [] {
      ShortDigitsValue(s);
    }
  }

  /** The empty string and strings of white space only are read as zero. */
  lemma WhiteStringIsZero(s: string)
    requires |s| <= 2 && forall i :: 0 <= i < |s| ==> IsWhite(s[i])
    ensures NumberTenths(s) == Some(0)
  {
    TrimAllWhite(s);
  }
}
