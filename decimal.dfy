/**
 * The numeric conversion `pd.to_numeric(..., errors='coerce')` applies to a
 * cleaned weight string, restricted to plain decimal literals: optional
 * surrounding ASCII whitespace, an optional sign, digits with at most one
 * decimal point, and at least one digit. Anything else is "not a number"
 * (None), which the script turns into NaN and then drops.
 */
module Decimal {
  import opened Wrappers
  import opened Text

  predicate IsDigit(c: char) {
    '0' <= c <= '9'
  }

  predicate AllDigits(s: string) {
    forall i :: 0 <= i < |s| ==> IsDigit(s[i])
  }

  function DigitValue(c: char): nat
    requires IsDigit(c)
  {
    c as int - '0' as int
  }

  function DigitChar(d: nat): (c: char)
    requires d < 10
  {
    ('0' as int + d) as char
  }

  /** The value of a string of decimal digits, most significant first. */
  function DigitsValue(s: string): nat
    requires AllDigits(s)
    decreases |s|
  {
    if s == [] then 0 else DigitsValue(s[..|s| - 1]) * 10 + DigitValue(s[|s| - 1])
  }

  function Pow10(n: nat): (r: nat)
    ensures r >= 1
  {
    if n == 0 then 1 else 10 * Pow10(n - 1)
  }

  /** Position of the first occurrence of `c` in `s`. */
  function IndexOf(s: string, c: char): (i: nat)
    requires c in s
    ensures i < |s| && s[i] == c
    ensures forall j :: 0 <= j < i ==> s[j] != c
  {
    if s[0] == c then 0 else 1 + IndexOf(s[1..], c)
  }

  /** The value of the digits after a decimal point: frac / 10^|frac|. */
  function FractionValue(frac: string): real
    requires AllDigits(frac)
  {
    DigitsValue(frac) as real / Pow10(|frac|) as real
  }

  /** An unsigned literal: digits, at most one '.', at least one digit ("1.", ".5" and "12" are accepted, "." is not). */
  function ParseUnsigned(s: string): Option<real> {
    if '.' in s then
      var i := IndexOf(s, '.');
      var whole, frac := s[..i], s[i + 1..];
      if AllDigits(whole) && AllDigits(frac) && |whole| + |frac| > 0
      then Some(DigitsValue(whole) as real + FractionValue(frac))
      else None
    else if s != [] && AllDigits(s) then Some(DigitsValue(s) as real)
    else None
  }

  /** A decimal literal with an optional leading '+' or '-'. */
  function ParseDecimal(s: string): Option<real> {
    if s != [] && s[0] == '-' then
      match ParseUnsigned(s[1..])
      case Some(x) => Some(-x)
      case None => None
    else if s != [] && s[0] == '+' then ParseUnsigned(s[1..])
    else ParseUnsigned(s)
  }

  /** `pd.to_numeric` on one string: surrounding ASCII whitespace is skipped. */
  function ParseNumber(s: string): Option<real> {
    ParseDecimal(Strip(s, IsAsciiSpace))
  }

  /** The literal without its sign. */
  function Magnitude(s: string): string {
    if s != [] && (s[0] == '+' || s[0] == '-') then s[1..] else s
  }

  /** Independent description of an unsigned literal: only digits and '.', at most one '.', and some digit. */
  ghost predicate IsUnsignedLiteral(b: string) {
    && (forall i :: 0 <= i < |b| ==> IsDigit(b[i]) || b[i] == '.')
    && Count(b, '.') <= 1
    && Count(b, '.') < |b|
  }

  ghost predicate IsDecimalLiteral(s: string) {
    IsUnsignedLiteral(Magnitude(s))
  }

  /** The parser accepts exactly the decimal literals. */
  lemma ParseDecimalDefinedIff(s: string)
    ensures ParseDecimal(s).Some? <==> IsDecimalLiteral(s)
  {
    ParseUnsignedDefinedIff(Magnitude(s));
  }

  lemma ParseUnsignedDefinedIff(b: string)
    ensures ParseUnsigned(b).Some? <==> IsUnsignedLiteral(b)
  {
    if '.' in b {
      PointedDefinedIff(b);
    } else {
      CountZero(b, '.');
      if forall j :: 0 <= j < |b| ==> IsDigit(b[j]) || b[j] == '.' {
        forall j | 0 <= j < |b| ensures IsDigit(b[j]) {
          assert b[j] in b;
        }
      }
    }
  }

  lemma DigitsHaveNoPoint(s: string)
    requires AllDigits(s)
    ensures '.' !in s
  {
    forall j | 0 <= j < |s| ensures s[j] != '.' {
      assert IsDigit(s[j]);
    }
  }

  /** With the first '.' at `i`, the string has one point more than its tail after `i`. */
  lemma CountAtPoint(b: string, i: nat)
    requires i < |b| && b[i] == '.' && forall j :: 0 <= j < i ==> b[j] != '.'
    ensures b == b[..i] + ['.'] + b[i + 1..]
    ensures Count(b, '.') == 1 + Count(b[i + 1..], '.')
  {
    assert b == b[..i] + ['.'] + b[i + 1..];
    CountAppend(b[..i] + ['.'], b[i + 1..], '.');
    CountAppend(b[..i], ['.'], '.');
    CountZero(b[..i], '.');
  }

  lemma PointedDefinedIff(b: string)
    requires '.' in b
    ensures ParseUnsigned(b).Some? <==> IsUnsignedLiteral(b)
  {
    var i := IndexOf(b, '.');
    var whole, frac := b[..i], b[i + 1..];
    CountAtPoint(b, i);
    if AllDigits(whole) && AllDigits(frac) && |whole| + |frac| > 0 {
      DigitsHaveNoPoint(frac);
      CountZero(frac, '.');
      forall j | 0 <= j < |b| ensures IsDigit(b[j]) || b[j] == '.' {
        if j < i { assert b[j] == whole[j]; }
        else if j > i { assert b[j] == frac[j - i - 1]; }
      }
    }
    if IsUnsignedLiteral(b) {
      CountZero(frac, '.');
      forall j | 0 <= j < |whole| ensures IsDigit(whole[j]) {
        assert whole[j] in whole;
        assert whole[j] == b[j];
      }
      forall j | 0 <= j < |frac| ensures IsDigit(frac[j]) {
        assert frac[j] in frac;
        assert frac[j] == b[i + 1 + j];
      }
    }
  }

  lemma PointPosition(whole: string, frac: string)
    requires AllDigits(whole)
    ensures '.' in whole + ['.'] + frac
    ensures IndexOf(whole + ['.'] + frac, '.') == |whole|
  {
    var s := whole + ['.'] + frac;
    assert s[|whole|] == '.';
  }

  /** A literal with a decimal point has the value of its whole part plus its fraction digits over 10^|frac|. */
  lemma ParsePointed(s: string, whole: string, frac: string)
    requires AllDigits(whole) && AllDigits(frac) && |whole| + |frac| > 0
    requires s == whole + ['.'] + frac
    ensures ParseDecimal(s) == Some(DigitsValue(whole) as real + FractionValue(frac))
  {
    SplitAtPoint(s, whole, frac);
    assert s[0] != '-' && s[0] != '+' by {
      if whole != [] { assert s[0] == whole[0]; } else { assert s[0] == '.'; }
    }
  }

  /** A leading '-' negates whatever the rest of the literal reads as. */
  lemma NegatedUnsigned(s: string, x: real)
    requires s != [] && s[0] == '-' && ParseUnsigned(s[1..]) == Some(x)
    ensures ParseDecimal(s) == Some(-x)
  {
  }

  /** "-1.5" reads as -1.5. */
  lemma MinusOneAndAHalf(s: string)
    requires s == "-1.5"
    ensures ParseDecimal(s) == Some(-1.5)
  {
    var whole, frac := "1", "5";
    var u := whole + ['.'] + frac;
    assert s[0] == '-' && s[1..] == u;
    SplitAtPoint(u, whole, frac);
    assert DigitsValue(whole) == 1;
    assert DigitsValue(frac) == 5;
    NegatedUnsigned(s, 1.5);
  }

  lemma SplitAtPoint(s: string, whole: string, frac: string)
    requires AllDigits(whole) && AllDigits(frac) && |whole| + |frac| > 0
    requires s == whole + ['.'] + frac
    ensures ParseUnsigned(s) == Some(DigitsValue(whole) as real + FractionValue(frac))
  {
    PointPosition(whole, frac);
    assert s[..|whole|] == whole && s[|whole| + 1..] == frac;
    ParseUnsignedAt(s, |whole|);
  }

  lemma ParseUnsignedAt(s: string, i: nat)
    requires '.' in s && IndexOf(s, '.') == i
    requires AllDigits(s[..i]) && AllDigits(s[i + 1..]) && |s| > 1
    ensures ParseUnsigned(s) == Some(DigitsValue(s[..i]) as real + FractionValue(s[i + 1..]))
  {
  }

  /** The decimal digits of a natural number. */
  function NatText(n: nat): (s: string)
    ensures s != [] && AllDigits(s)
  {
    if n < 10 then [DigitChar(n)] else NatText(n / 10) + [DigitChar(n % 10)]
  }

  /** Reading back the digits of `n` gives `n`. */
  lemma {:induction false} NatTextValue(n: nat)
    ensures DigitsValue(NatText(n)) == n
  {
    if n >= 10 {
      NatTextValue(n / 10);
      var s := NatText(n);
      assert s[..|s| - 1] == NatText(n / 10);
    }
  }

  /** Parsing the printed form of a natural number gives the number. */
  lemma ParseNatText(n: nat)
    ensures ParseDecimal(NatText(n)) == Some(n as real)
  {
    var s := NatText(n);
    NatTextValue(n);
    assert s[0] != '-' && s[0] != '+';
    DigitsHaveNoPoint(s);
  }
}
