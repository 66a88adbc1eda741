/** Decimal numerals for natural numbers: the rendering that a JavaScript
    template literal applies to a non-negative integer `${n}`, and the
    reading of a digit string back to the number it denotes. */
module Decimal {

  predicate IsDigit(c: char) {
    '0' <= c <= '9'
  }

  predicate AllDigits(s: string) {
    forall i :: 0 <= i < |s| ==> IsDigit(s[i])
  }

  /** A numeral as the renderer writes it: at least one digit, and no
      leading zero unless the numeral is "0" itself. */
  predicate IsCanonical(s: string) {
    |s| >= 1 && AllDigits(s) && (s[0] == '0' ==> s == "0")
  }

  function DigitValue(c: char): (d: nat)
    requires IsDigit(c)
    ensures d < 10
  {
    c as int - '0' as int
  }

  function DigitChar(d: nat): (c: char)
    requires d < 10
    ensures IsDigit(c) && DigitValue(c) == d
  {
    ('0' as int + d) as char
  }

  /** The number a digit string denotes, read most significant digit first. */
  function DigitsValue(s: string): nat
    requires AllDigits(s)
  {
    if s == [] then 0 else DigitsValue(s[..|s| - 1]) * 10 + DigitValue(s[|s| - 1])
  }

  /** The decimal numeral of `n`; reading it back gives `n`. */
  function NatToDecimal(n: nat): (s: string)
    ensures IsCanonical(s)
    ensures DigitsValue(s) == n
  {
    if n < 10 then [DigitChar(n)]
    else
      var prefix := NatToDecimal(n / 10);
      assert (prefix + [DigitChar(n % 10)])[..|prefix|] == prefix;
      prefix + [DigitChar(n % 10)]
  }

  /** A canonical numeral with two or more digits denotes at least ten. */
  lemma {:induction false} LongNumeralAtLeastTen(s: string)
    requires IsCanonical(s) && |s| >= 2
    ensures DigitsValue(s) >= 10
  {
    var p := s[..|s| - 1];
    assert p[0] == s[0];
    if |p| >= 2 {
      LongNumeralAtLeastTen(p);
    } else {
      assert p == [s[0]];
      assert DigitsValue(p) == DigitValue(s[0]) >= 1;
    }
  }

  /** The other half of the round trip: every canonical numeral is the
      rendering of the number it denotes. */
  lemma {:induction false} DecimalOfValue(s: string)
    requires IsCanonical(s)
    ensures NatToDecimal(DigitsValue(s)) == s
  {
    if |s| == 1 {
      assert s == [s[0]];
      assert DigitsValue(s) == DigitValue(s[0]);
    } else {
      var p := s[..|s| - 1];
      assert p[0] == s[0];
      LongNumeralAtLeastTen(s);
      DecimalOfValue(p);
      var n := DigitsValue(s);
      assert n / 10 == DigitsValue(p) && n % 10 == DigitValue(s[|s| - 1]);
      assert s == p + [s[|s| - 1]];
    }
  }

  /** Rendering is one-to-one: distinct numbers give distinct numerals. */
  lemma NatToDecimalInjective(m: nat, n: nat)
    requires NatToDecimal(m) == NatToDecimal(n)
    ensures m == n
  {
  }

  /** A run of digits followed by text that does not start with a digit can
      be split in only one way, so a numeral embedded before a non-digit
      can be recovered from the combined string. */
  lemma DigitRunSplit(a: string, x: string, b: string, y: string)
    requires AllDigits(a) && AllDigits(b)
    requires |x| >= 1 && !IsDigit(x[0])
    requires |y| >= 1 && !IsDigit(y[0])
    requires a + x == b + y
    ensures a == b && x == y
  {
    // At the first position past the shorter run, a digit is read exactly
    // when that run is not over yet; both strings agree there.
    var k := if |a| < |b| then |a| else |b|;
    assert IsDigit((a + x)[k]) <==> k < |a|;
    assert IsDigit((b + y)[k]) <==> k < |b|;
    assert a == (a + x)[..|a|];
    assert b == (b + y)[..|b|];
    assert x == (a + x)[|a|..];
    assert y == (b + y)[|b|..];
  }
}
