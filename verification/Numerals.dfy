/** Numerals in a base, as strings of digits with the most significant first. */
module Numerals {

  predicate IsBase(b: nat) {
    2 <= b <= 36
  }

  function Digit(d: nat): char
    requires d < 36
  {
    if d < 10 then '0' + d as char else 'a' + (d - 10) as char
  }

  /** The digit value of a character, 36 for no digit. */
  function DigitValue(c: char): (d: nat)
    ensures d <= 36
  {
    if '0' <= c <= '9' then (c - '0') as nat else if 'a' <= c <= 'z' then (c - 'a') as nat + 10 else 36
  }

  lemma DigitRoundTrip(d: nat)
    requires d < 36
    ensures DigitValue(Digit(d)) == d
  {
  }

  lemma DigitUnique(c: char)
    requires DigitValue(c) < 36
    ensures Digit(DigitValue(c)) == c
  {
  }

  function Numeral(v: nat, b: nat): (s: string)
    requires IsBase(b)
    ensures s != ""
  {
    if v < b then [Digit(v)] else Smaller(v, b); Numeral(v / b, b) + [Digit(v % b)]
  }

  lemma Smaller(v: nat, b: nat)
    requires 2 <= b && v > 0
    ensures v / b < v && v == b * (v / b) + v % b && v % b < b
  {
    assert v == b * (v / b) + v % b;
    if v / b >= v {
      Larger(b, v / b, v);
      assert false;
    }
  }

  lemma Larger(b: nat, q: nat, v: nat)
    requires 2 <= b && q >= v > 0
    ensures b * q > v
  {
    assert b * q >= 2 * q;
  }

  /** The value of a string of digits. */
  function Value(s: string, b: nat): nat {
    if s == "" then 0 else b * Value(s[..|s| - 1], b) + DigitValue(s[|s| - 1])
  }

  /** Digits of the base, and no leading zero except in "0" itself. */
  ghost predicate Canonical(s: string, b: nat) {
    && s != "" && (forall i {:trigger s[i]} :: 0 <= i < |s| ==> DigitValue(s[i]) < b)
    && (s[0] == '0' ==> |s| == 1)
  }

  /** The numeral of a number has that number as its value and no leading zero. */
  lemma {:induction false} NumeralIs(v: nat, b: nat)
    requires IsBase(b)
    ensures Value(Numeral(v, b), b) == v && Canonical(Numeral(v, b), b)
    ensures Numeral(v, b)[0] == '0' ==> v == 0
    decreases v
  {
    if v < b {
      DigitRoundTrip(v);
      assert Numeral(v, b)[..0] == "";
      assert Value("", b) == 0;
    } else {
      Smaller(v, b);
      NumeralIs(v / b, b);
      DigitRoundTrip(v % b);
      var s := Numeral(v / b, b);
      assert Numeral(v, b) == s + [Digit(v % b)];
      assert (s + [Digit(v % b)])[..|s|] == s;
      NotZero(v, b);
    }
  }

  lemma TimesAtLeast(b: nat, k: int)
    requires k >= 1
    ensures b * k >= b
  {
  }

  lemma TimesAtMost(b: nat, k: int)
    requires k <= 0
    ensures b * k <= 0
  {
  }

  lemma TimesSum(b: nat, k: int)
    ensures b * (k + 1) == b * k + b
  {
  }

  lemma NotZero(v: nat, b: nat)
    requires 2 <= b <= v
    ensures v / b > 0
  {
    var q := v / b;
    assert v == b * q + v % b;
    if q == 0 { TimesAtMost(b, q); }
  }

  /** No other string is a numeral of the number. */
  lemma {:induction false} NumeralUnique(s: string, b: nat)
    requires IsBase(b) && Canonical(s, b)
    ensures s == Numeral(Value(s, b), b)
    decreases |s|
  {
    hide Numeral, DigitValue, Digit;
    var n := |s| - 1;
    var t, d := s[..n], DigitValue(s[n]);
    DigitUnique(s[n]);
    if n == 0 {
      OneDigit(s, b);
    } else {
      CanonicalPrefix(s, b);
      NumeralUnique(t, b);
      NonZero(t, b);
      NumeralStep(Value(t, b), d, b);
    }
  }

  lemma OneDigit(s: string, b: nat)
    requires IsBase(b) && |s| == 1 && DigitValue(s[0]) < b
    ensures s == Numeral(Value(s, b), b)
  {
    assert s[..0] == "" && Value("", b) == 0;
    DigitUnique(s[0]);
  }

  lemma NumeralStep(q: nat, d: nat, b: nat)
    requires IsBase(b) && d < b && q > 0
    ensures Numeral(b * q + d, b) == Numeral(q, b) + [Digit(d)]
  {
    QuotientIs(b, q, d);
  }

  lemma CanonicalPrefix(s: string, b: nat)
    requires Canonical(s, b) && |s| > 1
    ensures Canonical(s[..|s| - 1], b) && s[..|s| - 1][0] != '0'
  {
    var t := s[..|s| - 1];
    forall i {:trigger t[i]} | 0 <= i < |t| ensures DigitValue(t[i]) < b { assert t[i] == s[i]; }
  }

  lemma {:induction false} NonZero(s: string, b: nat)
    requires IsBase(b) && Canonical(s, b) && s[0] != '0'
    ensures Value(s, b) > 0
    decreases |s|
  {
    var t := s[..|s| - 1];
    if |s| > 1 {
      CanonicalPrefix(s, b);
      NonZero(t, b);
      TimesAtLeast(b, Value(t, b));
    } else {
      assert Value(t, b) == 0;
    }
  }

  lemma QuotientIs(b: nat, q: nat, d: nat)
    requires 2 <= b && d < b && q > 0
    ensures (b * q + d) / b == q && (b * q + d) % b == d && b * q + d >= b
  {
    var n := b * q + d;
    assert n == b * (n / b) + n % b;
    var k := n / b - q;
    assert b * k == d - n % b;
    if k >= 1 { TimesAtLeast(b, k); }
    if k <= -1 { TimesAtMost(b, k + 1); TimesSum(b, k); }
    TimesAtLeast(b, q);
  }

  // ----- length -----

  function Pow8(k: nat): nat {
    if k == 0 then 1 else 8 * Pow8(k - 1)
  }

  lemma EightTimes(b: nat, q: nat, r: nat)
    requires b >= 8
    ensures 8 * q <= b * q + r
  {
  }

  lemma {:induction false} LengthBound(v: nat, b: nat, k: nat)
    requires IsBase(b) && b >= 8 && v < Pow8(k) && k > 0
    ensures |Numeral(v, b)| <= k
    decreases k
  {
    if v >= b {
      Smaller(v, b);
      NotZero(v, b);
      var q := v / b;
      EightTimes(b, q, v % b);
      LengthBound(q, b, k - 1);
    }
  }
}
