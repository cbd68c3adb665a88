/** Formatted output that is safe in signal handlers: digits are written backwards into a buffer and
    reversed in place, and the format is expanded piece by piece. */
module SafePrintf {
  import opened Numerals

  function Reversed(s: string): (r: string)
    ensures |r| == |s| && forall i :: 0 <= i < |s| ==> r[i] == s[|s| - 1 - i]
  {
    if s == "" then "" else Reversed(s[1..]) + [s[0]]
  }

  lemma {:induction false} ReversedAppend(s: string, c: char)
    ensures Reversed(s + [c]) == [c] + Reversed(s)
  {
    if s != "" {
      assert (s + [c])[1..] == s[1..] + [c];
      ReversedAppend(s[1..], c);
    }
  }

  /** Two buffers that differ between lo and hi at most. */
  ghost predicate SameOutside(a: seq<char>, b: seq<char>, lo: nat, hi: nat) {
    |a| == |b| && lo <= hi <= |a| && a[..lo] == b[..lo] && a[hi..] == b[hi..]
  }

  /** The digits written so far and the numeral of what is left make up the numeral of v. */
  ghost predicate SoFar(v: nat, b: nat, more: bool, rest: nat, digits: string)
    requires IsBase(b)
  {
    Numeral(v, b) == (if more then Numeral(rest, b) else "") + Reversed(digits)
  }

  /** write_digits: the digits of v, least significant first, from offset o on. */
  method WriteDigits(v: nat, s: array<char>, o: nat, b: nat) returns (i: nat)
    requires IsBase(b) && o + |Numeral(v, b)| <= s.Length
    modifies s
    ensures i == |Numeral(v, b)| && s[o..o + i] == Reversed(Numeral(v, b)) && SameOutside(old(s[..]), s[..], o, o + i)
  {
    hide *;
    ghost var was := s[..];
    var rest: nat := v;
    i := 0;
    ghost var digits := "";
    SoFarStart(v, b);
    SameStart(was, o);
    var more := true;
    while more
      invariant |digits| == i && SameOutside(was, s[..], o, o + i) && o + i <= s.Length && s[..][o..o + i] == digits
      invariant SoFar(v, b, more, rest, digits)
      decreases more, rest
    {
      var c, q := rest % b, rest / b;
      SoFarStep(v, b, rest, digits, c, q);
      SamePut(was, s[..], o, i, Digit(c));
      PutDigit(s, o + i, c);
      i := i + 1;
      digits := digits + [Digit(c)];
      rest := q;
      more := rest > 0;
    }
    SoFarEnd(v, b, rest, digits);
    assert s[o..o + i] == s[..][o..o + i];
  }

  lemma SoFarStart(v: nat, b: nat)
    requires IsBase(b)
    ensures SoFar(v, b, true, v, "") && b > 0
  {
    assert Numeral(v, b) + "" == Numeral(v, b);
  }

  /** What one round of write_digits adds. */
  lemma SoFarStep(v: nat, b: nat, rest: nat, digits: string, c: nat, q: nat)
    requires IsBase(b) && SoFar(v, b, true, rest, digits) && c == rest % b && q == rest / b
    ensures c < 36 && |digits| < |Numeral(v, b)| && (q > 0 ==> q < rest)
    ensures SoFar(v, b, q > 0, q, digits + [Digit(c)])
  {
    hide Numeral, Reversed, Digit;
    NumeralLength(rest, b);
    ReversedLength(digits);
    LastDigit(rest, b, Reversed(digits));
    ReversedAppend(digits, Digit(c));
    if q > 0 { Smaller(rest, b); }
  }

  lemma SoFarEnd(v: nat, b: nat, rest: nat, digits: string)
    requires IsBase(b) && SoFar(v, b, false, rest, digits)
    ensures digits == Reversed(Numeral(v, b)) && |digits| == |Numeral(v, b)|
  {
    ReversedTwice(digits);
  }

  lemma SameStart(was: seq<char>, o: nat)
    requires o <= |was|
    ensures SameOutside(was, was, o, o)
  {
  }

  lemma SamePut(was: seq<char>, now: seq<char>, o: nat, i: nat, c: char)
    requires SameOutside(was, now, o, o + i) && o + i < |now|
    ensures var next := now[o + i := c];
            SameOutside(was, next, o, o + i + 1) && |next| == |now| && next[o..o + i + 1] == now[o..o + i] + [c]
  {
  }

  lemma NumeralLength(v: nat, b: nat)
    requires IsBase(b)
    ensures |Numeral(v, b)| > 0
  {
  }

  lemma ReversedLength(s: string)
    ensures |Reversed(s)| == |s|
  {
  }

  /** One digit character. */
  method PutDigit(s: array<char>, at: nat, c: nat)
    requires at < s.Length && c < 36
    modifies s
    ensures s[..] == old(s[..])[at := Digit(c)]
  {
    if c < 10 {
      s[at] := '0' + c as char;
    } else {
      s[at] := 'a' + (c - 10) as char;
    }
  }

  lemma {:induction false} ReversedTwice(s: string)
    ensures Reversed(Reversed(s)) == s
  {
    if s != "" {
      ReversedAppend(Reversed(s[1..]), s[0]);
      ReversedTwice(s[1..]);
    }
  }

  /** The last digit of a numeral, put in front of a tail. */
  lemma LastDigit(v: nat, b: nat, tail: string)
    requires IsBase(b)
    ensures v % b < 36 && v / b >= 0
    ensures Numeral(v, b) + tail == (if v / b > 0 then Numeral(v / b, b) else "") + ([Digit(v % b)] + tail)
    ensures v > 0 ==> v / b < v
  {
    if v > 0 { Smaller(v, b); }
    if v >= b {
      NotZero(v, b);
    } else {
      SmallQuotient(v, b);
    }
  }

  lemma SmallQuotient(v: nat, b: nat)
    requires v < b
    ensures v / b == 0 && v % b == v
  {
  }

  /** The outer i characters on both sides of a stretch have been exchanged. */
  ghost predicate Turned(was: seq<char>, now: seq<char>, o: nat, len: nat, i: nat) {
    && |now| == |was| && o + len <= |was| && i <= len
    && (forall p {:trigger now[p]} :: o <= p < o + len && (p < o + i || o + len - i <= p) ==>
         now[p] == was[2 * o + len - 1 - p])
    && (forall p {:trigger now[p]} :: 0 <= p < |now| && !(o <= p < o + len && (p < o + i || o + len - i <= p)) ==>
         now[p] == was[p])
  }

  lemma TurnStep(was: seq<char>, now: seq<char>, o: nat, len: nat, i: nat)
    requires Turned(was, now, o, len, i) && i < len - 1 - i
    ensures var a, b := o + i, o + len - 1 - i; Turned(was, now[a := now[b]][b := now[a]], o, len, i + 1)
  {
  }

  lemma TurnEnd(was: seq<char>, now: seq<char>, o: nat, len: nat, i: nat)
    requires Turned(was, now, o, len, i) && len - 1 - i <= i
    ensures now[o..o + len] == Reversed(was[o..o + len]) && SameOutside(was, now, o, o + len)
  {
    hide Reversed;
    var a, b := now[o..o + len], was[o..o + len];
    ReversedLength(b);
    forall k | 0 <= k < len ensures a[k] == Reversed(b)[k] {
      ReversedAt(b, k);
      assert now[o + k] == was[o + len - 1 - k];
    }
  }

  lemma ReversedAt(s: string, k: nat)
    requires k < |s|
    ensures |Reversed(s)| == |s| && Reversed(s)[k] == s[|s| - 1 - k]
  {
  }

  method Swap(s: array<char>, a: nat, b: nat)
    requires a < s.Length && b < s.Length
    modifies s
    ensures s[..] == old(s[..])[a := old(s[b])][b := old(s[a])]
  {
    var c := s[a];
    s[a] := s[b];
    s[b] := c;
  }

  /** sio_reverse. */
  method Reverse(s: array<char>, o: nat, len: nat)
    requires len > 0 && o + len <= s.Length
    modifies s
    ensures s[o..o + len] == Reversed(old(s[o..o + len])) && SameOutside(old(s[..]), s[..], o, o + len)
  {
    hide Turned, Reversed;
    ghost var was := s[..];
    var i, j := 0, len - 1;
    TurnStart(was, o, len);
    while i < j
      invariant 0 <= i <= len && i + j == len - 1 && Turned(was, s[..], o, len, i)
    {
      TurnStep(was, s[..], o, len, i);
      Swap(s, o + i, o + j);
      i, j := i + 1, j - 1;
    }
    TurnEnd(was, s[..], o, len, i);
    assert was[o..o + len] == old(s[o..o + len]);
  }

  lemma TurnStart(was: seq<char>, o: nat, len: nat)
    requires o + len <= |was|
    ensures Turned(was, was, o, len, 0)
  {
  }

  /** uintmax_to_string: the numeral and a terminator. */
  method UnsignedToString(v: nat, s: array<char>, o: nat, b: nat) returns (len: nat)
    requires IsBase(b) && o + |Numeral(v, b)| < s.Length
    modifies s
    ensures len == |Numeral(v, b)| && s[o..o + len] == Numeral(v, b) && SameOutside(old(s[..]), s[..], o, o + len + 1)
    ensures s[o + len] == '\0'
  {
    hide Numeral, Reversed;
    len := WriteDigits(v, s, o, b);
    Terminate(s, o, len);
    NumeralLength(v, b);
    Reverse(s, o, len);
    ReversedTwice(Numeral(v, b));
  }

  method Terminate(s: array<char>, o: nat, len: nat)
    requires o + len < s.Length
    modifies s
    ensures s[..] == old(s[..])[o + len := '\0'] && s[o..o + len] == old(s[o..o + len])
  {
    s[o + len] := '\0';
  }

  /** A signed number in a base. */
  function SignedNumeral(v: int, b: nat): string
    requires IsBase(b)
  {
    if v < 0 then "-" + Numeral(-v, b) else Numeral(v, b)
  }

  /** intmax_to_string. */
  method SignedToString(v: int, s: array<char>, o: nat, b: nat) returns (len: nat)
    requires IsBase(b) && o + |SignedNumeral(v, b)| < s.Length
    modifies s
    ensures len == |SignedNumeral(v, b)| && s[o..o + len] == SignedNumeral(v, b)
        && SameOutside(old(s[..]), s[..], o, o + len + 1)
    ensures s[o + len] == '\0'
  {
    hide Numeral, Reversed;
    var neg := v < 0;
    ghost var digits := Reversed(SignedNumeral(v, b));
    if neg {
      len := WriteDigits(-v, s, o, b);
      Minus(Numeral(-v, b));
      s[o + len] := '-';
      len := len + 1;
      assert s[o..o + len] == Reversed(Numeral(-v, b)) + ['-'];
    } else {
      len := WriteDigits(v, s, o, b);
    }
    assert s[o..o + len] == digits;
    Terminate(s, o, len);
    NumeralLength(if neg then -v else v, b);
    Reverse(s, o, len);
    ReversedTwice(SignedNumeral(v, b));
  }

  lemma Minus(s: string)
    ensures Reversed("-" + s) == Reversed(s) + ['-']
  {
    assert ("-" + s)[1..] == s && ("-" + s)[0] == '-';
  }
}
