/** howManyBits: the width of a 64-bit number by binary search. Its operand and all intermediate results are words
    of 64 bits; a word stands for a signed number. */
module BitCount {

  // ----- words and the numbers they stand for -----

  function Not(x: bv64): bv64 {
    !x
  }

  predicate Negative(x: bv64) {
    x >> 63 != 0
  }

  /** x >> k on a signed word: the sign moves in from the left. */
  function Shift(x: bv64, k: bv7): bv64
    requires k < 64
  {
    if Negative(x) then Not(Not(x) >> k) else x >> k
  }

  function Down(x: bv64): bv64 {
    Shift(x, 1)
  }

  function Low(x: bv64): int {
    if x & 1 == 1 then 1 else 0
  }

  /** The lowest n bits of x, and its sign with the weight of the bit after them. */
  function SignedFrom(x: bv64, n: nat): int
    decreases n
  {
    if n == 0 then (if Negative(x) then -1 else 0) else Low(x) + 2 * SignedFrom(Down(x), n - 1)
  }

  /** The number that a word stands for in two's complement. */
  function Signed(x: bv64): int {
    SignedFrom(x, 63)
  }

  // ----- the function -----

  /** (~(x >> 63) & x) | ((x >> 63) & ~x). */
  function Folded(x: bv64): bv64 {
    (Not(Shift(x, 63)) & x) | (Shift(x, 63) & Not(x))
  }

  /** !!(y >> k), moved up to the place of k: the amount to shift by. */
  function Half(y: bv64, k: bv7): (b: bv7)
    requires k < 64
    ensures b < 64
  {
    if Shift(y, k) != 0 then k else 0
  }

  function HowManyBits(x: bv64): int {
    var y0 := Folded(x);
    var b32 := Half(y0, 32);
    var y1 := Shift(y0, b32);
    var b16 := Half(y1, 16);
    var y2 := Shift(y1, b16);
    var b8 := Half(y2, 8);
    var y3 := Shift(y2, b8);
    var b4 := Half(y3, 4);
    var y4 := Shift(y3, b4);
    var b2 := Half(y4, 2);
    var y5 := Shift(y4, b2);
    var b1 := Half(y5, 1);
    var b0 := Signed(Shift(y5, b1));
    b0 + b1 as int + b2 as int + b4 as int + b8 as int + b16 as int + b32 as int + 1
  }

  // ----- flipping all bits -----

  lemma NotTwice(x: bv64)
    ensures Not(Not(x)) == x
  {
  }

  lemma NotSign(x: bv64)
    ensures Negative(Not(x)) <==> !Negative(x)
  {
  }

  lemma NotLow(x: bv64)
    ensures Low(Not(x)) == 1 - Low(x)
  {
  }

  /** x >> 1 on an unsigned word. */
  function Unsigned(x: bv64): bv64 {
    x >> 1
  }

  lemma DownPositive(x: bv64)
    requires !Negative(x)
    ensures Down(x) == Unsigned(x)
  {
  }

  lemma DownNegative(x: bv64)
    requires Negative(x)
    ensures Down(x) == Not(Unsigned(Not(x)))
  {
  }

  lemma NotDown(x: bv64)
    ensures Down(Not(x)) == Not(Down(x))
  {
    hide *;
    NotTwice(x);
    NotSign(x);
    if Negative(x) {
      DownNegative(x);
      DownPositive(Not(x));
      NotTwice(Unsigned(Not(x)));
    } else {
      DownPositive(x);
      DownNegative(Not(x));
    }
  }

  /** Flipping all bits of x gives -x - 1. */
  lemma {:induction false} SignedNot(x: bv64, n: nat)
    ensures SignedFrom(Not(x), n) == -SignedFrom(x, n) - 1
    decreases n
  {
    hide Not, Down, Low, Negative;
    NotSign(x);
    NotLow(x);
    if n > 0 {
      NotDown(x);
      SignedNot(Down(x), n - 1);
    }
  }

  lemma MaskPositive(x: bv64)
    requires !Negative(x)
    ensures Shift(x, 63) == 0
  {
  }

  lemma MaskNegative(x: bv64)
    requires Negative(x)
    ensures Shift(x, 63) == 0xFFFF_FFFF_FFFF_FFFF
  {
  }

  lemma Masks(x: bv64)
    ensures (Not(0) & x) | (0 & Not(x)) == x
    ensures (Not(0xFFFF_FFFF_FFFF_FFFF) & x) | (0xFFFF_FFFF_FFFF_FFFF & Not(x)) == Not(x)
  {
  }

  /** The sign mask selects x or its complement. */
  lemma FoldedIs(x: bv64)
    ensures Folded(x) == (if Negative(x) then Not(x) else x) && !Negative(Folded(x))
  {
    NotSign(x);
    if Negative(x) { MaskNegative(x); } else { MaskPositive(x); }
    Masks(x);
    hide Shift, Not, Negative;
  }

  // ----- shifting a word that is not negative -----

  lemma DownParts(x: bv64)
    ensures Negative(Down(x)) <==> Negative(x)
    ensures Low(x) == 0 || Low(x) == 1
  {
  }

  lemma DownZero(y: bv64)
    requires !Negative(y)
    ensures y == 0 <==> Low(y) == 0 && Down(y) == 0
  {
  }

  function DownBy(y: bv64, n: nat): bv64
    decreases n
  {
    if n == 0 then y else DownBy(Down(y), n - 1)
  }

  lemma {:induction false} DownSum(y: bv64, a: nat, b: nat)
    ensures DownBy(y, a + b) == DownBy(DownBy(y, a), b)
    decreases a
  {
    hide Down;
    if a > 0 { DownSum(Down(y), a - 1, b); }
  }

  lemma {:induction false} DownSign(y: bv64, n: nat)
    requires !Negative(y)
    ensures !Negative(DownBy(y, n))
    decreases n
  {
    hide Down, Negative;
    DownParts(y);
    if n > 0 { DownSign(Down(y), n - 1); }
  }

  lemma Shift2(y: bv64)
    requires !Negative(y)
    ensures Shift(y, 2) == Down(Down(y))
  {
  }

  lemma Shift4(y: bv64)
    requires !Negative(y)
    ensures Shift(y, 4) == Shift(Shift(y, 2), 2)
  {
  }

  lemma Shift8(y: bv64)
    requires !Negative(y)
    ensures Shift(y, 8) == Shift(Shift(y, 4), 4)
  {
  }

  lemma Shift16(y: bv64)
    requires !Negative(y)
    ensures Shift(y, 16) == Shift(Shift(y, 8), 8)
  {
  }

  lemma Shift32(y: bv64)
    requires !Negative(y)
    ensures Shift(y, 32) == Shift(Shift(y, 16), 16)
  {
  }

  /** The shifts of the search move a word down bit by bit. */
  ghost predicate ShiftsDown(y: bv64) {
    && Shift(y, 1) == DownBy(y, 1) && Shift(y, 2) == DownBy(y, 2) && Shift(y, 4) == DownBy(y, 4)
    && Shift(y, 8) == DownBy(y, 8) && Shift(y, 16) == DownBy(y, 16) && Shift(y, 32) == DownBy(y, 32)
  }

  lemma ShiftDown2(y: bv64)
    requires !Negative(y)
    ensures Shift(y, 1) == DownBy(y, 1) && Shift(y, 2) == DownBy(y, 2)
  {
    Shift2(y);
    hide Shift, Negative;
    assert Down(y) == Shift(y, 1);
    hide Down;
    assert DownBy(y, 1) == DownBy(Down(y), 0);
    DownSum(y, 1, 1);
  }

  lemma ShiftDown8(y: bv64)
    requires !Negative(y)
    ensures Shift(y, 4) == DownBy(y, 4) && Shift(y, 8) == DownBy(y, 8)
  {
    hide Shift, Negative, DownBy;
    forall z | !Negative(z) ensures Shift(z, 4) == DownBy(z, 4) {
      ShiftDown2(z);
      DownSign(z, 2);
      ShiftDown2(DownBy(z, 2));
      Shift4(z);
      DownSum(z, 2, 2);
    }
    DownSign(y, 4);
    Shift8(y);
    DownSum(y, 4, 4);
  }

  lemma ShiftDown32(y: bv64)
    requires !Negative(y)
    ensures ShiftsDown(y)
  {
    hide Shift, Negative, DownBy;
    ShiftDown2(y);
    ShiftDown8(y);
    forall z | !Negative(z) ensures Shift(z, 16) == DownBy(z, 16) {
      ShiftDown8(z);
      DownSign(z, 8);
      ShiftDown8(DownBy(z, 8));
      Shift16(z);
      DownSum(z, 8, 8);
    }
    DownSign(y, 16);
    Shift32(y);
    DownSum(y, 16, 16);
  }

  lemma NothingLeft(y: bv64)
    requires !Negative(y)
    ensures Shift(Shift(Shift(Shift(Shift(Shift(y, 32), 16), 8), 4), 2), 1) == 0
  {
  }

  /** 63 steps down shift everything out. */
  lemma AllOut(y: bv64)
    requires !Negative(y)
    ensures DownBy(y, 63) == 0
  {
    hide Shift, Negative, DownBy;
    NothingLeft(y);
    var y1, y2, y3, y4, y5 := DownBy(y, 32), DownBy(y, 48), DownBy(y, 56), DownBy(y, 60), DownBy(y, 62);
    DownSum(y, 32, 16);
    DownSum(y, 48, 8);
    DownSum(y, 56, 4);
    DownSum(y, 60, 2);
    DownSum(y, 62, 1);
    DownSign(y, 32);
    DownSign(y, 48);
    DownSign(y, 56);
    DownSign(y, 60);
    DownSign(y, 62);
    ShiftDown32(y);
    ShiftDown32(y1);
    ShiftDown32(y2);
    ShiftDown32(y3);
    ShiftDown32(y4);
    ShiftDown32(y5);
  }

  lemma {:induction false} SignedParts(y: bv64, n: nat)
    requires !Negative(y) && DownBy(y, n) == 0
    ensures SignedFrom(y, n) >= 0 && (SignedFrom(y, n) == 0 <==> y == 0)
    ensures SignedFrom(y, n + 1) == SignedFrom(y, n)
    decreases n
  {
    hide Down, Negative, Low;
    DownParts(y);
    DownZero(y);
    if n > 0 {
      SignedParts(Down(y), n - 1);
    } else {
      assert SignedFrom(y, 1) == Low(y) + 2 * SignedFrom(Down(y), 0);
    }
  }

  /** One step down halves the number. */
  lemma SignedHalf(y: bv64)
    requires !Negative(y)
    ensures Signed(Down(y)) == Signed(y) / 2 && Signed(y) >= 0 && (Signed(y) == 0 <==> y == 0)
  {
    AllOut(y);
    SignedParts(y, 63);
    DownParts(y);
    hide Down, Negative, Low;
    SignedParts(Down(y), 62);
  }

  // ----- lengths -----

  function Pow2(n: nat): (p: nat)
    ensures p > 0
  {
    if n == 0 then 1 else 2 * Pow2(n - 1)
  }

  /** The number of significant bits of a number. */
  function BitLength(y: nat): nat {
    if y == 0 then 0 else 1 + BitLength(y / 2)
  }

  /** x or, for a negative x, its complement: what takes one bit less than x. */
  function Magnitude(x: int): nat {
    if x < 0 then -x - 1 else x
  }

  /** x has an n-bit two's-complement representation. */
  ghost predicate Fits(x: int, n: nat) {
    n >= 1 && -x <= Pow2(n - 1) && x < Pow2(n - 1)
  }

  lemma FoldedMagnitude(x: bv64)
    ensures Signed(Folded(x)) == Magnitude(Signed(x)) && !Negative(Folded(x))
  {
    FoldedIs(x);
    SignedNot(x, 63);
    hide Folded, Negative, SignedFrom;
    SignedHalf(Folded(x));
  }

  /** The number of significant bits of a word that is not negative. */
  function Length(y: bv64): nat
    requires !Negative(y)
  {
    SignedHalf(y);
    BitLength(Signed(y))
  }

  lemma LengthHalf(y: bv64)
    requires !Negative(y)
    ensures !Negative(Down(y)) && Length(Down(y)) == if Length(y) == 0 then 0 else Length(y) - 1
    ensures Length(y) == 0 <==> y == 0
  {
    hide Down, Negative, Signed;
    DownParts(y);
    SignedHalf(y);
    SignedHalf(Down(y));
  }

  /** n steps down take n bits off the length. */
  lemma {:induction false} LengthDown(y: bv64, n: nat)
    requires !Negative(y)
    ensures !Negative(DownBy(y, n)) && Length(DownBy(y, n)) == if Length(y) <= n then 0 else Length(y) - n
    decreases n
  {
    hide Down, Negative, Length;
    LengthHalf(y);
    if n > 0 { LengthDown(Down(y), n - 1); }
  }

  /** A word that is not negative has at most 63 significant bits. */
  lemma LongestLength(y: bv64)
    requires !Negative(y)
    ensures Length(y) <= 63
  {
    hide Negative, Length, DownBy;
    AllOut(y);
    LengthDown(y, 63);
    LengthHalf(DownBy(y, 63));
  }

  // ----- the search -----

  lemma ShiftNone(y: bv64)
    requires !Negative(y)
    ensures Shift(y, 0) == y
  {
  }

  /** One halving of the search; n is k as a number. */
  lemma HalfStep(y: bv64, k: bv7, n: nat)
    requires k < 64 && !Negative(y) && n == k as int && Shift(y, k) == DownBy(y, n) && Length(y) <= 2 * n
    ensures var z := Shift(y, Half(y, k));
            !Negative(z) && Length(y) == Half(y, k) as int + Length(z) && Length(z) <= n
  {
    hide Shift, Negative, Length, DownBy;
    LengthDown(y, n);
    LengthHalf(Shift(y, k));
    ShiftNone(y);
  }

  lemma LastBit(y: bv64)
    requires !Negative(y) && Length(y) <= 1
    ensures Length(y) == Signed(y)
  {
    SignedHalf(y);
    hide Negative, Signed;
    ShortLength(Signed(y));
  }

  lemma ShortLength(y: nat)
    ensures BitLength(y) <= 1 ==> BitLength(y) == y
  {
  }

  /** The binary search gives the same result as counting the bits one by one. */
  lemma SearchIsCount(x: bv64)
    ensures HowManyBits(x) == 1 + BitLength(Magnitude(Signed(x)))
  {
    hide Shift, Negative, Folded, Half, DownBy, Signed;
    var y0 := Folded(x);
    FoldedMagnitude(x);
    LongestLength(y0);
    ShiftDown32(y0);
    HalfStep(y0, 32, 32);
    var y1 := Shift(y0, Half(y0, 32));
    ShiftDown32(y1);
    HalfStep(y1, 16, 16);
    var y2 := Shift(y1, Half(y1, 16));
    ShiftDown32(y2);
    HalfStep(y2, 8, 8);
    var y3 := Shift(y2, Half(y2, 8));
    ShiftDown32(y3);
    HalfStep(y3, 4, 4);
    var y4 := Shift(y3, Half(y3, 4));
    ShiftDown32(y4);
    HalfStep(y4, 2, 2);
    var y5 := Shift(y4, Half(y4, 2));
    ShiftDown32(y5);
    HalfStep(y5, 1, 1);
    LastBit(Shift(y5, Half(y5, 1)));
  }

  /** The loop that counts the bits one by one, and the search, agree. */
  method CountBits(x: bv64) returns (count: int)
    ensures count == HowManyBits(x)
  {
    hide Negative, Signed, HowManyBits, Folded, Down;
    SearchIsCount(x);
    FoldedMagnitude(x);
    FoldedIs(x);
    var a := if Negative(x) then Not(x) else x;
    count := 1;
    while a != 0
      invariant !Negative(a) && count + Length(a) == HowManyBits(x)
      decreases Length(a)
    {
      LengthHalf(a);
      DownPositive(a);
      a := Unsigned(a);
      count := count + 1;
    }
    LengthHalf(a);
  }

  lemma {:induction false} LengthBounds(y: nat, n: nat)
    ensures y < Pow2(n) <==> BitLength(y) <= n
  {
    if n == 0 {
      assert y > 0 ==> BitLength(y) == 1 + BitLength(y / 2);
    } else if y > 0 {
      LengthBounds(y / 2, n - 1);
    }
  }

  /** The result is the least width of a two's-complement representation, at most 64. */
  lemma LeastWidth(x: bv64, n: nat)
    ensures 1 <= HowManyBits(x) <= 64
    ensures Fits(Signed(x), n) <==> n >= HowManyBits(x)
  {
    hide Negative, Signed, Folded, HowManyBits;
    SearchIsCount(x);
    FoldedMagnitude(x);
    LongestLength(Folded(x));
    if n >= 1 { LengthBounds(Magnitude(Signed(x)), n - 1); }
  }
}
