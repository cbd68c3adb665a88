/** Bytes of 64-bit words, little-endian, as the shifts and masks of the memory emulation see them. */
module ByteWords {
  import opened Basics

  function Up(v: bv64): bv64 {
    v << 8
  }

  function Down(v: bv64): bv64 {
    v >> 8
  }

  function Low8(v: bv64): Byte {
    (v & 0xFF) as bv8
  }

  function Or(v: bv64, w: bv64): bv64 {
    v | w
  }

  function And(v: bv64, w: bv64): bv64 {
    v & w
  }

  function Or8(b: Byte, c: Byte): Byte {
    b | c
  }

  function And8(b: Byte, c: Byte): Byte {
    b & c
  }

  function AndBelow(v: bv64, x: bv64): bv64 {
    v & (x - 1)
  }

  /** v << (8 * k). */
  function Shl(v: bv64, k: nat): bv64 {
    if k == 0 then v else Up(Shl(v, k - 1))
  }

  /** v & ((1 << (8 * k)) - 1). */
  function Masked(v: bv64, k: nat): bv64 {
    AndBelow(v, Shl(1, k))
  }

  /** The k-th byte of a word in memory: (v >> (8 * k)) & 0xFF. */
  function ByteOf(v: bv64, k: nat): Byte {
    if k == 0 then Low8(v) else ByteOf(Down(v), k - 1)
  }

  /** The word that bytes in memory make, zero-extended. */
  function FromBytes(b: seq<Byte>): bv64 {
    if b == [] then 0 else Or(b[0] as bv64, Up(FromBytes(b[1..])))
  }

  // ----- single steps -----

  lemma OrDown(v: bv64, w: bv64)
    ensures Down(Or(v, w)) == Or(Down(v), Down(w))
  {
  }

  lemma OrLow(v: bv64, w: bv64)
    ensures Low8(Or(v, w)) == Or8(Low8(v), Low8(w))
  {
  }

  lemma AndParts(v: bv64, w: bv64)
    ensures Down(And(v, w)) == And(Down(v), Down(w)) && Low8(And(v, w)) == And8(Low8(v), Low8(w))
  {
  }

  lemma {:induction false} OrBytes(v: bv64, w: bv64, k: nat)
    ensures ByteOf(Or(v, w), k) == Or8(ByteOf(v, k), ByteOf(w, k))
    decreases k
  {
    hide Down, Low8, Or, Or8;
    OrDown(v, w);
    OrLow(v, w);
    if k > 0 { OrBytes(Down(v), Down(w), k - 1); }
  }

  lemma {:induction false} AndBytes(v: bv64, w: bv64, k: nat)
    ensures ByteOf(And(v, w), k) == And8(ByteOf(v, k), ByteOf(w, k))
    decreases k
  {
    hide Down, Low8, And, And8;
    AndParts(v, w);
    if k > 0 { AndBytes(Down(v), Down(w), k - 1); }
  }

  lemma Units(b: Byte)
    ensures And8(b, 0xFF) == b && Or8(b, 0) == b && Or8(0, b) == b
  {
  }

  lemma {:induction false} ZeroBytes(k: nat)
    ensures ByteOf(0, k) == 0
  {
    assert Down(0) == 0;
    if k > 0 { ZeroBytes(k - 1); }
  }

  lemma OneByte(b: Byte, k: nat)
    ensures ByteOf(b as bv64, k) == if k == 0 then b else 0
  {
    assert Down(b as bv64) == 0;
    if k > 0 { ZeroBytes(k - 1); }
  }

  /** All bits below the k-th byte from the top. */
  function Ones(k: nat): bv64 {
    if k == 0 then 0xFFFF_FFFF_FFFF_FFFF else Down(Ones(k - 1))
  }

  lemma {:induction false} OnesBytes(k: nat, j: nat)
    requires k + j < 8
    ensures ByteOf(Ones(k), j) == 0xFF
    decreases j
  {
    if j == 0 {
      assert Ones(1) == 0x00FF_FFFF_FFFF_FFFF && Ones(2) == 0xFFFF_FFFF_FFFF && Ones(3) == 0xFF_FFFF_FFFF
          && Ones(4) == 0xFFFF_FFFF;
      assert Ones(5) == 0xFF_FFFF && Ones(6) == 0xFFFF && Ones(7) == 0xFF;
      assert k == 0 || k == 1 || k == 2 || k == 3 || k == 4 || k == 5 || k == 6 || k == 7;
    } else {
      OnesBytes(k + 1, j - 1);
    }
  }

  lemma UpParts(v: bv64)
    ensures Low8(Up(v)) == 0 && Down(Up(v)) == And(v, Ones(1))
  {
  }

  lemma ShiftUp(v: bv64, k: nat)
    requires k < 8
    ensures ByteOf(Up(v), k) == if k == 0 then 0 else ByteOf(v, k - 1)
  {
    hide Up, Down, Low8, Ones, And, And8;
    UpParts(v);
    if k > 0 {
      AndBytes(v, Ones(1), k - 1);
      OnesBytes(1, k - 1);
      Units(ByteOf(v, k - 1));
    }
  }

  lemma OrAt(v: bv64, w: bv64, k: nat)
    ensures ByteOf(w, k) == 0 ==> ByteOf(Or(v, w), k) == ByteOf(v, k)
    ensures ByteOf(v, k) == 0 ==> ByteOf(Or(v, w), k) == ByteOf(w, k)
  {
    hide ByteOf, Or, Or8;
    OrBytes(v, w, k);
    Units(ByteOf(v, k));
    Units(ByteOf(w, k));
  }

  lemma {:induction false} FromBytesAt(b: seq<Byte>, k: nat)
    requires k < 8
    ensures ByteOf(FromBytes(b), k) == if k < |b| then b[k] else 0
  {
    hide ByteOf, Up, Or;
    if b == [] {
      ZeroBytes(k);
    } else {
      OneByte(b[0], k);
      ShiftUp(FromBytes(b[1..]), k);
      OrAt(b[0] as bv64, Up(FromBytes(b[1..])), k);
      if k > 0 { FromBytesAt(b[1..], k - 1); }
    }
  }

  lemma MaskStep(x: bv64, v: bv64)
    ensures AndBelow(v, Up(x)) == Or(Up(AndBelow(Down(v), x)), AndBelow(v, Up(1)))
  {
  }

  /** A mask is built byte by byte. */
  lemma MaskedStep(v: bv64, n: nat)
    requires n > 0
    ensures Masked(v, n) == Or(Up(Masked(Down(v), n - 1)), Masked(v, 1))
  {
    hide Up, Or, AndBelow, Down;
    MaskStep(Shl(1, n - 1), v);
  }

  lemma LowMask(v: bv64)
    ensures Masked(v, 1) == Low8(v) as bv64 && Masked(v, 0) == 0
  {
  }

  lemma ByteZero(v: bv64)
    ensures ByteOf(v, 0) == Low8(v)
  {
  }

  lemma LowByte(v: bv64, k: nat)
    ensures ByteOf(Masked(v, 1), k) == if k == 0 then ByteOf(v, 0) else 0
    ensures ByteOf(Masked(v, 0), k) == 0
  {
    hide ByteOf;
    LowMask(v);
    assert ByteOf(v, 0) == Low8(v) by { ByteZero(v); }
    OneByte(Low8(v), k);
    ZeroBytes(k);
  }

  lemma ByteBelow(v: bv64, k: nat)
    requires k > 0
    ensures ByteOf(v, k) == ByteOf(Down(v), k - 1)
  {
  }

  lemma {:induction false} MaskAt(v: bv64, n: nat, k: nat)
    requires n < 8 && k < 8
    ensures k < n ==> ByteOf(Masked(v, n), k) == ByteOf(v, k)
    ensures n <= k ==> ByteOf(Masked(v, n), k) == 0
    decreases n
  {
    hide *;
    LowByte(v, k);
    if n > 0 {
      MaskedStep(v, n);
      var u := Masked(Down(v), n - 1);
      OrAt(Up(u), Masked(v, 1), k);
      ShiftUp(u, k);
      if k > 0 {
        MaskAt(Down(v), n - 1, k - 1);
        ByteBelow(v, k);
      }
    }
  }

  lemma {:induction false} ShlAt(v: bv64, n: nat, k: nat)
    requires n < 8 && k < 8
    ensures k < n ==> ByteOf(Shl(v, n), k) == 0
    ensures n <= k ==> ByteOf(Shl(v, n), k) == ByteOf(v, k - n)
  {
    hide ByteOf, Up;
    if n > 0 {
      ShiftUp(Shl(v, n - 1), k);
      if k > 0 { ShlAt(v, n - 1, k - 1); }
    }
  }

  /** Masking the low part and shifting the high part puts two partial words together. */
  lemma JoinAt(lo: bv64, hi: bv64, n: nat, k: nat)
    requires n < 8 && k < 8
    ensures k < n ==> ByteOf(Or(Masked(lo, n), Shl(hi, n)), k) == ByteOf(lo, k)
    ensures n <= k ==> ByteOf(Or(Masked(lo, n), Shl(hi, n)), k) == ByteOf(hi, k - n)
  {
    hide *;
    OrAt(Masked(lo, n), Shl(hi, n), k);
    MaskAt(lo, n, k);
    ShlAt(hi, n, k);
  }

  lemma LastParts(v: bv64, w: bv64)
    requires Low8(v) == Low8(w) && Down(v) == Down(w)
    ensures v == w
  {
  }

  function Rest(v: bv64, n: nat): bv64 {
    if n == 0 then v else Rest(Down(v), n - 1)
  }

  lemma {:induction false} SameRest(v: bv64, w: bv64, n: nat)
    requires forall k {:trigger ByteOf(v, k)} | 0 <= k < n :: ByteOf(v, k) == ByteOf(w, k)
    requires Rest(v, n) == Rest(w, n)
    ensures v == w
    decreases n
  {
    hide Down, Low8;
    if n > 0 {
      assert ByteOf(v, 0) == ByteOf(w, 0);
      forall k {:trigger ByteOf(Down(v), k)} | 0 <= k < n - 1 ensures ByteOf(Down(v), k) == ByteOf(Down(w), k) {
        assert ByteOf(v, k + 1) == ByteOf(w, k + 1);
      }
      SameRest(Down(v), Down(w), n - 1);
      LastParts(v, w);
    }
  }

  lemma NothingLeft(v: bv64)
    ensures Rest(v, 8) == 0
  {
    assert Down(Down(Down(Down(Down(Down(Down(Down(v)))))))) == 0;
    hide Down;
    RestFour(v, 8);
    RestFour(Down(Down(Down(Down(v)))), 4);
  }

  lemma RestFour(v: bv64, n: nat)
    requires n >= 4
    ensures Rest(v, n) == Rest(Down(Down(Down(Down(v)))), n - 4) && Rest(v, 0) == v
  {
    hide Down;
    assert Rest(v, n) == Rest(Down(v), n - 1);
    assert Rest(Down(v), n - 1) == Rest(Down(Down(v)), n - 2);
    assert Rest(Down(Down(v)), n - 2) == Rest(Down(Down(Down(v))), n - 3);
  }

  /** A word is determined by its bytes. */
  lemma SameBytes(v: bv64, w: bv64)
    requires forall k {:trigger ByteOf(v, k)} | 0 <= k < 8 :: ByteOf(v, k) == ByteOf(w, k)
    ensures v == w
  {
    hide ByteOf, Rest;
    NothingLeft(v);
    NothingLeft(w);
    SameRest(v, w, 8);
  }

  /** The first n bytes of a word in memory. */
  function BytesOf(v: bv64, n: nat): (s: seq<Byte>)
    requires n <= 8
    ensures |s| == n && forall k :: 0 <= k < n ==> s[k] == ByteOf(v, k)
  {
    seq(n, k requires 0 <= k < 8 => ByteOf(v, k))
  }

  /** A byte b shifted to place i joins a word that is empty there. */
  lemma PutByte(v: bv64, b: bv64, i: nat, k: nat)
    requires i < 8 && k < 8 && ByteOf(v, i) == 0
    requires k > 0 ==> ByteOf(b, k) == 0
    ensures k == i ==> ByteOf(Or(v, Shl(b, i)), k) == ByteOf(b, 0)
    ensures k < i ==> ByteOf(Or(v, Shl(b, i)), k) == ByteOf(v, k)
    ensures k > i && ByteOf(b, k - i) == 0 ==> ByteOf(Or(v, Shl(b, i)), k) == ByteOf(v, k)
  {
    hide ByteOf, Or, Shl;
    OrAt(v, Shl(b, i), k);
    ShlAt(b, i, k);
  }

  /** The word that an int argument makes, cut to a byte. */
  function ByteArgument(c: bv32): Byte {
    (c & 0xFF) as bv8
  }

  lemma ByteArgumentAt(c: bv32, k: nat)
    ensures ByteOf((c & 0xFF) as bv64, k) == if k == 0 then ByteArgument(c) else 0
  {
    assert (c & 0xFF) as bv64 == ByteArgument(c) as bv64;
    hide ByteArgument;
    OneByte(ByteArgument(c), k);
  }

  // ----- 128-bit values -----

  function Low(v: bv128): bv64 {
    (v & 0xFFFF_FFFF_FFFF_FFFF) as bv64
  }

  function High(v: bv128): bv64 {
    (v >> 64) as bv64
  }

  function Both(lo: bv64, hi: bv64): bv128 {
    (hi as bv128 << 64) | lo as bv128
  }

  lemma BothParts(lo: bv64, hi: bv64)
    ensures Low(Both(lo, hi)) == lo && High(Both(lo, hi)) == hi
  {
  }

  lemma HalvesRoundTrip(v: bv128)
    ensures Both(Low(v), High(v)) == v
  {
  }

  // ----- single bits of a byte -----

  function Bit(j: nat): Byte
    requires j < 8
  {
    match j
    case 0 => 1
    case 1 => 2
    case 2 => 4
    case 3 => 8
    case 4 => 16
    case 5 => 32
    case 6 => 64
    case 7 => 128
  }

  predicate HasBit(b: Byte, j: nat)
    requires j < 8
  {
    b & Bit(j) != 0
  }

  function SetBit(b: Byte, j: nat): Byte
    requires j < 8
  {
    b | Bit(j)
  }

  lemma SetBitAt(b: Byte, j: nat, k: nat)
    requires j < 8 && k < 8
    ensures HasBit(SetBit(b, j), k) <==> j == k || HasBit(b, k)
  {
  }

  lemma NoBits(k: nat)
    requires k < 8
    ensures !HasBit(0, k)
  {
  }
}
