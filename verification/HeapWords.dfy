/** The words of the allocator's heap: packed block tags and encoded links. */
module HeapWords {
  import opened Basics

  /** A 64-bit unsigned word. */
  type Word = w: nat | w < WORD_LIMIT

  /** The block size in bytes in the upper bits, then the flags: bit 2 says that the preceding block
      has the minimum size, bit 1 that it is allocated, bit 0 that the block itself is allocated. */
  function Pack(size: nat, prevMin: bool, prevAlloc: bool, alloc: bool): (w: nat)
    requires size % 16 == 0
    ensures SizeOf(w) == size && PrevMinBit(w) == prevMin && PrevAllocBit(w) == prevAlloc && AllocBit(w) == alloc
  {
    size + (if prevMin then 4 else 0) + (if prevAlloc then 2 else 0) + (if alloc then 1 else 0)
  }

  /** The size mask clears the low four bits; the flags are three of them. */
  function SizeOf(w: nat): nat {
    w - w % 16
  }

  predicate AllocBit(w: nat) {
    w % 16 % 2 == 1
  }

  predicate PrevAllocBit(w: nat) {
    w % 16 / 2 % 2 == 1
  }

  predicate PrevMinBit(w: nat) {
    w % 16 / 4 % 2 == 1
  }

  function SetPrevAlloc(w: nat): (r: nat)
    ensures w <= r <= w + 4 && (PrevAllocBit(w) ==> r == w)
  {
    if PrevAllocBit(w) then w else w + 2
  }

  function ClearPrevAlloc(w: nat): (r: nat)
    ensures r <= w && (!PrevAllocBit(w) ==> r == w)
  {
    if PrevAllocBit(w) then w - 2 else w
  }

  function SetPrevMin(w: nat): (r: nat)
    ensures w <= r <= w + 4 && (PrevMinBit(w) ==> r == w)
  {
    if PrevMinBit(w) then w else w + 4
  }

  function ClearPrevMin(w: nat): (r: nat)
    ensures r <= w && (!PrevMinBit(w) ==> r == w)
  {
    if PrevMinBit(w) then w - 4 else w
  }

  /** The four flag updates change exactly one argument of Pack. */
  lemma FlagUpdates(size: nat, prevMin: bool, prevAlloc: bool, alloc: bool)
    requires size % 16 == 0
    ensures var w := Pack(size, prevMin, prevAlloc, alloc);
            && SetPrevAlloc(w) == Pack(size, prevMin, true, alloc)
            && ClearPrevAlloc(w) == Pack(size, prevMin, false, alloc)
            && SetPrevMin(w) == Pack(size, true, prevAlloc, alloc)
            && ClearPrevMin(w) == Pack(size, false, prevAlloc, alloc)
  {
  }

  /** The byte address of word i in a heap that starts at base; index 0 encodes NULL. */
  function Enc(base: nat, i: nat): nat {
    if i == 0 then 0 else base + 8 * i
  }

  function Dec(base: nat, w: nat): (i: nat)
  {
    if w <= base then 0 else (w - base) / 8
  }

  lemma DecEnc(base: nat, i: nat)
    ensures Dec(base, Enc(base, i)) == i
  {
  }

  /** Word i of the heap h (0 outside of it) and the heap with word i replaced. */
  function At(h: seq<nat>, i: nat): nat {
    if i < |h| then h[i] else 0
  }

  function Put(h: seq<nat>, i: nat, w: nat): (r: seq<nat>)
    ensures |r| == |h|
    ensures forall k: nat {:trigger At(r, k)} :: At(r, k) == if k == i && i < |h| then w else At(h, k)
  {
    if i < |h| then h[i := w] else h
  }

  // ----- bytes of a word, least significant first -----

  function Byte(w: nat, j: nat): nat {
    if j == 0 then w % 256 else Byte(w / 256, j - 1)
  }

  /** The word `old` with its m low bytes taken from `new_`. */
  function Splice(old_: nat, new_: nat, m: nat): nat {
    if m == 0 then old_ else new_ % 256 + 256 * Splice(old_ / 256, new_ / 256, m - 1)
  }

  lemma {:induction false} SpliceBytes(old_: nat, new_: nat, m: nat, j: nat)
    ensures Byte(Splice(old_, new_, m), j) == Byte(if j < m then new_ else old_, j)
  {
    if m > 0 && j > 0 { SpliceBytes(old_ / 256, new_ / 256, m - 1, j - 1); }
  }

  /** A splice of words of at most k bytes has at most k bytes. */
  lemma {:induction false} SpliceBound(old_: nat, new_: nat, m: nat, k: nat, limit: nat)
    requires m <= k && old_ < limit && new_ < limit && limit == Pow256(k)
    ensures Splice(old_, new_, m) < limit
  {
    if m > 0 {
      var rest := Pow256(k - 1);
      assert limit == 256 * rest;
      SpliceBound(old_ / 256, new_ / 256, m - 1, k - 1, rest);
    }
  }

  function Pow256(k: nat): nat {
    if k == 0 then 1 else 256 * Pow256(k - 1)
  }

  lemma Pow256Word()
    ensures Pow256(8) == WORD_LIMIT
  {
    assert Pow256(2) == 65536;
    assert Pow256(4) == 0x1_0000_0000;
    assert Pow256(6) == 0x1_0000_0000_0000;
  }

  /** The byte at offset a from the word start i. */
  function ByteAt(h: seq<nat>, i: nat, a: nat): nat {
    Byte(At(h, i + a / 8), a % 8)
  }
}
