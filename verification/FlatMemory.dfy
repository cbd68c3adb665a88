/** Byte memory as a finite map from addresses to the bytes that have a value, and what copying and
    filling mean on it. This is what the paged store has to agree with. */
module FlatMemory {
  import opened Basics
  import opened ByteWords

  /** The bytes bs stored from address a on. */
  function Stored(m: map<nat, Byte>, a: nat, bs: seq<Byte>): map<nat, Byte>
    decreases |bs|
  {
    if bs == [] then m else Stored(m[a := bs[0]], a + 1, bs[1..])
  }

  lemma {:induction false} StoredAt(m: map<nat, Byte>, a: nat, bs: seq<Byte>, x: nat)
    ensures x in Stored(m, a, bs) <==> x in m || a <= x < a + |bs|
    ensures a <= x < a + |bs| ==> Stored(m, a, bs)[x] == bs[x - a]
    ensures x in m && !(a <= x < a + |bs|) ==> Stored(m, a, bs)[x] == m[x]
    decreases |bs|
  {
    if bs != [] { StoredAt(m[a := bs[0]], a + 1, bs[1..], x); }
  }

  /** All of the n bytes from a on have a value. */
  ghost predicate Has(m: map<nat, Byte>, a: nat, n: nat) {
    forall x {:trigger x in m} :: a <= x < a + n ==> x in m
  }

  function Loaded(m: map<nat, Byte>, a: nat, n: nat): (bs: seq<Byte>)
    requires Has(m, a, n)
    ensures |bs| == n && forall k :: 0 <= k < n ==> bs[k] == m[a + k]
  {
    seq(n, k requires 0 <= k < n => m[a + k])
  }

  /** Storing in one piece or in two makes no difference. */
  lemma {:induction false} StoredTwice(m: map<nat, Byte>, a: nat, bs: seq<Byte>, cs: seq<Byte>)
    ensures Stored(Stored(m, a, bs), a + |bs|, cs) == Stored(m, a, bs + cs)
    decreases |bs|
  {
    if bs == [] {
      assert bs + cs == cs;
    } else {
      StoredTwice(m[a := bs[0]], a + 1, bs[1..], cs);
      assert (bs + cs)[1..] == bs[1..] + cs;
    }
  }

  /** What is stored over bytes just stored replaces them. */
  lemma StoredOver(m: map<nat, Byte>, a: nat, bs: seq<Byte>, cs: seq<Byte>)
    requires |bs| == |cs|
    ensures Stored(Stored(m, a, bs), a, cs) == Stored(m, a, cs)
  {
    var s, t := Stored(Stored(m, a, bs), a, cs), Stored(m, a, cs);
    forall x ensures (x in s <==> x in t) && (x in s ==> s[x] == t[x]) {
      StoredAt(m, a, bs, x);
      StoredAt(Stored(m, a, bs), a, cs, x);
      StoredAt(m, a, cs, x);
    }
  }

  lemma StoredHas(m: map<nat, Byte>, a: nat, bs: seq<Byte>)
    ensures Has(Stored(m, a, bs), a, |bs|)
  {
    forall x {:trigger x in Stored(m, a, bs)} | a <= x < a + |bs| ensures x in Stored(m, a, bs) {
      StoredAt(m, a, bs, x);
    }
  }

  /** Storing in the upper of two maps laid over each other. */
  lemma StoredRight(m: map<nat, Byte>, c: map<nat, Byte>, a: nat, bs: seq<Byte>)
    ensures m + Stored(c, a, bs) == Stored(m + c, a, bs)
  {
    hide Stored;
    var s, t := m + Stored(c, a, bs), Stored(m + c, a, bs);
    forall x ensures (x in s <==> x in t) && (x in s ==> s[x] == t[x]) {
      StoredAt(c, a, bs, x);
      StoredAt(m + c, a, bs, x);
    }
  }

  /** Storing in the lower one, where the upper one says nothing. */
  lemma StoredLeft(m: map<nat, Byte>, c: map<nat, Byte>, a: nat, bs: seq<Byte>)
    requires forall x {:trigger x in c} :: a <= x < a + |bs| ==> x !in c
    ensures Stored(m, a, bs) + c == Stored(m + c, a, bs)
  {
    hide Stored;
    var s, t := Stored(m, a, bs) + c, Stored(m + c, a, bs);
    forall x ensures (x in s <==> x in t) && (x in s ==> s[x] == t[x]) {
      StoredAt(m, a, bs, x);
      StoredAt(m + c, a, bs, x);
    }
  }

  // ----- copying word by word -----

  /** v has the bytes of memory m from addr on, wherever m has a value, and no more than len of them. */
  ghost predicate Reads(v: bv64, m: map<nat, Byte>, addr: nat, len: nat) {
    forall k {:trigger ByteOf(v, k)} | 0 <= k < 8 ::
      (k >= len ==> ByteOf(v, k) == 0) && (k < len && addr + k in m ==> ByteOf(v, k) == m[addr + k])
  }

  /** Written bytes determine what is read. */
  lemma ReadsAll(v: bv64, m: map<nat, Byte>, addr: nat, len: nat)
    requires Has(m, addr, len) && Reads(v, m, addr, len) && len <= 8
    ensures BytesOf(v, len) == Loaded(m, addr, len) && v == FromBytes(Loaded(m, addr, len))
  {
    hide ByteOf, FromBytes;
    var bs := Loaded(m, addr, len);
    forall k | 0 <= k < len ensures ByteOf(v, k) == m[addr + k] {
      assert addr + k in m;
    }
    forall k {:trigger ByteOf(v, k)} | 0 <= k < 8 ensures ByteOf(v, k) == ByteOf(FromBytes(bs), k) {
      FromBytesAt(bs, k);
    }
    SameBytes(v, FromBytes(bs));
  }

  /** A value written is what is read back, cut to its length. */
  lemma ReadBack(v: bv64, m: map<nat, Byte>, addr: nat, val: bv64, len: nat)
    requires 1 <= len <= 8 && Reads(v, Stored(m, addr, BytesOf(val, len)), addr, len)
    ensures len == 8 ==> v == val
    ensures len < 8 ==> v == Masked(val, len)
  {
    hide ByteOf, Masked, Stored;
    var w := if len < 8 then Masked(val, len) else val;
    forall k {:trigger ByteOf(v, k)} | 0 <= k < 8 ensures ByteOf(v, k) == ByteOf(w, k) {
      StoredAt(m, addr, BytesOf(val, len), addr + k);
      if len < 8 { MaskAt(val, len, k); }
    }
    SameBytes(v, w);
  }

  function Chunk(n: nat): nat {
    if n < 8 then n else 8
  }

  /** Copying n bytes in words of eight, the rest in one piece: the memory afterwards. */
  function CopyWords(m: map<nat, Byte>, dst: nat, src: nat, n: nat): map<nat, Byte>
    requires Has(m, src, n)
    decreases n
  {
    if n == 0 then m
    else
      var k := Chunk(n);
      HasParts(m, src, k, n);
      var next := Stored(m, dst, Loaded(m, src, k));
      HasGrows(m, dst, Loaded(m, src, k), src + k, n - k);
      CopyWords(next, dst + k, src + k, n - k)
  }

  lemma HasParts(m: map<nat, Byte>, a: nat, k: nat, n: nat)
    requires k <= n
    ensures Has(m, a, n) <==> Has(m, a, k) && Has(m, a + k, n - k)
  {
  }

  lemma HasGrows(m: map<nat, Byte>, dst: nat, bs: seq<Byte>, a: nat, n: nat)
    requires Has(m, a, n)
    ensures Has(Stored(m, dst, bs), a, n)
  {
    forall x | a <= x < a + n ensures x in Stored(m, dst, bs) { StoredAt(m, dst, bs, x); }
  }

  /** Copying word by word is right when the words still to be read are not written before. */
  predicate Copyable(dst: nat, src: nat, n: nat) {
    dst <= src || src + n <= dst || n <= 8
  }

  /** Then it is the same as copying all at once. */
  lemma {:induction false} CopyIsCopy(m: map<nat, Byte>, dst: nat, src: nat, n: nat)
    requires Has(m, src, n) && Copyable(dst, src, n)
    ensures CopyWords(m, dst, src, n) == Stored(m, dst, Loaded(m, src, n))
    decreases n
  {
    hide Stored, Loaded;
    if n > 0 {
      var k := Chunk(n);
      HasParts(m, src, k, n);
      var first := Loaded(m, src, k);
      HasGrows(m, dst, first, src + k, n - k);
      var next := Stored(m, dst, first);
      CopyIsCopy(next, dst + k, src + k, n - k);
      RestSame(m, dst, src, k, n);
      StoredTwice(m, dst, first, Loaded(m, src + k, n - k));
      assert first + Loaded(m, src + k, n - k) == Loaded(m, src, n);
    } else {
      assert Loaded(m, src, n) == [];
      StoredNothing(m, dst);
    }
  }

  lemma StoredNothing(m: map<nat, Byte>, a: nat)
    ensures Stored(m, a, []) == m
  {
  }

  lemma RestSame(m: map<nat, Byte>, dst: nat, src: nat, k: nat, n: nat)
    requires Has(m, src, n) && Copyable(dst, src, n) && k == Chunk(n)
    ensures Has(m, src, k) && Has(m, src + k, n - k) && Has(Stored(m, dst, Loaded(m, src, k)), src + k, n - k)
    ensures Loaded(Stored(m, dst, Loaded(m, src, k)), src + k, n - k) == Loaded(m, src + k, n - k)
  {
    HasParts(m, src, k, n);
    HasGrows(m, dst, Loaded(m, src, k), src + k, n - k);
    hide Stored;
    var next := Stored(m, dst, Loaded(m, src, k));
    forall x {:trigger next[x]} | src + k <= x < src + n ensures x in m && x in next && next[x] == m[x] {
      StoredAt(m, dst, Loaded(m, src, k), x);
    }
  }

  /** One word of a copy, read as v. */
  lemma CopyStep(m: map<nat, Byte>, dst: nat, src: nat, n: nat, v: bv64)
    requires Has(m, src, n) && n > 0 && Reads(v, m, src, Chunk(n))
    ensures var k := Chunk(n); var next := Stored(m, dst, BytesOf(v, k));
            && Has(next, src + k, n - k) && CopyWords(next, dst + k, src + k, n - k) == CopyWords(m, dst, src, n)
  {
    hide Stored, Reads, Loaded, BytesOf;
    var k := Chunk(n);
    HasParts(m, src, k, n);
    ReadsAll(v, m, src, k);
    HasGrows(m, dst, Loaded(m, src, k), src + k, n - k);
  }

  /** n times the byte b. */
  function Repeated(b: Byte, n: nat): seq<Byte> {
    seq(n, _ => b)
  }

  /** One piece of a fill: i bytes are done. */
  lemma FillStep(m: map<nat, Byte>, dst: nat, b: Byte, i: nat, v: bv64, k: nat)
    requires k <= 8 && forall j {:trigger ByteOf(v, j)} | 0 <= j < k :: ByteOf(v, j) == b
    ensures Stored(Stored(m, dst, Repeated(b, i)), dst + i, BytesOf(v, k)) == Stored(m, dst, Repeated(b, i + k))
  {
    hide Stored, ByteOf;
    assert BytesOf(v, k) == Repeated(b, k);
    StoredTwice(m, dst, Repeated(b, i), Repeated(b, k));
    assert Repeated(b, i) + Repeated(b, k) == Repeated(b, i + k);
  }

  // ----- overlapping copies -----

  /** Nothing below the destination changes. */
  lemma {:induction false} CopyBelow(m: map<nat, Byte>, dst: nat, src: nat, n: nat, x: nat)
    requires Has(m, src, n) && x in m && x < dst
    ensures x in CopyWords(m, dst, src, n) && CopyWords(m, dst, src, n)[x] == m[x]
    decreases n
  {
    hide Stored, Loaded;
    if n > 0 {
      var k := Chunk(n);
      HasParts(m, src, k, n);
      HasGrows(m, dst, Loaded(m, src, k), src + k, n - k);
      StoredAt(m, dst, Loaded(m, src, k), x);
      CopyBelow(Stored(m, dst, Loaded(m, src, k)), dst + k, src + k, n - k, x);
    }
  }

  /** A byte before the destination arrives as it was. */
  lemma {:induction false} CopyArrives(m: map<nat, Byte>, dst: nat, src: nat, n: nat, q: nat)
    requires Has(m, src, n) && q < n && src + q < dst
    ensures src + q in m && dst + q in CopyWords(m, dst, src, n) && CopyWords(m, dst, src, n)[dst + q] == m[src + q]
    decreases n
  {
    hide Stored;
    var k := Chunk(n);
    HasParts(m, src, k, n);
    var first := Loaded(m, src, k);
    var next := Stored(m, dst, first);
    HasGrows(m, dst, first, src + k, n - k);
    assert src + q in m;
    if q < k {
      StoredAt(m, dst, first, dst + q);
      CopyBelow(next, dst + k, src + k, n - k, dst + q);
    } else {
      StoredAt(m, dst, first, src + q);
      CopyArrives(next, dst + k, src + k, n - k, q - k);
    }
  }

  /** n zero bytes, with a one at position p. */
  function Marker(n: nat, p: nat): seq<Byte> {
    seq(n, i => if i == p then 1 else 0)
  }

  /** A copy of more than one word onto its own tail goes wrong: some byte is read after it was
      overwritten. */
  lemma OverlapBreaks(dst: nat, src: nat, n: nat)
    requires src < dst < src + n && n > 8
    ensures exists m :: Has(m, src, n) && CopyWords(m, dst, src, n) != Stored(m, dst, Loaded(m, src, n))
  {
    var d := dst - src;
    var p := if d < 8 then 8 - d else 0;
    var m := Stored(map[], src, Marker(n, p));
    StoredHas(map[], src, Marker(n, p));
    StoredAt(map[], src, Marker(n, p), src + p);
    StoredAt(map[], src, Marker(n, p), src + p + d);
    HasParts(m, src, 8, n);
    var first := Loaded(m, src, 8);
    var next := Stored(m, dst, first);
    HasGrows(m, dst, first, src + 8, n - 8);
    StoredAt(m, dst, first, dst + p);
    CopyArrives(next, dst + 8, src + 8, n - 8, p + d - 8);
    StoredAt(m, dst, Loaded(m, src, n), dst + p + d);
    hide Stored, Marker;
    assert CopyWords(m, dst, src, n)[dst + p + d] == 1;
    assert Stored(m, dst, Loaded(m, src, n))[dst + p + d] == 0;
  }

  /** Copying in words is copying, whatever the contents, exactly when the range is copyable. */
  lemma CopyExact(dst: nat, src: nat, n: nat)
    ensures Copyable(dst, src, n) <==>
      forall m {:trigger CopyWords(m, dst, src, n)} :: Has(m, src, n) ==>
          CopyWords(m, dst, src, n) == Stored(m, dst, Loaded(m, src, n))
  {
    hide Stored, Loaded, CopyWords;
    if Copyable(dst, src, n) {
      forall m {:trigger CopyWords(m, dst, src, n)} | Has(m, src, n)
        ensures CopyWords(m, dst, src, n) == Stored(m, dst, Loaded(m, src, n))
      {
        CopyIsCopy(m, dst, src, n);
      }
    } else {
      OverlapBreaks(dst, src, n);
      var m :| Has(m, src, n) && CopyWords(m, dst, src, n) != Stored(m, dst, Loaded(m, src, n));
    }
  }
}
