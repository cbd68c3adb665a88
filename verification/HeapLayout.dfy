/** The layout of the allocator's heap, seen as a map from block starts to blocks.

    Addresses are word indices: index i stands for the byte address base + 8 * i, where base is the
    16-byte aligned start of the heap. Index 0 is the prologue, so 0 can serve as the NULL pointer.
    Block starts are odd, which makes every payload 16-byte aligned. */
module HeapLayout {

  /** One block: its length in words (header included), its status and the start of the block
      before it (0 for the first block). */
  datatype Blk = Blk(words: nat, alloc: bool, prev: nat)

  /** All blocks by start, the index of the epilogue header, and the start of the last block
      (0 when there is no block). */
  datatype Layout = Layout(blocks: map<nat, Blk>, epi: nat, last: nat)

  const HEAP_START: nat := 1
  const MIN_WORDS: nat := 2

  predicate IsFree(L: Layout, b: nat) {
    b in L.blocks && !L.blocks[b].alloc
  }

  predicate Live(L: Layout, b: nat) {
    b in L.blocks && L.blocks[b].alloc
  }

  /** The blocks tile the words from the heap start to the epilogue: sizes are multiples of 16 bytes,
      blocks do not overlap, each block ends where the next one starts, and the prev fields agree. */
  ghost predicate Tiled(L: Layout) {
    && (forall b {:trigger BlockOk(L, b)} :: b in L.blocks ==> BlockOk(L, b))
    && (forall b, c {:trigger Apart(L, b, c)} :: b in L.blocks && c in L.blocks ==> Apart(L, b, c))
    && (if L.last == 0 then L.blocks == map[] && L.epi == HEAP_START
        else L.last in L.blocks && HEAP_START in L.blocks && L.last + L.blocks[L.last].words == L.epi)
  }

  /** The block b has a legal size; what follows it is the epilogue or a block whose prev field names b;
      what precedes it is a block that ends at b, unless b is the first one. */
  ghost predicate BlockOk(L: Layout, b: nat)
    requires b in L.blocks
  {
    var w := L.blocks[b].words;
    var p := L.blocks[b].prev;
    && b % 2 == 1 && w % 2 == 0 && MIN_WORDS <= w && b + w <= L.epi
    && (if b + w == L.epi then L.last == b else b + w in L.blocks && L.blocks[b + w].prev == b)
    && (if b == HEAP_START then p == 0 else p in L.blocks && p + L.blocks[p].words == b)
  }

  ghost predicate Apart(L: Layout, b: nat, c: nat)
    requires b in L.blocks && c in L.blocks
  {
    b < c ==> b + L.blocks[b].words <= c
  }

  /** No two neighbouring blocks are both free. */
  ghost predicate Coalesced(L: Layout) {
    forall b {:trigger NotBothFree(L, b)} :: b in L.blocks ==> NotBothFree(L, b)
  }

  ghost predicate NotBothFree(L: Layout, b: nat)
    requires b in L.blocks
  {
    IsFree(L, b) ==> !IsFree(L, L.blocks[b].prev)
  }

  /** What the two flag bits about the preceding block say for the block b. */
  predicate PrevMin(L: Layout, b: nat)
    requires b in L.blocks
  {
    L.blocks[b].prev in L.blocks && L.blocks[L.blocks[b].prev].words == MIN_WORDS
  }

  predicate PrevAlloc(L: Layout, b: nat)
    requires b in L.blocks
  {
    L.blocks[b].prev in L.blocks ==> L.blocks[L.blocks[b].prev].alloc
  }

  // ----- the operations on layouts -----

  function SetAlloc(L: Layout, b: nat, alloc: bool): Layout
    requires b in L.blocks
  {
    L.(blocks := L.blocks[b := L.blocks[b].(alloc := alloc)])
  }

  /** The free block of w words at l replaces all blocks that start in [l, l + w). */
  function Fuse(L: Layout, l: nat, w: nat): Layout
    requires l in L.blocks && 0 < w
  {
    var kept := (L.blocks - (set b | b in L.blocks && l < b < l + w))[l := Blk(w, false, L.blocks[l].prev)];
    Layout(if l + w in L.blocks then kept[l + w := L.blocks[l + w].(prev := l)] else kept,
           L.epi,
           if l + w == L.epi then l else L.last)
  }

  /** Block b keeps its first w words, allocated; the rest becomes a free block. */
  function Carve(L: Layout, b: nat, w: nat): Layout
    requires b in L.blocks && 0 < w < L.blocks[b].words
  {
    var r := b + w;
    var n := b + L.blocks[b].words;
    var split := L.blocks[b := Blk(w, true, L.blocks[b].prev)][r := Blk(L.blocks[b].words - w, false, b)];
    Layout(if n in L.blocks then split[n := L.blocks[n].(prev := r)] else split,
           L.epi,
           if L.last == b then r else L.last)
  }

  /** w more words at the end: a new free last block, or a longer last block when that one is free. */
  function Append(L: Layout, w: nat): Layout {
    if IsFree(L, L.last) then
      L.(blocks := L.blocks[L.last := L.blocks[L.last].(words := L.blocks[L.last].words + w)], epi := L.epi + w)
    else
      Layout(L.blocks[L.epi := Blk(w, false, L.last)], L.epi + w, L.epi)
  }

  /** Where the free block that covers b starts once b has been freed, and where it ends. */
  function FreedStart(L: Layout, b: nat): nat
    requires b in L.blocks
  {
    if IsFree(L, L.blocks[b].prev) then L.blocks[b].prev else b
  }

  function FreedEnd(L: Layout, b: nat): nat
    requires b in L.blocks
  {
    var n := b + L.blocks[b].words;
    if IsFree(L, n) then n + L.blocks[n].words else n
  }

  /** The layout after freeing b: b is merged with whichever neighbours are free. */
  function Freed(L: Layout, b: nat): Layout
    requires b in L.blocks
  {
    var l := FreedStart(L, b);
    if l < FreedEnd(L, b) && l in L.blocks then
      Fuse(SetAlloc(L, b, false), l, FreedEnd(L, b) - l)
    else L
  }

  /** The layout after placing a request of w words in the free block b. */
  function Placed(L: Layout, b: nat, w: nat): Layout
    requires b in L.blocks
  {
    if 0 < w && w + MIN_WORDS <= L.blocks[b].words then Carve(L, b, w) else SetAlloc(L, b, true)
  }

  // ----- every operation keeps the tiling -----

  /** The instances of the tiling facts that concern the blocks b and c. */
  lemma Around(L: Layout, b: nat, c: nat)
    requires Tiled(L) && b in L.blocks && c in L.blocks
    ensures BlockOk(L, b) && BlockOk(L, c) && Apart(L, b, c) && Apart(L, c, b)
  {
  }

  lemma SetAllocTiled(L: Layout, b: nat, alloc: bool)
    requires Tiled(L) && b in L.blocks
    ensures Tiled(SetAlloc(L, b, alloc))
  {
    var M := SetAlloc(L, b, alloc);
    forall c {:trigger BlockOk(M, c)} | c in M.blocks ensures BlockOk(M, c) { Around(L, b, c); }
    forall c, d {:trigger Apart(M, c, d)} | c in M.blocks && d in M.blocks ensures Apart(M, c, d) { Around(L, c, d); }
  }

  lemma FuseTiled(L: Layout, l: nat, w: nat)
    requires Tiled(L) && l in L.blocks
    requires 0 < w && (l + w in L.blocks || l + w == L.epi)
    ensures Tiled(Fuse(L, l, w))
  {
    var M := Fuse(L, l, w);
    if HEAP_START in L.blocks { Around(L, l, HEAP_START); }
    if L.last in L.blocks { Around(L, l, L.last); }
    if l + w in L.blocks { Around(L, l + w, L.last); }
    forall c {:trigger BlockOk(M, c)} | c in M.blocks ensures BlockOk(M, c) { FuseBlock(L, l, w, c); }
    forall c, d {:trigger Apart(M, c, d)} | c in M.blocks && d in M.blocks ensures Apart(M, c, d) {
      Around(L, c, d);
      Around(L, l, c);
      Around(L, l, d);
    }
  }

  lemma FuseBlock(L: Layout, l: nat, w: nat, c: nat)
    requires Tiled(L) && l in L.blocks
    requires 0 < w && (l + w in L.blocks || l + w == L.epi)
    requires c in L.blocks && !(l < c < l + w)
    ensures BlockOk(Fuse(L, l, w), c)
  {
    if c == l { FuseHead(L, l, w); } else { FuseOther(L, l, w, c); }
  }

  lemma FuseHead(L: Layout, l: nat, w: nat)
    requires Tiled(L) && l in L.blocks
    requires 0 < w && (l + w in L.blocks || l + w == L.epi)
    ensures BlockOk(Fuse(L, l, w), l)
  {
    var M := Fuse(L, l, w);
    Around(L, l, L.last);
    var p := L.blocks[l].prev;
    assert M.blocks[l] == Blk(w, false, p);
    if l + w in L.blocks {
      Around(L, l, l + w);
      assert M.blocks[l + w].prev == l;
    }
    if p in L.blocks {
      Around(L, l, p);
      assert M.blocks[p] == L.blocks[p];
    }
  }

  lemma FuseOther(L: Layout, l: nat, w: nat, c: nat)
    requires Tiled(L) && l in L.blocks
    requires 0 < w && (l + w in L.blocks || l + w == L.epi)
    requires c in L.blocks && c != l && !(l < c < l + w)
    ensures BlockOk(Fuse(L, l, w), c)
  {
    Around(L, l, c);
    var n := c + L.blocks[c].words;
    if n in L.blocks { Around(L, l, n); }
    var p := L.blocks[c].prev;
    if p in L.blocks { Around(L, l, p); }
    if l + w in L.blocks {
      Around(L, c, l + w);
      if p in L.blocks { Around(L, p, l + w); }
    }
  }

  lemma CarveTiled(L: Layout, b: nat, w: nat)
    requires Tiled(L) && b in L.blocks && MIN_WORDS <= w && w % 2 == 0 && w + MIN_WORDS <= L.blocks[b].words
    ensures b + w !in L.blocks && Tiled(Carve(L, b, w))
  {
    var M := Carve(L, b, w);
    assert BlockOk(L, b);
    if b + w in L.blocks { Around(L, b, b + w); }
    forall c {:trigger BlockOk(M, c)} | c in M.blocks ensures BlockOk(M, c) {
      if c in L.blocks { CarveBlock(L, b, w, c); }
    }
    forall c, d {:trigger Apart(M, c, d)} | c in M.blocks && d in M.blocks ensures Apart(M, c, d) {
      if c in L.blocks { Around(L, b, c); }
      if d in L.blocks { Around(L, b, d); }
      if c in L.blocks && d in L.blocks { Around(L, c, d); }
    }
  }

  lemma CarveBlock(L: Layout, b: nat, w: nat, c: nat)
    requires Tiled(L) && b in L.blocks && MIN_WORDS <= w && w % 2 == 0 && w + MIN_WORDS <= L.blocks[b].words
    requires c in L.blocks && b + w !in L.blocks
    ensures BlockOk(Carve(L, b, w), c)
  {
    Around(L, b, c);
    var p := L.blocks[c].prev;
    if p in L.blocks { Around(L, b, p); }
  }

  /** Growing the heap keeps the tiling. */
  lemma AppendTiled(L: Layout, w: nat)
    requires Tiled(L) && MIN_WORDS <= w && w % 2 == 0
    ensures Tiled(Append(L, w))
  {
    var M := Append(L, w);
    if L.last in L.blocks { assert BlockOk(L, L.last); }
    if L.epi in L.blocks { Around(L, L.epi, L.epi); }
    forall c {:trigger BlockOk(M, c)} | c in M.blocks ensures BlockOk(M, c) {
      if c in L.blocks {
        assert BlockOk(L, c);
        if L.last in L.blocks { Around(L, L.last, c); }
      }
    }
    forall c, d {:trigger Apart(M, c, d)} | c in M.blocks && d in M.blocks ensures Apart(M, c, d) {
      if c in L.blocks { assert BlockOk(L, c); }
      if d in L.blocks { assert BlockOk(L, d); }
      if c in L.blocks && d in L.blocks { Around(L, c, d); }
    }
  }

  // ----- freeing -----

  lemma FreedStartShape(L: Layout, b: nat)
    requires Tiled(L) && Coalesced(L) && Live(L, b)
    ensures var l := FreedStart(L, b);
            && l in L.blocks && l <= b && l % 2 == 1 && !IsFree(L, L.blocks[l].prev)
            && (l != b ==> l + L.blocks[l].words == b && IsFree(L, l) && L.blocks[b].prev == l)
  {
    var l := FreedStart(L, b);
    assert BlockOk(L, b);
    assert BlockOk(L, l);
    assert NotBothFree(L, l);
  }

  lemma FreedEndShape(L: Layout, b: nat)
    requires Tiled(L) && Coalesced(L) && Live(L, b)
    ensures var e := FreedEnd(L, b);
            && b + MIN_WORDS <= b + L.blocks[b].words <= e && e % 2 == 1 && !IsFree(L, e)
            && (e in L.blocks || e == L.epi)
  {
    var n, e := b + L.blocks[b].words, FreedEnd(L, b);
    Around(L, b, L.last);
    if n in L.blocks { Around(L, n, n); }
    if L.epi in L.blocks { Around(L, L.epi, L.epi); }
    if e in L.blocks {
      Around(L, e, e);
      assert NotBothFree(L, e);
    }
  }

  /** Freeing b turns [FreedStart, FreedEnd) into one free block between two live neighbours. */
  lemma FreedShape(L: Layout, b: nat)
    requires Tiled(L) && Coalesced(L) && Live(L, b)
    ensures var l, e := FreedStart(L, b), FreedEnd(L, b);
            && l in L.blocks && l <= b && b + MIN_WORDS <= b + L.blocks[b].words <= e && (e - l) % 2 == 0
            && (l != b ==> l + L.blocks[l].words == b && IsFree(L, l) && L.blocks[b].prev == l)
            && (e in L.blocks || e == L.epi) && !IsFree(L, e) && !IsFree(L, L.blocks[l].prev)
            && Freed(L, b) == Fuse(SetAlloc(L, b, false), l, e - l)
    ensures Tiled(Freed(L, b))
  {
    FreedStartShape(L, b);
    FreedEndShape(L, b);
    SetAllocTiled(L, b, false);
    FuseTiled(SetAlloc(L, b, false), FreedStart(L, b), FreedEnd(L, b) - FreedStart(L, b));
  }

  /** No block other than those being merged changes, except the prev field of the one at the end. */
  lemma FreedBlocks(L: Layout, b: nat, c: nat)
    requires Tiled(L) && Coalesced(L) && Live(L, b)
    ensures var l, e, M := FreedStart(L, b), FreedEnd(L, b), Freed(L, b);
            && l < e && l in L.blocks
            && (c in M.blocks <==> c in L.blocks && !(l < c < e))
            && (c in M.blocks ==>
                  M.blocks[c] == if c == l then Blk(e - l, false, L.blocks[l].prev)
                                 else if c == e then L.blocks[c].(prev := l) else L.blocks[c])
  {
    FreedShape(L, b);
  }

  /** The block before an unmerged block c is itself unmerged, unless c is at the end. */
  lemma FreedPrev(L: Layout, b: nat, c: nat)
    requires Tiled(L) && Coalesced(L) && Live(L, b) && c in L.blocks
    requires !(FreedStart(L, b) < c <= FreedEnd(L, b))
    ensures var p := L.blocks[c].prev; p in L.blocks ==> !(FreedStart(L, b) <= p < FreedEnd(L, b))
  {
    FreedShape(L, b);
    var l, e := FreedStart(L, b), FreedEnd(L, b);
    var p := L.blocks[c].prev;
    assert BlockOk(L, c);
    if p in L.blocks {
      Around(L, p, l);
      if e in L.blocks { Around(L, p, e); }
    }
  }

  /** After a free no two neighbouring blocks are both free. */
  lemma FreedCoalesced(L: Layout, b: nat)
    requires Tiled(L) && Coalesced(L) && Live(L, b)
    ensures Coalesced(Freed(L, b))
  {
    var M := Freed(L, b);
    FreedShape(L, b);
    forall c {:trigger NotBothFree(M, c)} | c in M.blocks ensures NotBothFree(M, c) {
      FreedBlocks(L, b, c);
      FreedBlocks(L, b, M.blocks[c].prev);
      assert NotBothFree(L, c);
      assert BlockOk(L, c);
      if c != FreedStart(L, b) && c != FreedEnd(L, b) { FreedPrev(L, b, c); }
    }
  }

  // ----- placing -----

  /** Can a request of w words go into b? */
  predicate Fits(L: Layout, b: nat, w: nat) {
    IsFree(L, b) && MIN_WORDS <= w && w % 2 == 0 && w <= L.blocks[b].words
  }

  /** Placing a request keeps the tiling and leaves no two neighbouring free blocks. */
  lemma PlacedShape(L: Layout, b: nat, w: nat)
    requires Tiled(L) && Coalesced(L) && Fits(L, b, w)
    ensures Tiled(Placed(L, b, w)) && Coalesced(Placed(L, b, w))
  {
    var M := Placed(L, b, w);
    assert BlockOk(L, b);
    if w + MIN_WORDS <= L.blocks[b].words { CarveTiled(L, b, w); } else { SetAllocTiled(L, b, true); }
    forall c {:trigger NotBothFree(M, c)} | c in M.blocks ensures NotBothFree(M, c) {
      PlacedNotBothFree(L, b, w, c);
    }
  }

  lemma PlacedNotBothFree(L: Layout, b: nat, w: nat, c: nat)
    requires Tiled(L) && Coalesced(L) && Fits(L, b, w) && c in Placed(L, b, w).blocks
    ensures NotBothFree(Placed(L, b, w), c)
  {
    var n := b + L.blocks[b].words;
    assert BlockOk(L, b);
    if c in L.blocks {
      Around(L, b, c);
      assert NotBothFree(L, c);
      var p := L.blocks[c].prev;
      if p in L.blocks { Around(L, b, p); }
    }
    if b + w in L.blocks { Around(L, b, b + w); }
  }

  /** Placing changes only the block itself, the remainder (if any) and the prev field of what follows. */
  lemma PlacedBlocks(L: Layout, b: nat, w: nat, c: nat)
    requires Tiled(L) && Fits(L, b, w)
    ensures var M, W := Placed(L, b, w), L.blocks[b].words;
            var split := w + MIN_WORDS <= W;
            && M.epi == L.epi && M.last == (if split && L.last == b then b + w else L.last)
            && (split ==> b + w !in L.blocks)
            && (c in M.blocks <==> c in L.blocks || (split && c == b + w))
            && (c in M.blocks ==>
                  M.blocks[c] == if c == b then Blk(if split then w else W, true, L.blocks[b].prev)
                                 else if split && c == b + w then Blk(W - w, false, b)
                                 else if split && c == b + W then L.blocks[c].(prev := b + w)
                                 else L.blocks[c])
  {
    if b + w in L.blocks { Around(L, b, b + w); }
  }

  /** A block beyond the one after b has its predecessor outside the words that b covered. */
  lemma PlacedPrev(L: Layout, b: nat, c: nat)
    requires Tiled(L) && b in L.blocks && c in L.blocks && c != b && c != b + L.blocks[b].words
    ensures L.blocks[c].prev != b
    ensures var p := L.blocks[c].prev; p in L.blocks ==> p < b || b + L.blocks[b].words <= p
  {
    assert BlockOk(L, c);
    var p := L.blocks[c].prev;
    if p in L.blocks { Around(L, b, p); }
  }

  // ----- extending -----

  /** Growing the heap changes no block but the last one, which it makes or lengthens. */
  lemma AppendBlocks(L: Layout, w: nat, c: nat)
    requires Tiled(L) && MIN_WORDS <= w && w % 2 == 0
    ensures var M := Append(L, w);
            && M.epi == L.epi + w && L.epi !in L.blocks
            && M.last == (if IsFree(L, L.last) then L.last else L.epi)
            && (c in M.blocks <==> c in L.blocks || c == M.last)
            && (c in M.blocks ==>
                  M.blocks[c] == if c != M.last then L.blocks[c]
                                 else if IsFree(L, L.last) then Blk(L.blocks[c].words + w, false, L.blocks[c].prev)
                                 else Blk(w, false, L.last))
  {
    if L.epi in L.blocks { Around(L, L.epi, L.epi); }
  }

  /** The new space never becomes a second free block beside a free last block. */
  lemma AppendCoalesced(L: Layout, w: nat)
    requires Tiled(L) && Coalesced(L) && MIN_WORDS <= w && w % 2 == 0
    ensures Coalesced(Append(L, w))
  {
    var M := Append(L, w);
    forall c {:trigger NotBothFree(M, c)} | c in M.blocks ensures NotBothFree(M, c) {
      AppendBlocks(L, w, c);
      AppendBlocks(L, w, M.blocks[c].prev);
      if c in L.blocks { assert NotBothFree(L, c) && BlockOk(L, c); }
    }
  }
}
