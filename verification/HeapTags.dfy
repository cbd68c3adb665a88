/** The allocator's block tags: every header, footer and the epilogue agree with the layout.

    Headers, footers, links and payload share one word array, so every lemma here is about which
    words an operation may change: words that are neither links of free blocks nor named explicitly
    keep their value. */
module HeapTags {
  import opened HeapWords
  import opened HeapLayout

  function Header(L: Layout, b: nat): nat
    requires b in L.blocks && L.blocks[b].words % 2 == 0
  {
    Pack(8 * L.blocks[b].words, PrevMin(L, b), PrevAlloc(L, b), L.blocks[b].alloc)
  }

  /** The header of b is right; so is its footer when b is free and not of minimum size.
      The footer of the block `ex` may be stale. */
  ghost predicate TagOk(L: Layout, h: seq<nat>, ex: nat, b: nat)
    requires b in L.blocks
  {
    && L.blocks[b].words % 2 == 0
    && At(h, b) == Header(L, b)
    && (!L.blocks[b].alloc && MIN_WORDS < L.blocks[b].words && b != ex ==> At(h, b + L.blocks[b].words - 1) == At(h, b))
  }

  /** The epilogue is an allocated block of size 0. Its prev-min bit is exact when the last block is
      allocated; when the last block is free the bit may be set only for a block of minimum size. */
  ghost predicate EpilogueOk(L: Layout, h: seq<nat>) {
    if L.last !in L.blocks then At(h, L.epi) == 1
    else if L.blocks[L.last].alloc then At(h, L.epi) == if L.blocks[L.last].words == MIN_WORDS then 7 else 3
    else At(h, L.epi) == 1 || (L.blocks[L.last].words == MIN_WORDS && At(h, L.epi) == 5)
  }

  ghost predicate Tagged(L: Layout, h: seq<nat>, ex: nat) {
    && (forall b {:trigger TagOk(L, h, ex, b)} :: b in L.blocks ==> TagOk(L, h, ex, b))
    && EpilogueOk(L, h)
    && At(h, 0) == 1
  }

  /** Is word i a link word of a free block? */
  predicate IsLink(L: Layout, i: nat) {
    (1 <= i && IsFree(L, i - 1)) || (2 <= i && IsFree(L, i - 2) && L.blocks[i - 2].words > MIN_WORDS)
  }

  /** Only link words of free blocks of L or M, and words from lo to hi, differ between h and g. */
  ghost predicate Frame(L: Layout, M: Layout, lo: nat, hi: nat, h: seq<nat>, g: seq<nat>) {
    forall i: nat {:trigger At(g, i)} :: !(lo <= i <= hi) && !IsLink(L, i) && !IsLink(M, i) ==> At(g, i) == At(h, i)
  }

  ghost predicate LinkFrame(L: Layout, h: seq<nat>, g: seq<nat>) {
    forall i: nat {:trigger At(g, i)} :: !IsLink(L, i) ==> At(g, i) == At(h, i)
  }

  /** The words of a live block after its header. */
  ghost predicate SamePayload(L: Layout, b: nat, h: seq<nat>, g: seq<nat>)
    requires b in L.blocks
  {
    forall i: nat {:trigger At(g, i)} :: b < i < b + L.blocks[b].words ==> At(g, i) == At(h, i)
  }

  lemma TagOf(L: Layout, h: seq<nat>, b: nat)
    requires Tagged(L, h, 0) && b in L.blocks
    ensures TagOk(L, h, 0, b)
  {
  }

  // ----- which words are not link words -----

  lemma HeaderNotLink(L: Layout, b: nat)
    requires Tiled(L) && (b in L.blocks || b == L.epi || b == 0)
    ensures !IsLink(L, b)
  {
    if b >= 1 && b - 1 in L.blocks { Around(L, b - 1, L.last); if b in L.blocks { Around(L, b - 1, b); } }
    if b >= 2 && b - 2 in L.blocks { Around(L, b - 2, L.last); if b in L.blocks { Around(L, b - 2, b); } }
  }

  lemma FooterNotLink(L: Layout, b: nat)
    requires Tiled(L) && b in L.blocks && MIN_WORDS < L.blocks[b].words
    ensures !IsLink(L, b + L.blocks[b].words - 1)
  {
    var i := b + L.blocks[b].words - 1;
    Around(L, b, b);
    if i - 1 in L.blocks { Around(L, b, i - 1); }
    if i - 2 in L.blocks { Around(L, b, i - 2); }
  }

  /** A payload word of a live block is not a link word of any free block. */
  lemma PayloadNotLink(L: Layout, b: nat, i: nat)
    requires Tiled(L) && Live(L, b) && b < i < b + L.blocks[b].words
    ensures !IsLink(L, i)
  {
    Around(L, b, b);
    if i - 1 in L.blocks { Around(L, b, i - 1); }
    if i >= 2 && i - 2 in L.blocks { Around(L, b, i - 2); }
  }

  // ----- tags after each operation -----

  /** A block that starts outside [lo, hi], in both layouts with the same words, status and flags,
      keeps its tags. */
  lemma TagKept(L: Layout, M: Layout, lo: nat, hi: nat, h: seq<nat>, g: seq<nat>, b: nat)
    requires Tiled(L) && Tiled(M) && Frame(L, M, lo, hi, h, g)
    requires b in L.blocks && b in M.blocks && (b > hi || b + L.blocks[b].words <= lo)
    requires L.blocks[b].words == M.blocks[b].words && L.blocks[b].alloc == M.blocks[b].alloc
    requires PrevMin(L, b) == PrevMin(M, b) && PrevAlloc(L, b) == PrevAlloc(M, b)
    requires TagOk(L, h, 0, b)
    ensures TagOk(M, g, 0, b)
  {
    assert BlockOk(L, b);
    HeaderNotLink(L, b);
    HeaderNotLink(M, b);
    if MIN_WORDS < L.blocks[b].words {
      FooterNotLink(L, b);
      FooterNotLink(M, b);
    }
  }

  /** What a free must have written: the merged block has fresh tags; what follows it has learnt that
      its predecessor is free and, if there was a merge, that it is not of minimum size. */
  ghost predicate FreedWords(L: Layout, b: nat, h: seq<nat>, g: seq<nat>)
    requires b in L.blocks
  {
    var l, e := FreedStart(L, b), FreedEnd(L, b);
    && l in L.blocks && l < e && (e - l) % 2 == 0
    && Frame(L, Freed(L, b), l, e, h, g)
    && At(g, l) == Pack(8 * (e - l), PrevMin(L, l), PrevAlloc(L, l), false)
    && (MIN_WORDS < e - l ==> At(g, e - 1) == At(g, l))
    && At(g, e) == if e - l == L.blocks[b].words then ClearPrevAlloc(At(h, e))
       else ClearPrevMin(ClearPrevAlloc(At(h, e)))
  }

  /** The words right after free has cleared the alloc bit of b and told the next block about it. */
  ghost predicate JustFreed(L: Layout, b: nat, h: seq<nat>, g: seq<nat>)
    requires b in L.blocks && L.blocks[b].words % 2 == 0
  {
    var w := L.blocks[b].words;
    var tag := Pack(8 * w, PrevMin(L, b), PrevAlloc(L, b), false);
    forall i: nat {:trigger At(g, i)} ::
      At(g, i) == if i == b || (w != MIN_WORDS && i == b + w - 1) then tag
                  else if i == b + w then ClearPrevAlloc(At(h, i)) else At(h, i)
  }

  /** What coalescing adds to that: links, the tags of the merged block, one flag. */
  ghost predicate Merged(L: Layout, b: nat, g0: seq<nat>, g: seq<nat>)
    requires b in L.blocks
  {
    var l, e := FreedStart(L, b), FreedEnd(L, b);
    && l in L.blocks && l < e && (e - l) % 2 == 0
    && At(g, l) == Pack(8 * (e - l), PrevMin(L, l), PrevAlloc(L, l), false)
    && (MIN_WORDS < e - l ==> At(g, e - 1) == At(g, l))
    && At(g, e) == (if e - l == L.blocks[b].words then At(g0, e) else ClearPrevMin(At(g0, e)))
    && forall i: nat {:trigger At(g, i)} ::
         !(l <= i <= e) && !IsLink(SetAlloc(L, b, false), i) && !IsLink(Freed(L, b), i) ==> At(g, i) == At(g0, i)
  }

  /** What a merge with the predecessor only leaves of b: its payload, but for the last word, and its header,
      unless that has become a link of the merged block. */
  ghost predicate LeftWords(L: Layout, b: nat, h: seq<nat>, g: seq<nat>)
    requires b in L.blocks && L.blocks[b].words % 2 == 0
  {
    var w, p := L.blocks[b].words, L.blocks[b].prev;
    && (forall i: nat {:trigger At(g, i)} :: b < i < b + w - 1 ==> At(g, i) == At(h, i))
    && (b != p + 2 ==> At(g, b) == Pack(8 * w, PrevMin(L, b), PrevAlloc(L, b), false))
  }

  /** Writing the tags of the free block b of `size` bytes and listing it. */
  ghost predicate WroteFree(L: Layout, b: nat, tag: nat, size: nat, h: seq<nat>, g: seq<nat>) {
    && 16 <= size
    && At(g, b) == tag
    && (size != 16 ==> At(g, b + size / 8 - 1) == tag)
    && forall i: nat {:trigger At(g, i)} ::
         i != b && (size == 16 || i != b + size / 8 - 1) && !IsLink(L, i) ==> At(g, i) == At(h, i)
  }

  /** A merge step by step: g0 to g1 pops neighbours, g1 to g2 writes and lists the merged block;
      the flag of the block after it is cleared before or after that. */
  lemma MergeSteps(L: Layout, b: nat, g0: seq<nat>, g1: seq<nat>, g2: seq<nat>, g: seq<nat>)
    requires Tiled(L) && Coalesced(L) && Live(L, b)
    requires FreedStart(L, b) in L.blocks && FreedStart(L, b) < FreedEnd(L, b)
        && (FreedEnd(L, b) - FreedStart(L, b)) % 2 == 0
    requires var l, e := FreedStart(L, b), FreedEnd(L, b);
             && e - l != L.blocks[b].words
             && (forall i: nat {:trigger At(g1, i)} :: i != e && !IsLink(SetAlloc(L, b, false), i) ==>
                  At(g1, i) == At(g0, i))
             && WroteFree(Freed(L, b), l, Pack(8 * (e - l), PrevMin(L, l), PrevAlloc(L, l), false), 8 * (e - l), g1, g2)
             && (forall i: nat {:trigger At(g, i)} :: i != e ==> At(g, i) == At(g2, i))
             && At(g, e) == ClearPrevMin(At(g0, e))
    ensures Merged(L, b, g0, g)
  {
    var l, e := FreedStart(L, b), FreedEnd(L, b);
    FreedShape(L, b);
    assert 8 * (e - l) / 8 == e - l;
  }

  /** The words after b's predecessor has been popped and the next block told about it. */
  ghost predicate PrevPopped(L: Layout, b: nat, g0: seq<nat>, g: seq<nat>)
    requires b in L.blocks
  {
    var e := b + L.blocks[b].words;
    && At(g, e) == ClearPrevMin(At(g0, e))
    && forall i: nat {:trigger At(g, i)} :: i != e && !IsLink(L, i) ==> At(g, i) == At(g0, i)
  }

  /** The steps of a merge with the predecessor: g0 to g1 pops it, g1 to g writes and lists the merged block. */
  lemma PrevSteps(L: Layout, b: nat, h: seq<nat>, g0: seq<nat>, g1: seq<nat>, g: seq<nat>)
    requires Tiled(L) && Coalesced(L) && Live(L, b) && L.blocks[b].words % 2 == 0 && JustFreed(L, b, h, g0)
    requires var p, e := L.blocks[b].prev, b + L.blocks[b].words;
             && IsFree(L, p) && FreedEnd(L, b) == e && p < e && (e - p) % 2 == 0 && PrevPopped(L, b, g0, g1)
             && WroteFree(Freed(L, b), p, Pack(8 * (e - p), PrevMin(L, p), PrevAlloc(L, p), false), 8 * (e - p), g1, g)
    ensures Merged(L, b, g0, g) && LeftWords(L, b, h, g)
  {
    hide Pack, Coalesced;
    var p, e := L.blocks[b].prev, b + L.blocks[b].words;
    FreedShape(L, b);
    HeaderNotLink(L, b);
    HeaderNotLink(L, p);
    HeaderNotLink(Freed(L, b), e);
    forall i: nat {:trigger At(g, i)} | b < i < e - 1 || (i == b && b != p + 2) ensures At(g, i) == At(g0, i) {
      if i > b { PayloadNotLink(L, b, i); }
      MergedNotLink(L, b, i);
    }
  }

  /** Inside a block merged with its predecessor only the predecessor's second link word can be a link. */
  lemma MergedNotLink(L: Layout, b: nat, i: nat)
    requires Tiled(L) && Coalesced(L) && Live(L, b) && IsFree(L, L.blocks[b].prev)
    requires b <= i < FreedEnd(L, b) && (i != b || b != L.blocks[b].prev + 2)
    ensures !IsLink(Freed(L, b), i)
  {
    FreedShape(L, b);
    Around(L, b, L.blocks[b].prev);
    FreedBlocks(L, b, i - 1);
    FreedBlocks(L, b, i - 2);
  }

  /** What the code reads around the freed block b. */
  lemma FreedReads(L: Layout, b: nat, h: seq<nat>, g: seq<nat>)
    requires Tiled(L) && Coalesced(L) && Tagged(L, h, 0) && Live(L, b) && L.blocks[b].words % 2 == 0
    requires JustFreed(L, b, h, g)
    ensures SizeOf(At(g, b)) == 8 * L.blocks[b].words
    ensures PrevMinBit(At(g, b)) == PrevMin(L, b) && PrevAllocBit(At(g, b)) == PrevAlloc(L, b)
    ensures var n := b + L.blocks[b].words;
            && At(g, n) == ClearPrevAlloc(At(h, n))
            && (n in L.blocks ==> SizeOf(At(g, n)) == 8 * L.blocks[n].words && AllocBit(At(g, n)) == L.blocks[n].alloc)
            && (n !in L.blocks ==> n == L.epi && SizeOf(At(g, n)) == 0 && AllocBit(At(g, n)))
            && (IsFree(L, n) ==> At(g, FreedEnd(L, b)) == At(h, FreedEnd(L, b)) && !PrevAllocBit(At(h, FreedEnd(L, b))))
  {
    var n := b + L.blocks[b].words;
    assert BlockOk(L, b);
    if n in L.blocks {
      assert BlockOk(L, n) && TagOk(L, h, 0, n);
      FreedReadsNext(L, n, h);
      if IsFree(L, n) { FreedReadsEnd(L, b, h, g); }
    } else {
      assert EpilogueOk(L, h);
    }
  }

  lemma FreedReadsNext(L: Layout, n: nat, h: seq<nat>)
    requires n in L.blocks && TagOk(L, h, 0, n)
    ensures var w := ClearPrevAlloc(At(h, n)); SizeOf(w) == 8 * L.blocks[n].words && AllocBit(w) == L.blocks[n].alloc
  {
    FlagUpdates(8 * L.blocks[n].words, PrevMin(L, n), PrevAlloc(L, n), L.blocks[n].alloc);
  }

  lemma FreedReadsEnd(L: Layout, b: nat, h: seq<nat>, g: seq<nat>)
    requires Tiled(L) && Coalesced(L) && Tagged(L, h, 0) && Live(L, b) && L.blocks[b].words % 2 == 0
    requires JustFreed(L, b, h, g) && IsFree(L, b + L.blocks[b].words)
    ensures var e := FreedEnd(L, b); At(g, e) == At(h, e) && !PrevAllocBit(At(h, e))
  {
    hide SizeOf, AllocBit, PrevMinBit, Coalesced;
    var n, e := b + L.blocks[b].words, FreedEnd(L, b);
    Around(L, b, n);
    if e in L.blocks {
      assert BlockOk(L, e) && TagOk(L, h, 0, e);
    } else {
      assert EpilogueOk(L, h);
    }
  }

  /** What the code reads of the free block before b. */
  lemma FreedReadsPrev(L: Layout, b: nat, h: seq<nat>, g: seq<nat>)
    requires Tiled(L) && Coalesced(L) && Tagged(L, h, 0) && Live(L, b) && L.blocks[b].words % 2 == 0
    requires JustFreed(L, b, h, g) && IsFree(L, L.blocks[b].prev)
    ensures var p := L.blocks[b].prev;
            && p + L.blocks[p].words == b
            && SizeOf(At(g, p)) == 8 * L.blocks[p].words
            && PrevMinBit(At(g, p)) == PrevMin(L, p) && PrevAllocBit(At(g, p)) == PrevAlloc(L, p)
            && (L.blocks[p].words != MIN_WORDS ==> At(g, b - 1) == At(g, p))
  {
    var p := L.blocks[b].prev;
    assert BlockOk(L, b);
    assert BlockOk(L, p) && TagOk(L, h, 0, p);
  }

  /** The words written by a merge are those that freeing b should leave. */
  lemma MergedWords(L: Layout, b: nat, h: seq<nat>, g0: seq<nat>, g: seq<nat>)
    requires Tiled(L) && Coalesced(L) && Live(L, b) && L.blocks[b].words % 2 == 0
    requires JustFreed(L, b, h, g0) && Merged(L, b, g0, g)
    requires FreedEnd(L, b) == b + L.blocks[b].words || !PrevAllocBit(At(h, FreedEnd(L, b)))
    ensures FreedWords(L, b, h, g)
  {
    FreedStartShape(L, b);
    FreedEndShape(L, b);
  }

  /** After a free every header, footer and flag bit agrees with the new layout. */
  lemma FreedTagged(L: Layout, b: nat, h: seq<nat>, g: seq<nat>)
    requires Tiled(L) && Coalesced(L) && Tagged(L, h, 0) && Live(L, b) && FreedWords(L, b, h, g)
    ensures Tagged(Freed(L, b), g, 0)
  {
    var M := Freed(L, b);
    var l, e := FreedStart(L, b), FreedEnd(L, b);
    FreedShape(L, b);
    forall c {:trigger TagOk(M, g, 0, c)} | c in M.blocks ensures TagOk(M, g, 0, c) {
      FreedBlocks(L, b, c);
      assert TagOk(L, h, 0, c);
      if c == l {
        FreedHeadTag(L, b, h, g);
      } else if c == e {
        FreedNextTag(L, b, h, g);
      } else {
        FreedOtherTag(L, b, h, g, c);
      }
    }
    HeaderNotLink(L, 0);
    HeaderNotLink(M, 0);
    FreedEpilogue(L, b, h, g);
  }

  lemma FreedHeadTag(L: Layout, b: nat, h: seq<nat>, g: seq<nat>)
    requires Tiled(L) && Coalesced(L) && Tagged(L, h, 0) && Live(L, b) && FreedWords(L, b, h, g)
    ensures FreedStart(L, b) in Freed(L, b).blocks && TagOk(Freed(L, b), g, 0, FreedStart(L, b))
  {
    var l := FreedStart(L, b);
    FreedShape(L, b);
    FreedBlocks(L, b, l);
    assert BlockOk(L, l);
    FreedBlocks(L, b, L.blocks[l].prev);
  }

  lemma FreedNextTag(L: Layout, b: nat, h: seq<nat>, g: seq<nat>)
    requires Tiled(L) && Coalesced(L) && Tagged(L, h, 0) && Live(L, b) && FreedWords(L, b, h, g)
    requires FreedEnd(L, b) in L.blocks
    ensures FreedEnd(L, b) in Freed(L, b).blocks && TagOk(Freed(L, b), g, 0, FreedEnd(L, b))
  {
    hide SizeOf, AllocBit, PrevMinBit, PrevAllocBit, SetPrevMin, SetPrevAlloc, ClearPrevMin, ClearPrevAlloc, Pack,
         Coalesced, Tagged;
    var l, e := FreedStart(L, b), FreedEnd(L, b);
    FreedShape(L, b);
    FreedBlocks(L, b, l);
    FreedBlocks(L, b, e);
    assert TagOk(L, h, 0, e) by { TagOf(L, h, e); }
    Around(L, b, e);
    FlagUpdates(8 * L.blocks[e].words, PrevMin(L, e), PrevAlloc(L, e), true);
    FlagUpdates(8 * L.blocks[e].words, PrevMin(L, e), false, true);
  }

  lemma FreedOtherTag(L: Layout, b: nat, h: seq<nat>, g: seq<nat>, c: nat)
    requires Tiled(L) && Coalesced(L) && Tagged(L, h, 0) && Live(L, b) && FreedWords(L, b, h, g)
    requires c in L.blocks && !(FreedStart(L, b) <= c <= FreedEnd(L, b))
    ensures c in Freed(L, b).blocks && TagOk(Freed(L, b), g, 0, c)
  {
    var l := FreedStart(L, b);
    var M := Freed(L, b);
    FreedShape(L, b);
    FreedBlocks(L, b, c);
    Around(L, c, l);
    var p := L.blocks[c].prev;
    assert p in L.blocks || p == 0;
    if p in L.blocks { FreedPrev(L, b, c); }
    FreedBlocks(L, b, p);
    assert TagOk(L, h, 0, c);
    TagKept(L, M, l, FreedEnd(L, b), h, g, c);
  }

  lemma FreedEpilogue(L: Layout, b: nat, h: seq<nat>, g: seq<nat>)
    requires Tiled(L) && Coalesced(L) && Tagged(L, h, 0) && Live(L, b) && FreedWords(L, b, h, g)
    ensures EpilogueOk(Freed(L, b), g)
  {
    var M := Freed(L, b);
    var l, e := FreedStart(L, b), FreedEnd(L, b);
    FreedShape(L, b);
    FreedBlocks(L, b, l);
    FreedBlocks(L, b, L.last);
    if e == L.epi {
      Around(L, b, L.last);
      assert At(h, e) in {1, 3, 5, 7};
    } else {
      assert L.epi != e;
      HeaderNotLink(L, L.epi);
      HeaderNotLink(M, L.epi);
      Around(L, e, L.last);
    }
  }

  /** What a placement must have written: the block is allocated; if it was split, the remainder has
      fresh tags; what follows has exact flags. */
  ghost predicate PlacedWords(L: Layout, b: nat, w: nat, h: seq<nat>, g: seq<nat>)
    requires b in L.blocks
  {
    var W := L.blocks[b].words;
    var n := b + W;
    && W % 2 == 0 && w % 2 == 0
    && Frame(L, Placed(L, b, w), b, n, h, g)
    && if w + MIN_WORDS <= W then
         && At(g, b) == Pack(8 * w, PrevMin(L, b), PrevAlloc(L, b), true)
         && (W - w) % 2 == 0
         && At(g, b + w) == Pack(8 * (W - w), w == MIN_WORDS, true, false)
         && (MIN_WORDS < W - w ==> At(g, n - 1) == At(g, b + w))
         && At(g, n) == if At(h, n) != 1 && W - w == MIN_WORDS then SetPrevMin(At(h, n)) else ClearPrevMin(At(h, n))
       else
         && At(g, b) == Pack(8 * W, PrevMin(L, b), PrevAlloc(L, b), true)
         && At(g, n) == if W == MIN_WORDS then SetPrevMin(SetPrevAlloc(At(h, n))) else SetPrevAlloc(At(h, n))
  }

  /** After a split every header, footer and flag bit agrees with the new layout. */
  lemma PlacedTagged(L: Layout, b: nat, w: nat, h: seq<nat>, g: seq<nat>)
    requires Tiled(L) && Coalesced(L) && Tagged(L, h, 0) && Fits(L, b, w) && PlacedWords(L, b, w, h, g)
    ensures Tagged(Placed(L, b, w), g, 0)
  {
    var M := Placed(L, b, w);
    PlacedShape(L, b, w);
    forall c {:trigger TagOk(M, g, 0, c)} | c in M.blocks ensures TagOk(M, g, 0, c) {
      PlacedBlocks(L, b, w, c);
      if c == b || (c == b + w && w + MIN_WORDS <= L.blocks[b].words) {
        PlacedHeadTag(L, b, w, h, g, c);
      } else if c == b + L.blocks[b].words {
        PlacedNextTag(L, b, w, h, g);
      } else {
        PlacedOtherTag(L, b, w, h, g, c);
      }
    }
    assert BlockOk(L, b);
    HeaderNotLink(L, 0);
    HeaderNotLink(M, 0);
    PlacedEpilogue(L, b, w, h, g);
  }

  lemma PlacedHeadTag(L: Layout, b: nat, w: nat, h: seq<nat>, g: seq<nat>, c: nat)
    requires Tiled(L) && Coalesced(L) && Tagged(L, h, 0) && Fits(L, b, w) && PlacedWords(L, b, w, h, g)
    requires c == b || (c == b + w && w + MIN_WORDS <= L.blocks[b].words)
    ensures c in Placed(L, b, w).blocks && TagOk(Placed(L, b, w), g, 0, c)
  {
    assert BlockOk(L, b);
    PlacedBlocks(L, b, w, c);
    PlacedBlocks(L, b, w, b);
    PlacedBlocks(L, b, w, L.blocks[b].prev);
  }

  lemma PlacedNextTag(L: Layout, b: nat, w: nat, h: seq<nat>, g: seq<nat>)
    requires Tiled(L) && Coalesced(L) && Tagged(L, h, 0) && Fits(L, b, w) && PlacedWords(L, b, w, h, g)
    requires b + L.blocks[b].words in L.blocks
    ensures var n := b + L.blocks[b].words; n in Placed(L, b, w).blocks && TagOk(Placed(L, b, w), g, 0, n)
  {
    hide SizeOf, AllocBit, PrevMinBit, PrevAllocBit, SetPrevMin, SetPrevAlloc, ClearPrevMin;
    var n := b + L.blocks[b].words;
    PlacedBlocks(L, b, w, n);
    PlacedBlocks(L, b, w, b);
    PlacedBlocks(L, b, w, b + w);
    Around(L, b, n);
    assert TagOk(L, h, 0, n) && NotBothFree(L, n);
    FlagUpdates(8 * L.blocks[n].words, PrevMin(L, n), PrevAlloc(L, n), true);
    FlagUpdates(8 * L.blocks[n].words, PrevMin(L, n), true, true);
  }

  lemma PlacedOtherTag(L: Layout, b: nat, w: nat, h: seq<nat>, g: seq<nat>, c: nat)
    requires Tiled(L) && Coalesced(L) && Tagged(L, h, 0) && Fits(L, b, w) && PlacedWords(L, b, w, h, g)
    requires c in L.blocks && c != b && c != b + L.blocks[b].words
    ensures c in Placed(L, b, w).blocks && TagOk(Placed(L, b, w), g, 0, c)
  {
    var M := Placed(L, b, w);
    PlacedShape(L, b, w);
    PlacedBlocks(L, b, w, c);
    Around(L, b, c);
    var p := L.blocks[c].prev;
    PlacedPrev(L, b, c);
    PlacedBlocks(L, b, w, p);
    if p == b + L.blocks[b].words { PlacedBlocks(L, b, w, b + L.blocks[b].words); }
    assert TagOk(L, h, 0, c);
    TagKept(L, M, b, b + L.blocks[b].words, h, g, c);
  }

  lemma PlacedEpilogue(L: Layout, b: nat, w: nat, h: seq<nat>, g: seq<nat>)
    requires Tiled(L) && Coalesced(L) && Tagged(L, h, 0) && Fits(L, b, w) && PlacedWords(L, b, w, h, g)
    ensures EpilogueOk(Placed(L, b, w), g)
  {
    var M := Placed(L, b, w);
    var n := b + L.blocks[b].words;
    PlacedShape(L, b, w);
    PlacedBlocks(L, b, w, b);
    PlacedBlocks(L, b, w, b + w);
    PlacedBlocks(L, b, w, L.last);
    Around(L, b, L.last);
    if n == L.epi {
      assert At(h, n) in {1, 5};
    } else {
      HeaderNotLink(L, L.epi);
      HeaderNotLink(M, L.epi);
    }
  }

  /** What an extension must have written: fresh tags for the last block, which is either the old last
      block grown or a new one at the old epilogue, and a fresh epilogue. */
  ghost predicate AppendWords(L: Layout, w: nat, h: seq<nat>, g: seq<nat>)
    requires Tiled(L) && MIN_WORDS <= w && w % 2 == 0
  {
    var grown := IsFree(L, L.last);
    var l := if grown then L.last else L.epi;
    var size := L.epi + w - l;
    && size % 2 == 0
    && Frame(L, Append(L, w), l, L.epi + w, h, g)
    && At(g, l) == (if grown then Pack(8 * size, PrevMin(L, l), PrevAlloc(L, l), false)
                    else Pack(8 * size, L.last in L.blocks && L.blocks[L.last].words == MIN_WORDS, true, false))
    && (MIN_WORDS < size ==> At(g, L.epi + w - 1) == At(g, l))
    && At(g, L.epi + w) == 1
  }

  /** After an extension every header, footer and flag bit agrees with the new layout. */
  lemma AppendTagged(L: Layout, w: nat, h: seq<nat>, g: seq<nat>)
    requires Tiled(L) && Coalesced(L) && Tagged(L, h, 0) && MIN_WORDS <= w && w % 2 == 0 && AppendWords(L, w, h, g)
    ensures Tagged(Append(L, w), g, 0)
  {
    hide SizeOf, AllocBit, PrevMinBit, PrevAllocBit;
    var M := Append(L, w);
    AppendTiled(L, w);
    AppendBlocks(L, w, M.last);
    assert BlockOk(M, M.last);
    forall c {:trigger TagOk(M, g, 0, c)} | c in M.blocks ensures TagOk(M, g, 0, c) {
      AppendBlocks(L, w, c);
      if c != M.last {
        Around(M, c, M.last);
        AppendBlocks(L, w, L.blocks[c].prev);
        assert BlockOk(L, c) && TagOk(L, h, 0, c);
        TagKept(L, M, M.last, M.epi, h, g, c);
      }
    }
    HeaderNotLink(L, 0);
    HeaderNotLink(M, 0);
  }

  /** What split_block reads of the free block b and of what follows it. */
  lemma FreeReads(L: Layout, h: seq<nat>, b: nat)
    requires Tiled(L) && Tagged(L, h, 0) && IsFree(L, b)
    ensures var w := At(h, b);
            && SizeOf(w) == 8 * L.blocks[b].words && !AllocBit(w)
            && PrevMinBit(w) == PrevMin(L, b) && PrevAllocBit(w) == PrevAlloc(L, b)
            && b + L.blocks[b].words <= L.epi && L.blocks[b].words % 2 == 0 && MIN_WORDS <= L.blocks[b].words
            && (b + L.blocks[b].words in L.blocks || b + L.blocks[b].words == L.epi)
            && (At(h, b + L.blocks[b].words) == 1 ==> b == L.last)
            && (b == L.last && MIN_WORDS < L.blocks[b].words ==> At(h, b + L.blocks[b].words) == 1)
            && (b == L.last <==> b + L.blocks[b].words == L.epi)
  {
    var n := b + L.blocks[b].words;
    assert BlockOk(L, b) && TagOk(L, h, 0, b);
    if n in L.blocks { assert BlockOk(L, n) && TagOk(L, h, 0, n); }
    if L.epi in L.blocks { Around(L, L.epi, L.epi); }
  }

  /** The words after the block has been popped and its front of w words tagged as allocated. */
  ghost predicate FrontTaken(L: Layout, b: nat, w: nat, h: seq<nat>, g: seq<nat>)
    requires b in L.blocks && w % 2 == 0
  {
    && At(g, b) == Pack(8 * w, PrevMin(L, b), PrevAlloc(L, b), true)
    && forall i: nat {:trigger At(g, i)} :: i != b && !IsLink(L, i) ==> At(g, i) == At(h, i)
  }

  /** A split step by step: h to g1 unlists the block and writes its header, g1 to g2 writes and lists
      the remainder, g2 to g sets the flag of what follows. */
  lemma SplitSteps(L: Layout, b: nat, w: nat, h: seq<nat>, g1: seq<nat>, g2: seq<nat>, g: seq<nat>)
    requires Tiled(L) && Coalesced(L) && Fits(L, b, w) && w + MIN_WORDS <= L.blocks[b].words
    requires L.blocks[b].words % 2 == 0
    requires var M, W, n := Placed(L, b, w), L.blocks[b].words, b + L.blocks[b].words;
             && Tiled(M)
             && FrontTaken(L, b, w, h, g1)
             && WroteFree(M, b + w, Pack(8 * (W - w), w == MIN_WORDS, true, false), 8 * (W - w), g1, g2)
             && (forall i: nat {:trigger At(g, i)} :: i != n ==> At(g, i) == At(g2, i))
             && At(g, n) == (if At(h, n) != 1 && W - w == MIN_WORDS then SetPrevMin(At(h, n))
                else ClearPrevMin(At(h, n)))
    ensures PlacedWords(L, b, w, h, g)
  {
    PlacedBlocks(L, b, w, b);
    HeaderNotLink(Placed(L, b, w), b);
  }

  // ----- splitting off nothing -----

  /** A free block is tagged anew, as if an allocated block larger than the minimum came before it. */
  ghost predicate Retagged(L: Layout, b: nat, h: seq<nat>, g: seq<nat>)
    requires b in L.blocks && L.blocks[b].words % 2 == 0 && 0 < L.blocks[b].words
  {
    var tag, f := Pack(8 * L.blocks[b].words, false, true, false), b + L.blocks[b].words - 1;
    && At(g, b) == tag && At(g, f) == tag
    && forall i: nat {:trigger At(g, i)} :: i != b && i != f && !IsLink(L, i) ==> At(g, i) == At(h, i)
  }

  /** The new tags are right exactly if the block before is not of minimum size. */
  lemma RetaggedExact(L: Layout, b: nat, h: seq<nat>, g: seq<nat>)
    requires Tiled(L) && Coalesced(L) && Tagged(L, h, 0) && IsFree(L, b)
    requires L.blocks[b].words % 2 == 0 && MIN_WORDS < L.blocks[b].words && Retagged(L, b, h, g)
    ensures Tagged(L, g, 0) <==> !PrevMin(L, b)
  {
    NotAfterFree(L, b);
    Around(L, b, b);
    if PrevMin(L, b) {
      assert At(g, b) != Header(L, b) && !TagOk(L, g, 0, b);
    } else {
      hide Pack, Coalesced;
      forall c {:trigger TagOk(L, g, 0, c)} | c in L.blocks ensures TagOk(L, g, 0, c) { RetaggedOther(L, b, h, g, c); }
      HeaderNotLink(L, L.epi);
      HeaderNotLink(L, 0);
    }
  }

  lemma NotAfterFree(L: Layout, b: nat)
    requires Tiled(L) && Coalesced(L) && IsFree(L, b)
    ensures PrevAlloc(L, b)
  {
    Around(L, b, b);
    assert NotBothFree(L, b);
  }

  lemma RetaggedOther(L: Layout, b: nat, h: seq<nat>, g: seq<nat>, c: nat)
    requires Tiled(L) && Tagged(L, h, 0) && IsFree(L, b) && c in L.blocks && !PrevMin(L, b) && PrevAlloc(L, b)
    requires L.blocks[b].words % 2 == 0 && MIN_WORDS < L.blocks[b].words && Retagged(L, b, h, g)
    ensures TagOk(L, g, 0, c)
  {
    hide Pack;
    TagOf(L, h, c);
    Around(L, b, c);
    HeaderNotLink(L, c);
    if MIN_WORDS < L.blocks[c].words { FooterNotLink(L, c); }
  }

  lemma RetaggedKeeps(L: Layout, b: nat, h: seq<nat>, g: seq<nat>)
    requires Tiled(L) && IsFree(L, b) && L.blocks[b].words % 2 == 0 && 0 < L.blocks[b].words && Retagged(L, b, h, g)
    ensures KeepsLive(L, L, 0, h, g)
  {
    forall c: nat {:trigger Live(L, c)} | Live(L, c) ensures SamePayload(L, c, h, g) {
      Around(L, b, c);
      Around(L, c, c);
      forall i: nat {:trigger At(g, i)} | c < i < c + L.blocks[c].words ensures At(g, i) == At(h, i) {
        PayloadNotLink(L, c, i);
      }
    }
  }

  /** The tag after a block larger than the minimum does not claim the minimum. */
  lemma NextNotMin(L: Layout, h: seq<nat>, b: nat)
    requires Tiled(L) && Tagged(L, h, 0) && IsFree(L, b) && MIN_WORDS < L.blocks[b].words
    ensures var w := At(h, b + L.blocks[b].words); ClearPrevMin(w) == w
  {
    var n := b + L.blocks[b].words;
    Around(L, b, b);
    if n in L.blocks {
      TagOf(L, h, n);
      Around(L, n, n);
      FlagUpdates(8 * L.blocks[n].words, false, PrevAlloc(L, n), L.blocks[n].alloc);
    } else {
      FlagUpdates(0, false, false, true);
    }
  }

  // ----- payloads -----

  /** A live block outside (lo, hi) keeps its payload. */
  lemma PayloadKept(L: Layout, M: Layout, lo: nat, hi: nat, h: seq<nat>, g: seq<nat>, c: nat)
    requires Tiled(L) && Tiled(M) && Frame(L, M, lo, hi, h, g) && Live(L, c) && Live(M, c)
    requires L.blocks[c].words == M.blocks[c].words && (hi <= c || c + L.blocks[c].words <= lo)
    ensures SamePayload(L, c, h, g)
  {
    forall i: nat {:trigger At(g, i)} | c < i < c + L.blocks[c].words ensures At(g, i) == At(h, i) {
      PayloadNotLink(L, c, i);
      PayloadNotLink(M, c, i);
    }
  }

  /** The live blocks and their payloads, before and after: all of L's are still there. */
  ghost predicate KeepsLive(L: Layout, M: Layout, gone: nat, h: seq<nat>, g: seq<nat>) {
    forall c {:trigger Live(L, c)} {:trigger Live(M, c)} :: Live(L, c) && c != gone ==>
      Live(M, c) && M.blocks[c].words == L.blocks[c].words && SamePayload(L, c, h, g)
  }

  /** A free changes no payload word of any other live block. */
  lemma FreedKeeps(L: Layout, b: nat, h: seq<nat>, g: seq<nat>)
    requires Tiled(L) && Coalesced(L) && Live(L, b) && FreedWords(L, b, h, g)
    ensures KeepsLive(L, Freed(L, b), b, h, g)
    ensures forall c {:trigger Live(Freed(L, b), c)} :: Live(Freed(L, b), c) <==> Live(L, c) && c != b
  {
    var l, e, M := FreedStart(L, b), FreedEnd(L, b), Freed(L, b);
    FreedShape(L, b);
    forall c {:trigger Live(L, c)} {:trigger Live(M, c)}
      ensures (Live(M, c) <==> Live(L, c) && c != b)
      ensures Live(L, c) && c != b ==> M.blocks[c].words == L.blocks[c].words && SamePayload(L, c, h, g)
    {
      FreedBlocks(L, b, c);
      if c in L.blocks {
        FreedLiveOutside(L, b, c);
        if Live(L, c) && c != b { PayloadKept(L, M, l, e, h, g, c); }
      }
    }
  }

  lemma FreedLiveOutside(L: Layout, b: nat, c: nat)
    requires Tiled(L) && Coalesced(L) && Live(L, b) && c in L.blocks
    ensures var l, e := FreedStart(L, b), FreedEnd(L, b); Live(L, c) && c != b ==> e <= c || c + L.blocks[c].words <= l
  {
    var l, n := FreedStart(L, b), b + L.blocks[b].words;
    FreedStartShape(L, b);
    Around(L, b, c);
    Around(L, l, c);
    if n in L.blocks { Around(L, n, c); }
  }

  /** A split changes no payload word of any live block. */
  lemma PlacedKeeps(L: Layout, b: nat, w: nat, h: seq<nat>, g: seq<nat>)
    requires Tiled(L) && Coalesced(L) && Fits(L, b, w) && PlacedWords(L, b, w, h, g)
    ensures KeepsLive(L, Placed(L, b, w), 0, h, g)
    ensures forall c {:trigger Live(Placed(L, b, w), c)} :: Live(Placed(L, b, w), c) <==> Live(L, c) || c == b
    ensures b in Placed(L, b, w).blocks && Placed(L, b, w).blocks[b].words == w
    ensures Placed(L, b, w).epi == L.epi
  {
    var M := Placed(L, b, w);
    PlacedShape(L, b, w);
    PlacedBlocks(L, b, w, b);
    assert BlockOk(L, b);
    forall c {:trigger Live(L, c)} {:trigger Live(M, c)}
      ensures (Live(M, c) <==> Live(L, c) || c == b)
      ensures Live(L, c) ==> M.blocks[c].words == L.blocks[c].words && SamePayload(L, c, h, g)
    {
      PlacedBlocks(L, b, w, c);
      if Live(L, c) {
        Around(L, b, c);
        PayloadKept(L, M, b, b + L.blocks[b].words, h, g, c);
      }
    }
  }

  /** An extension changes no payload word of any live block. */
  lemma AppendKeeps(L: Layout, w: nat, h: seq<nat>, g: seq<nat>)
    requires Tiled(L) && MIN_WORDS <= w && w % 2 == 0 && AppendWords(L, w, h, g)
    ensures KeepsLive(L, Append(L, w), 0, h, g)
    ensures forall c {:trigger Live(Append(L, w), c)} :: Live(Append(L, w), c) <==> Live(L, c)
  {
    var M := Append(L, w);
    AppendTiled(L, w);
    forall c {:trigger Live(L, c)} {:trigger Live(M, c)}
      ensures (Live(M, c) <==> Live(L, c))
      ensures Live(L, c) ==> M.blocks[c].words == L.blocks[c].words && SamePayload(L, c, h, g)
    {
      AppendBlocks(L, w, c);
      if Live(L, c) {
        Around(L, c, L.last);
        PayloadKept(L, M, M.last, M.epi, h, g, c);
      }
    }
  }

  /** Keeping live blocks composes. */
  lemma KeepsLiveTrans(L: Layout, M: Layout, N: Layout, gone: nat, h: seq<nat>, g: seq<nat>, k: seq<nat>)
    requires KeepsLive(L, M, 0, h, g) && KeepsLive(M, N, gone, g, k) && !Live(L, 0)
    ensures KeepsLive(L, N, gone, h, k)
  {
    forall c {:trigger Live(L, c)} {:trigger Live(N, c)} | Live(L, c) && c != gone
      ensures Live(N, c) && N.blocks[c].words == L.blocks[c].words && SamePayload(L, c, h, k)
    {
      assert Live(M, c);
    }
  }
}
