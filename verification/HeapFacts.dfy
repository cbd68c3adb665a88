/** What the allocator's invariant gives its callers: the blocks account for every byte of the heap,
    payloads are aligned and disjoint, and when the two known slips of the code can happen. */
module HeapFacts {
  import opened Basics
  import opened HeapWords
  import opened HeapLayout
  import opened HeapTags
  import opened FreeLists
  import opened Allocator

  // ----- the walk from the heap start to the epilogue -----

  /** The starts of the blocks from b on, found by adding sizes. */
  ghost function Walk(L: Layout, b: nat): seq<nat>
    requires Tiled(L) && (b in L.blocks || b == L.epi)
    decreases L.epi - b
  {
    if b == L.epi then []
    else
      assert BlockOk(L, b);
      [b] + Walk(L, b + L.blocks[b].words)
  }

  ghost function TotalBytes(L: Layout, s: seq<nat>): nat {
    if s == [] then 0
    else (if s[0] in L.blocks then 8 * L.blocks[s[0]].words else 0) + TotalBytes(L, s[1..])
  }

  /** The walk meets every block at or after b, in address order, and nothing else. */
  lemma {:induction false} WalkComplete(L: Layout, b: nat)
    requires Tiled(L) && (b in L.blocks || b == L.epi)
    ensures forall c :: c in Walk(L, b) <==> c in L.blocks && b <= c
    ensures forall i, j :: 0 <= i < j < |Walk(L, b)| ==> Walk(L, b)[i] < Walk(L, b)[j]
    decreases L.epi - b
  {
    if b in L.blocks {
      var n := b + L.blocks[b].words;
      assert BlockOk(L, b);
      WalkComplete(L, n);
      var s := Walk(L, n);
      assert Walk(L, b) == [b] + s;
      forall c ensures c in Walk(L, b) <==> c in L.blocks && b <= c {
        if c in L.blocks { Around(L, b, c); }
      }
      forall i, j | 0 <= i < j < |Walk(L, b)| ensures Walk(L, b)[i] < Walk(L, b)[j] {
        assert s[j - 1] in s;
      }
    } else {
      forall c | c in L.blocks ensures c < b { assert BlockOk(L, c); }
    }
  }

  /** The sizes add up to the distance walked: no byte is lost and none is counted twice. */
  lemma {:induction false} WalkBytes(L: Layout, b: nat)
    requires Tiled(L) && (b in L.blocks || b == L.epi)
    ensures TotalBytes(L, Walk(L, b)) == 8 * (L.epi - b) && b <= L.epi
    decreases L.epi - b
  {
    if b in L.blocks {
      var n := b + L.blocks[b].words;
      assert BlockOk(L, b);
      WalkBytes(L, n);
      assert Walk(L, b)[1..] == Walk(L, n);
    }
  }

  /** Freeing and placing conserve the bytes of the heap; extending adds exactly the new ones. */
  lemma BytesConserved(L: Layout, b: nat, f: nat, w: nat)
    requires Tiled(L) && Coalesced(L) && L.last in L.blocks && MIN_WORDS <= w && w % 2 == 0
    ensures Live(L, b) ==> Tiled(Freed(L, b)) && HEAP_START in Freed(L, b).blocks
                           && TotalBytes(Freed(L, b), Walk(Freed(L, b), HEAP_START))
                              == TotalBytes(L, Walk(L, HEAP_START))
    ensures Fits(L, f, w) ==> Tiled(Placed(L, f, w)) && HEAP_START in Placed(L, f, w).blocks
                              && TotalBytes(Placed(L, f, w), Walk(Placed(L, f, w), HEAP_START))
                                 == TotalBytes(L, Walk(L, HEAP_START))
    ensures Tiled(Append(L, w)) && HEAP_START in Append(L, w).blocks
            && TotalBytes(Append(L, w), Walk(Append(L, w), HEAP_START)) == TotalBytes(L, Walk(L, HEAP_START)) + 8 * w
  {
    hide Freed, Placed, Append;
    WalkBytes(L, HEAP_START);
    if Live(L, b) {
      FreedShape(L, b);
      FreedEpi(L, b);
      WalkBytes(Freed(L, b), HEAP_START);
    }
    if Fits(L, f, w) {
      PlacedShape(L, f, w);
      PlacedBlocks(L, f, w, HEAP_START);
      WalkBytes(Placed(L, f, w), HEAP_START);
    }
    AppendTiled(L, w);
    AppendBlocks(L, w, HEAP_START);
    WalkBytes(Append(L, w), HEAP_START);
  }

  lemma FreedEpi(L: Layout, b: nat)
    requires Tiled(L) && Coalesced(L) && Live(L, b)
    ensures Freed(L, b).epi == L.epi && HEAP_START in Freed(L, b).blocks
  {
    FreedShape(L, b);
    FreedBlocks(L, b, HEAP_START);
    Around(L, FreedStart(L, b), HEAP_START);
  }

  // ----- payloads -----

  /** Payload addresses are multiples of 16 and payloads lie inside the heap, apart from each other. */
  lemma PayloadsApart(base: nat, L: Layout, b: nat, c: nat)
    requires base % 16 == 0 && Tiled(L) && Live(L, b) && Live(L, c)
    ensures (base + 8 * (b + 1)) % 16 == 0
    ensures 2 <= b + 1 && b + L.blocks[b].words <= L.epi
    ensures b != c ==> b + L.blocks[b].words <= c || c + L.blocks[c].words <= b
  {
    Around(L, b, c);
    assert base + 8 * (b + 1) == 16 * (base / 16 + (b + 1) / 2);
    Sixteenfold(base / 16 + (b + 1) / 2);
  }

  lemma Sixteenfold(k: nat)
    ensures (16 * k) % 16 == 0
  {
  }

  // ----- when heap_end stays right -----

  /** If heap_end names the last block before a free, it does so afterwards except in one case: the
      last block is freed and merges with its predecessor. */
  lemma HeapEndKept(L: Layout, b: nat)
    requires Tiled(L) && Coalesced(L) && Live(L, b)
    ensures SegHeap.HeapEndAfterFree(L, b, L.last) == Freed(L, b).last
       <==> !(b == L.last && IsFree(L, L.blocks[b].prev))
  {
    FreedShape(L, b);
    FreedStartShape(L, b);
    var n := b + L.blocks[b].words;
    Around(L, b, L.last);
    if n in L.blocks { Around(L, n, n); }
    if L.epi in L.blocks { Around(L, L.epi, L.epi); }
  }

  /** A second link word of a listed block never looks like the tag of an allocated block. */
  lemma LinkNotAlloc(a: SegHeap, l: nat)
    requires a.Initialised() && IsFree(a.lay, l) && MIN_WORDS < a.lay.blocks[l].words
    ensures l + 2 < a.mem.Length && !AllocBit(a.mem[l + 2])
  {
    var s := a.lists.segs[GetIndex(8 * a.lay.blocks[l].words)];
    assert InSeg(a.lay, {}, GetIndex(8 * a.lay.blocks[l].words), l);
    var j := IndexOf(s, l);
    assert SegAt(a.base, a.mem[..], s, j);
    Around(a.lay, l, l);
    assert At(a.mem[..], l + 2) == Enc(a.base, NextIn(s, j));
    hide Tiled, Coalesced, Tagged, Linked, Listed;
    EvenLink(a.base, NextIn(s, j));
  }

  lemma EvenLink(base: nat, n: nat)
    requires base % 16 == 0
    ensures !AllocBit(Enc(base, n))
  {
    EvenTag(8 * (base / 16) + 4 * n);
    EvenTag(0);
  }

  lemma EvenTag(k: nat)
    ensures !AllocBit(2 * k)
  {
  }

  /** The exceptional free, and what it leaves behind at heap_end: a word that reads as the tag of a free block, so
      that an extension pops heap_end, and in place of links the first two payload words of the freed block. */
  method FreeForgotten(a: SegHeap, bp: nat)
    requires a.Initialised() && a.LivePayload(bp) && bp - 1 == a.lay.last == a.heapEnd
    requires IsFree(a.lay, a.lay.blocks[bp - 1].prev)
    modifies a`heapEnd, a`lay, a`lists, a.mem, a.segList, a.minList
    ensures a.Initialised() && a.lay == Freed(old(a.lay), bp - 1)
    ensures a.heapEnd == bp - 1 && a.heapEnd !in a.lay.blocks && !a.HeapEndOk()
    ensures a.heapEnd + 2 < a.mem.Length && !AllocBit(a.mem[a.heapEnd])
    ensures MIN_WORDS < old(a.lay).blocks[bp - 1].words ==>
              && a.mem[a.heapEnd + 1] == old(a.mem[bp]) && a.mem[a.heapEnd + 2] == old(a.mem[bp + 1])
    ensures MIN_WORDS < old(a.lay).blocks[old(a.lay).blocks[bp - 1].prev].words ==>
              SizeOf(a.mem[a.heapEnd]) == 8 * old(a.lay).blocks[bp - 1].words
  {
    hide Tagged, Linked, Listed, Freed, Pack, AllocBit, SizeOf;
    ghost var L, h, b := a.lay, a.mem[..], bp - 1;
    ghost var p := L.blocks[b].prev;
    Around(L, b, p);
    if L.epi in L.blocks { Around(L, L.epi, L.epi); }
    FreedShape(L, b);
    FreedBlocks(L, b, b);
    FreedBlocks(L, b, p);
    HeapEndKept(L, b);
    a.Free(bp);
    ghost var g := a.mem[..];
    assert At(g, b) == a.mem[b] && At(g, b + 1) == a.mem[b + 1];
    if b == p + 2 { LinkNotAlloc(a, p); }
    if MIN_WORDS < L.blocks[b].words { assert At(g, b + 2) == a.mem[b + 2] && At(h, b + 1) == h[b + 1]
        && At(h, b + 2) == h[b + 2]; }
  }

  /** The layouts of the runs below. */
  lemma RunLayouts()
    ensures var L0 := Append(Layout(map[], HEAP_START, 0), CHUNK_BYTES / 8);
            L0 == Layout(map[1 := Blk(512, false, 0)], 513, 1)
    ensures var L1 := Placed(Layout(map[1 := Blk(512, false, 0)], 513, 1), 1, 4);
            L1 == Layout(map[1 := Blk(4, true, 0), 5 := Blk(508, false, 1)], 513, 5)
    ensures var L2 := Placed(Layout(map[1 := Blk(4, true, 0), 5 := Blk(508, false, 1)], 513, 5), 5, 508);
            L2 == Layout(map[1 := Blk(4, true, 0), 5 := Blk(508, true, 1)], 513, 5)
    ensures var L3 := Freed(Layout(map[1 := Blk(4, true, 0), 5 := Blk(508, true, 1)], 513, 5), 1);
            L3 == Layout(map[1 := Blk(4, false, 0), 5 := Blk(508, true, 1)], 513, 5)
    ensures var M := Placed(Layout(map[1 := Blk(512, false, 0)], 513, 1), 1, 2);
            M == Layout(map[1 := Blk(2, true, 0), 3 := Blk(510, false, 1)], 513, 3)
  {
    assert Append(Layout(map[], HEAP_START, 0), CHUNK_BYTES / 8).blocks == map[1 := Blk(512, false, 0)];
    var L1 := Placed(Layout(map[1 := Blk(512, false, 0)], 513, 1), 1, 4);
    assert L1.blocks == map[1 := Blk(4, true, 0), 5 := Blk(508, false, 1)];
    var L3 := Freed(Layout(map[1 := Blk(4, true, 0), 5 := Blk(508, true, 1)], 513, 5), 1);
    assert L3.blocks == map[1 := Blk(4, false, 0), 5 := Blk(508, true, 1)];
    var M := Placed(Layout(map[1 := Blk(512, false, 0)], 513, 1), 1, 2);
    assert M.blocks == map[1 := Blk(2, true, 0), 3 := Blk(510, false, 1)];
  }

  /** One allocation in a heap with a single free block, which is the one that is used. */
  method AllocateFrom(a: SegHeap, size: Word, ghost f: nat) returns (bp: nat)
    requires a.Initialised() && a.HeapEndOk() && 0 < size <= MAX_REQUEST && f in a.lay.blocks
        && a.lay.last in a.lay.blocks
    requires forall b :: IsFree(a.lay, b) <==> b == f
    requires SegHeap.AdjustedSize(size) <= 8 * a.lay.blocks[f].words
    modifies a, a.mem, a.segList, a.minList
    ensures a.Initialised() && a.HeapEndOk() && bp == f + 1
    ensures a.lay == Placed(old(a.lay), f, SegHeap.AdjustedSize(size) / 8)
  {
    hide FirstFit, Append, Placed, SegHeap.AdjustedSize;
    FirstFitComplete(a.base, a.lay, a.lists, SegHeap.AdjustedSize(size));
    assert IsFree(a.lay, f);
    bp := a.Malloc(size);
  }

  /** Two allocations that fill a fresh heap. */
  method FillChunk(a: SegHeap) returns (p: nat, q: nat)
    requires a.Arrays() && a.Uninitialised() && 2 + CHUNK_BYTES / 8 <= a.mem.Length
    modifies a, a.mem, a.segList, a.minList
    ensures a.Initialised() && a.HeapEndOk() && p == 2 && q == 6
    ensures a.lay == Layout(map[1 := Blk(4, true, 0), 5 := Blk(508, true, 1)], 513, 5)
  {
    hide Append, Placed, Tagged, Linked, Listed;
    RunLayouts();
    var ok := a.MmInit();
    assert a.lay == Layout(map[1 := Blk(512, false, 0)], 513, 1);
    p := AllocateFrom(a, 24, 1);
    assert a.lay == Layout(map[1 := Blk(4, true, 0), 5 := Blk(508, false, 1)], 513, 5);
    q := AllocateFrom(a, 4056, 5);
  }

  /** A run that reaches the exceptional case: two allocations fill a fresh heap, the application stores any two
      words in the second block, and the blocks are freed in order. The heap is then one free block, and heap_end
      still names the second one, where an extension would take the two words for links. */
  method HeapEndLost(a: SegHeap, x: Word, y: Word)
    requires a.Arrays() && a.Uninitialised() && 2 + CHUNK_BYTES / 8 <= a.mem.Length
    modifies a, a.mem, a.segList, a.minList
    ensures a.Valid() && !a.HeapEndOk()
    ensures a.heapEnd == 5 && !AllocBit(a.mem[5]) && a.mem[6] == x && a.mem[7] == y
  {
    hide Freed, Tagged, Linked, Listed, AllocBit, SizeOf;
    RunLayouts();
    var p, q := FillChunk(a);
    a.StoreWord(q, 0, x);
    a.StoreWord(q, 1, y);
    ghost var h := a.mem[..];
    assert h[6] == x && h[7] == y;
    a.Free(p);
    assert SamePayload(Layout(map[1 := Blk(4, true, 0), 5 := Blk(508, true, 1)], 513, 5), 5, h, a.mem[..]);
    assert At(a.mem[..], 6) == At(h, 6) && At(a.mem[..], 7) == At(h, 7);
    FreeForgotten(a, q);
  }

  /** After which allocations heap_end is right: those from the last block, except perhaps when that has minimum
      size and the epilogue still says so; and all others if heap_end was right before. */
  lemma HeapEndRestored(L: Layout, h: seq<nat>, b: nat, w: nat, heapEnd: nat)
    requires Tiled(L) && Coalesced(L) && Tagged(L, h, 0) && Fits(L, b, w)
    ensures var tag := At(h, b + L.blocks[b].words) == 1;
            && (tag ==> b == L.last) && (b == L.last && MIN_WORDS < L.blocks[b].words ==> tag)
            && (SegHeap.HeapEndAfterPlace(L, b, w, tag, heapEnd) == Placed(L, b, w).last
                <==> tag || heapEnd == L.last)
  {
    hide Coalesced;
    Around(L, b, L.last);
    var n := b + L.blocks[b].words;
    if n in L.blocks { Around(L, n, n); assert TagOk(L, h, 0, n); }
  }

  // ----- when a request is honest -----

  /** The adjusted size of a request covers it, header included, exactly when the additions do not
      wrap around. It is 0 for sixteen of the largest requests. */
  lemma RequestExact(size: Word)
    ensures (MIN_WORDS * 8 <= SegHeap.AdjustedSize(size) && size + 8 <= SegHeap.AdjustedSize(size))
        <==> size <= MAX_REQUEST
    ensures SegHeap.AdjustedSize(size) == 0 <==> MAX_REQUEST < size <= WORD_LIMIT - 8
    ensures WORD_LIMIT - 8 < size ==> SegHeap.AdjustedSize(size) == 16
  {
    if size > MAX_REQUEST && size + 8 >= WORD_LIMIT {
      assert (size + 8) % WORD_LIMIT == size + 8 - WORD_LIMIT;
    }
  }

  /** A request that is answered with a free block and breaks a tag: 2^64 - 8 bytes after a block of minimum size. */
  method NothingAllocated(a: SegHeap) returns (r: nat)
    requires a.Arrays() && a.Uninitialised() && 2 + CHUNK_BYTES / 8 <= a.mem.Length
    modifies a, a.mem, a.segList, a.minList
    ensures r == 4 && IsFree(a.lay, r - 1) && !a.Valid()
  {
    hide Append, Placed, Tagged, Linked, Listed, FirstFit;
    RunLayouts();
    RequestExact(WORD_LIMIT - 8);
    var ok := a.MmInit();
    assert a.lay == Layout(map[1 := Blk(512, false, 0)], 513, 1);
    var p := AllocateFrom(a, 8, 1);
    assert a.lay == Layout(map[1 := Blk(2, true, 0), 3 := Blk(510, false, 1)], 513, 3);
    FirstFitNothing(a.base, a.lay, a.lists);
    assert IsFree(a.lay, 3);
    r := a.Malloc(WORD_LIMIT - 8);
    assert PrevMin(a.lay, 3);
  }
}
