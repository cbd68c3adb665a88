/** mm_checkheap, the author's own consistency check: it accepts a heap that satisfies the invariant
    exactly when the epilogue word is 1. */
module HeapCheck {
  import opened HeapWords
  import opened HeapLayout
  import opened HeapTags
  import opened FreeLists
  import opened Allocator
  import opened HeapFacts

  // ----- counting free blocks -----

  ghost function FreeBelow(L: Layout, n: nat): set<nat> {
    set b | b in L.blocks && IsFree(L, b) && b < n
  }

  ghost function NodeSet(s: seq<nat>): set<nat> {
    set b | b in s
  }

  lemma {:induction false} NodesSize(s: seq<nat>)
    requires NoDup(s)
    ensures |NodeSet(s)| == |s|
  {
    if s != [] {
      var t, x := s[..|s| - 1], s[|s| - 1];
      NodesSize(t);
      assert NodeSet(s) == NodeSet(t) + {x};
      assert x !in NodeSet(t);
    }
  }

  /** The free blocks in the first n lists, and their number. */
  ghost function InLists(lists: seq<seq<nat>>, n: nat): set<nat>
    requires n <= |lists|
  {
    if n == 0 then {} else InLists(lists, n - 1) + NodeSet(lists[n - 1])
  }

  function Total(lists: seq<seq<nat>>, n: nat): nat
    requires n <= |lists|
  {
    if n == 0 then 0 else Total(lists, n - 1) + |lists[n - 1]|
  }

  lemma {:induction false} InListsMember(lists: seq<seq<nat>>, n: nat, b: nat)
    requires n <= |lists|
    ensures b in InLists(lists, n) <==> exists c :: 0 <= c < n && b in lists[c]
  {
    if n > 0 { InListsMember(lists, n - 1, b); }
  }

  /** The last of n lists has no node of the others. */
  lemma LastApart(lists: seq<seq<nat>>, n: nat)
    requires 0 < n <= |lists|
    requires forall c, d, b {:trigger b in lists[c], b in lists[d]} ::
               0 <= c < n && 0 <= d < n && b in lists[c] && b in lists[d] ==> c == d
    ensures InLists(lists, n - 1) !! NodeSet(lists[n - 1])
  {
    forall b {:trigger b in InLists(lists, n - 1)} | b in InLists(lists, n - 1) ensures b !in NodeSet(lists[n - 1]) {
      InListsMember(lists, n - 1, b);
    }
  }

  /** Lists without common nodes and without repetitions: the lengths add up to the number of nodes. */
  lemma {:induction false} InListsSize(lists: seq<seq<nat>>, n: nat)
    requires n <= |lists| && forall c {:trigger lists[c]} :: 0 <= c < n ==> NoDup(lists[c])
    requires forall c, d, b {:trigger b in lists[c], b in lists[d]} ::
               0 <= c < n && 0 <= d < n && b in lists[c] && b in lists[d] ==> c == d
    ensures |InLists(lists, n)| == Total(lists, n)
  {
    if n > 0 {
      InListsSize(lists, n - 1);
      NodesSize(lists[n - 1]);
      LastApart(lists, n);
    }
  }

  /** All lists together hold as many nodes as there are free blocks. */
  lemma ListsCount(base: nat, L: Layout, X: Lists)
    requires Tiled(L) && Listed(base, L, X, {})
    ensures Total(X.mins, NUM_MIN_LISTS) + Total(X.segs, NUM_CLASSES) == |FreeBelow(L, L.epi)|
  {
    var M, S, F := InLists(X.mins, NUM_MIN_LISTS), InLists(X.segs, NUM_CLASSES), FreeBelow(L, L.epi);
    forall c, d, b {:trigger b in X.segs[c], b in X.segs[d]} | 0 <= c < NUM_CLASSES && 0 <= d < NUM_CLASSES
        && b in X.segs[c] && b in X.segs[d]
      ensures c == d
    {
      assert InSeg(L, {}, c, b) && InSeg(L, {}, d, b);
    }
    forall c, d, b {:trigger b in X.mins[c], b in X.mins[d]} | 0 <= c < NUM_MIN_LISTS && 0 <= d < NUM_MIN_LISTS
        && b in X.mins[c] && b in X.mins[d]
      ensures c == d
    {
      assert InMin(base, L, {}, c, b) && InMin(base, L, {}, d, b);
    }
    InListsSize(X.mins, NUM_MIN_LISTS);
    InListsSize(X.segs, NUM_CLASSES);
    ListsSplit(base, L, X);
  }

  /** Every free block is in a list of minimum-size blocks or in one of the others, not in both. */
  lemma ListsSplit(base: nat, L: Layout, X: Lists)
    requires Tiled(L) && Listed(base, L, X, {})
    ensures var M, S := InLists(X.mins, NUM_MIN_LISTS), InLists(X.segs, NUM_CLASSES);
        M !! S && M + S == FreeBelow(L, L.epi)
  {
    var M, S, F := InLists(X.mins, NUM_MIN_LISTS), InLists(X.segs, NUM_CLASSES), FreeBelow(L, L.epi);
    forall b ensures !(b in M && b in S) && (b in F <==> b in M || b in S) {
      FreeListed(base, L, X, b);
      if b in L.blocks { assert BlockOk(L, b); }
    }
  }

  lemma FreeListed(base: nat, L: Layout, X: Lists, b: nat)
    requires Tiled(L) && Listed(base, L, X, {})
    ensures b in InLists(X.mins, NUM_MIN_LISTS) <==> IsFree(L, b) && b < L.epi && L.blocks[b].words == MIN_WORDS
    ensures b in InLists(X.segs, NUM_CLASSES) <==> IsFree(L, b) && b < L.epi && L.blocks[b].words > MIN_WORDS
  {
    InListsMember(X.mins, NUM_MIN_LISTS, b);
    InListsMember(X.segs, NUM_CLASSES, b);
    if b in L.blocks {
      assert BlockOk(L, b);
      var k, c := MinIndex(base, b), GetIndex(8 * L.blocks[b].words);
      assert b in X.mins[k] <==> InMin(base, L, {}, k, b);
      assert b in X.segs[c] <==> InSeg(L, {}, c, b);
    }
    if k :| 0 <= k < NUM_MIN_LISTS && b in X.mins[k] { assert InMin(base, L, {}, k, b); }
    if c :| 0 <= c < NUM_CLASSES && b in X.segs[c] { assert InSeg(L, {}, c, b); }
  }

  // ----- the checks -----

  /** One block of the walk: its word position, its footer, and its agreement with the block before it. */
  method CheckBlock(a: SegHeap, block: nat, prev: nat) returns (ok: bool)
    requires a.Initialised() && block in a.lay.blocks && prev == if block == HEAP_START then HEAP_START
        else a.lay.blocks[block].prev
    ensures ok
  {
    hide *;
    var mem := a.mem;
    CheckFacts(a, block, prev);
    var size := SizeOf(mem[block]);
    var nextTag := mem[block + size / 8];
    if (a.base + 8 * block) % 8 != 0 {
      return false;
    }
    if a.base + 8 * block <= a.base || a.base + 8 * block >= a.base + 8 * a.brk - 1 {
      return false;
    }
    if !AllocBit(mem[block]) && size != 16 {
      var footer := mem[block + size / 8 - 1];
      if SizeOf(footer) != size || AllocBit(footer) != AllocBit(mem[block])
          || PrevAllocBit(footer) != PrevAllocBit(mem[block]) {
        return false;
      }
    }
    if block != a.heapStart {
      if !AllocBit(mem[block]) && !AllocBit(mem[prev]) {
        return false;
      }
      if PrevAllocBit(mem[block]) != AllocBit(mem[prev]) {
        return false;
      }
      if PrevMinBit(mem[block]) && SizeOf(mem[prev]) != 16 {
        return false;
      }
    }
    if block == a.heapStart && !PrevAllocBit(mem[block]) && nextTag != 1 {
      return false;
    }
    return true;
  }

  /** What the checks of one block come to. */
  lemma CheckFacts(a: SegHeap, block: nat, prev: nat)
    requires a.Initialised() && block in a.lay.blocks && prev == if block == HEAP_START then HEAP_START
        else a.lay.blocks[block].prev
    ensures block < a.mem.Length && prev < a.mem.Length && a.heapStart == HEAP_START
    ensures var size, w := SizeOf(a.mem[block]), a.mem[block];
            && 16 <= size && block + size / 8 < a.mem.Length
            && (a.base + 8 * block) % 8 == 0 && a.base < a.base + 8 * block < a.base + 8 * a.brk - 1
            && (!AllocBit(w) && size != 16 ==> a.mem[block + size / 8 - 1] == w)
            && (block == HEAP_START ==> PrevAllocBit(w))
            && (block != HEAP_START ==>
                  && (AllocBit(w) || AllocBit(a.mem[prev])) && PrevAllocBit(w) == AllocBit(a.mem[prev])
                  && (PrevMinBit(w) ==> SizeOf(a.mem[prev]) == 16))
  {
    BlockFacts(a, block);
    hide Linked, Listed, IsLink, Tagged, Coalesced, Tiled, SizeOf, AllocBit, PrevAllocBit, PrevMinBit;
    Aligned(a.base, block);
  }

  lemma Aligned(base: nat, i: nat)
    requires base % 16 == 0
    ensures (base + 8 * i) % 8 == 0
  {
    EighthMultiple(2 * (base / 16) + i);
  }

  lemma EighthMultiple(k: nat)
    ensures (8 * k) % 8 == 0
  {
  }

  /** What the words of a block and of the block before it say. */
  lemma BlockFacts(a: SegHeap, b: nat)
    requires a.Initialised() && b in a.lay.blocks
    ensures a.mem.Length <= 0x2000_0000_0000_0000 && 1 <= b
        && b + a.lay.blocks[b].words <= a.lay.epi < a.brk <= a.mem.Length && MIN_WORDS <= a.lay.blocks[b].words
    ensures SizeOf(a.mem[b]) == 8 * a.lay.blocks[b].words && AllocBit(a.mem[b]) == a.lay.blocks[b].alloc
    ensures PrevMinBit(a.mem[b]) == PrevMin(a.lay, b) && PrevAllocBit(a.mem[b]) == PrevAlloc(a.lay, b)
    ensures !a.lay.blocks[b].alloc && a.lay.blocks[b].words > MIN_WORDS ==>
        a.mem[b + a.lay.blocks[b].words - 1] == a.mem[b]
    ensures b != HEAP_START ==> var p := a.lay.blocks[b].prev;
              && p in a.lay.blocks && p < b && SizeOf(a.mem[p]) == 8 * a.lay.blocks[p].words
                 && AllocBit(a.mem[p]) == a.lay.blocks[p].alloc
              && (a.lay.blocks[b].alloc || a.lay.blocks[p].alloc)
    ensures b == HEAP_START ==> PrevAlloc(a.lay, b)
  {
    hide Linked, Listed, IsLink;
    var L, h := a.lay, a.mem[..];
    assert BlockOk(L, b) && TagOk(L, h, 0, b) && NotBothFree(L, b);
    assert h[b] == a.mem[b] && h[b + L.blocks[b].words - 1] == a.mem[b + L.blocks[b].words - 1];
    if b != HEAP_START {
      var p := L.blocks[b].prev;
      assert BlockOk(L, p) && TagOk(L, h, 0, p);
      assert h[p] == a.mem[p];
    } else {
      ZeroNoBlock(L);
    }
  }

  lemma ZeroNoBlock(L: Layout)
    requires Tiled(L)
    ensures 0 !in L.blocks && L.epi !in L.blocks
  {
    forall b | b in L.blocks ensures b != 0 && b != L.epi { assert BlockOk(L, b); }
  }

  /** The walk over all blocks: counts the free ones, and ends at the epilogue. */
  method CheckBlocks(a: SegHeap) returns (ok: bool, free: nat, last: nat)
    requires a.Initialised()
    ensures ok && free == |FreeBelow(a.lay, a.lay.epi)| && last == a.lay.epi
  {
    hide Linked, Listed, Tagged, Coalesced, IsLink;
    var block, prev := a.heapStart, a.heapStart;
    ok, free, last := true, 0, 0;
    NoneBelow(a.lay);
    WalkFacts(a, block);
    while SizeOf(a.mem[block]) > 0
      invariant a.heapStart <= block <= a.lay.epi && (block in a.lay.blocks || block == a.lay.epi)
      invariant block in a.lay.blocks ==> prev == if block == HEAP_START then HEAP_START else a.lay.blocks[block].prev
      invariant free == |FreeBelow(a.lay, block)|
      invariant block < a.mem.Length && (SizeOf(a.mem[block]) > 0 <==> block in a.lay.blocks)
      decreases a.lay.epi - block
    {
      ok := CheckBlock(a, block, prev);
      if !ok {
        return;
      }
      BlockFacts(a, block);
      if !AllocBit(a.mem[block]) {
        free := free + 1;
      }
      FreeNext(a.lay, block);
      WalkFacts(a, block);
      prev := block;
      block := block + SizeOf(a.mem[block]) / 8;
      WalkFacts(a, block);
    }
    return true, free, block;
  }

  lemma WalkFacts(a: SegHeap, b: nat)
    requires a.Initialised() && (b in a.lay.blocks || b == a.lay.epi)
    ensures b < a.mem.Length && (SizeOf(a.mem[b]) > 0 <==> b in a.lay.blocks)
    ensures b == a.lay.epi ==> AllocBit(a.mem[b])
    ensures b in a.lay.blocks ==> b + a.lay.blocks[b].words in a.lay.blocks || b + a.lay.blocks[b].words == a.lay.epi
    ensures b in a.lay.blocks && b + a.lay.blocks[b].words in a.lay.blocks ==>
        a.lay.blocks[b + a.lay.blocks[b].words].prev == b
    ensures b in a.lay.blocks ==> b + a.lay.blocks[b].words > HEAP_START
  {
    hide Linked, Listed, IsLink, Coalesced;
    ZeroNoBlock(a.lay);
    if b in a.lay.blocks {
      BlockFacts(a, b);
      assert BlockOk(a.lay, b);
    } else {
      assert EpilogueOk(a.lay, a.mem[..]) && At(a.mem[..], b) == a.mem[b];
    }
  }

  lemma NoneBelow(L: Layout)
    requires Tiled(L)
    ensures FreeBelow(L, HEAP_START) == {}
  {
    forall b | b in L.blocks ensures b >= HEAP_START { assert BlockOk(L, b); }
  }

  /** No block starts inside another one. */
  lemma FreeNext(L: Layout, b: nat)
    requires Tiled(L) && b in L.blocks
    ensures |FreeBelow(L, b + L.blocks[b].words)| == |FreeBelow(L, b)| + if IsFree(L, b) then 1 else 0
  {
    assert BlockOk(L, b);
    var A, B := FreeBelow(L, b), FreeBelow(L, b + L.blocks[b].words);
    forall c | c in B ensures c in A || c == b { Around(L, b, c); }
    assert B == if IsFree(L, b) then A + {b} else A;
  }

  /** The walk down one list of minimum-size blocks: the number of its nodes. */
  method CountMin(a: SegHeap, i: nat) returns (n: nat)
    requires a.Initialised() && i < NUM_MIN_LISTS
    ensures n == |a.lists.mins[i]|
  {
    hide Tagged, Coalesced, Tiled, IsLink;
    var tmp := a.minList[i];
    ghost var s := a.lists.mins[i];
    MinNodes(a.base, a.lay, a.lists, {}, i, a.lay.epi + 1);
    n := 0;
    while tmp != 0
      invariant n <= |s| && tmp == (if n < |s| then s[n] else 0)
      decreases |s| - n
    {
      assert MinAt(a.base, a.mem[..], s, n) && s[n] in s;
      DecEnc(a.base, NextIn(s, n));
      assert At(a.mem[..], tmp + 1) == a.mem[tmp + 1];
      tmp := Dec(a.base, a.mem[tmp + 1]);
      n := n + 1;
      assert n < |s| ==> s[n] in s;
    }
  }

  /** The walk down one size-class list: every node is inside the heap, free, and linked both ways. */
  method CheckSeg(a: SegHeap, c: nat) returns (ok: bool, n: nat)
    requires a.Initialised() && c < NUM_CLASSES
    ensures ok && n == |a.lists.segs[c]|
  {
    hide Coalesced, Tiled, IsLink, Linked, Listed, Tagged;
    SegHead(a, c);
    var root := a.segList[c];
    ghost var s := a.lists.segs[c];
    ok, n := true, 0;
    var tmp := root;
    while tmp != 0
      invariant n <= |s| && tmp == (if n < |s| then s[n] else 0) && ok && root == Head(s)
      decreases |s| - n
    {
      NodeFacts(a, c, n);
      var prev, next := Dec(a.base, a.mem[tmp + 1]), Dec(a.base, a.mem[tmp + 2]);
      if a.base + 8 * tmp >= a.base + 8 * a.brk - 1 || a.base + 8 * tmp <= a.base {
        ok := false;
        return;
      }
      if AllocBit(a.mem[tmp]) {
        ok := false;
        return;
      }
      if tmp != root && next != 0 {
        if n + 1 < |s| { NodeFacts(a, c, n + 1); }
        if n > 0 { NodeFacts(a, c, n - 1); }
        var there, back := a.mem[next + 1], a.mem[prev + 2];
        if there != back {
          ok := false;
          return;
        }
      }
      n := n + 1;
      tmp := next;
    }
  }

  lemma SegHead(a: SegHeap, c: nat)
    requires a.Initialised() && c < NUM_CLASSES
    ensures |a.lists.segs| == NUM_CLASSES && a.segList.Length == NUM_CLASSES && a.segList[c] == Head(a.lists.segs[c])
    ensures forall i :: 0 <= i < |a.lists.segs[c]| ==> a.lists.segs[c][i] != 0
  {
    SegNodes(a.base, a.lay, a.lists, {}, c, a.lay.epi + 1);
    forall i | 0 <= i < |a.lists.segs[c]|
      ensures a.lists.segs[c][i] != 0
    {
      assert a.lists.segs[c][i] in a.lists.segs[c];
    }
  }

  /** Node n of a size-class list: its links and its place. */
  lemma NodeFacts(a: SegHeap, c: nat, n: nat)
    requires a.Initialised() && c < NUM_CLASSES && n < |a.lists.segs[c]|
    ensures var s, b := a.lists.segs[c], a.lists.segs[c][n];
            && 1 <= b && b + 2 < a.mem.Length && b < a.lay.epi < a.brk && !AllocBit(a.mem[b]) && IsFree(a.lay, b)
            && a.mem[b + 1] == Enc(a.base, PrevIn(s, n)) && a.mem[b + 2] == Enc(a.base, NextIn(s, n))
            && Dec(a.base, a.mem[b + 1]) == PrevIn(s, n) && Dec(a.base, a.mem[b + 2]) == NextIn(s, n)
            && (n > 0 ==> b != s[0])
  {
    var s := a.lists.segs[c];
    var b := s[n];
    assert b in s;
    assert InSeg(a.lay, {}, c, b);
    BlockFacts(a, b);
    assert SegAt(a.base, a.mem[..], s, n);
    assert At(a.mem[..], b + 1) == a.mem[b + 1] && At(a.mem[..], b + 2) == a.mem[b + 2];
    DecEnc(a.base, PrevIn(s, n));
    DecEnc(a.base, NextIn(s, n));
    assert NoDup(s);
  }

  /** The word that the check takes for the epilogue: the end of the block that heap_end claims to name. */
  ghost function ClaimedEpilogue(a: SegHeap): nat
    requires a.heapEnd < a.mem.Length
    reads a`heapEnd, a.mem
  {
    a.heapEnd + SizeOf(a.mem[a.heapEnd]) / 8
  }

  /** The whole check of any good heap, as far as its reads stay inside: it accepts exactly when the word it takes
      for the epilogue is 1. If heap_end is right, that is the epilogue, and the check never accepts a heap
      whose last block is allocated. */
  method CheckHeap(a: SegHeap) returns (ok: bool)
    requires a.Initialised() && a.heapEnd < a.mem.Length && ClaimedEpilogue(a) < a.mem.Length
    ensures ok <==> a.mem[ClaimedEpilogue(a)] == 1
    ensures a.HeapEndOk() && a.lay.last in a.lay.blocks ==> (ok <==> a.mem[a.lay.epi] == 1)
    ensures a.HeapEndOk() && a.lay.last in a.lay.blocks && ok ==> IsFree(a.lay, a.lay.last)
    ensures a.HeapEndOk() && IsFree(a.lay, a.lay.last) && a.lay.blocks[a.lay.last].words > MIN_WORDS ==> ok
  {
    HeapReads(a);
    if a.HeapEndOk() && a.lay.last in a.lay.blocks { EndFacts(a); }
    hide Coalesced, Tiled, IsLink, Linked, Listed, Tagged;
    if a.mem[a.heapStart - 1] != 1 {
      return false;
    }
    var free, last;
    ok, free, last := CheckBlocks(a);
    if !ok {
      return;
    }
    var epilogue := a.heapEnd + SizeOf(a.mem[a.heapEnd]) / 8;
    if a.mem[epilogue] != 1 {
      return false;
    }
    if SizeOf(a.mem[last]) != 0 || !AllocBit(a.mem[last]) {
      return false;
    }
    ok := CheckLists(a, free);
  }

  /** The part of the check that walks all free lists and counts their nodes. */
  method CheckLists(a: SegHeap, free: nat) returns (ok: bool)
    requires a.Initialised() && free == |FreeBelow(a.lay, a.lay.epi)|
    ensures ok
  {
    HeapReads(a);
    hide Coalesced, Tiled, IsLink, Linked, Listed, Tagged;
    var listed := 0;
    var i := 0;
    while i < NUM_MIN_LISTS
      invariant 0 <= i <= NUM_MIN_LISTS && listed == Total(a.lists.mins, i)
    {
      var n := CountMin(a, i);
      listed := listed + n;
      i := i + 1;
    }
    i := 0;
    while i < NUM_CLASSES
      invariant 0 <= i <= NUM_CLASSES && listed == Total(a.lists.mins, NUM_MIN_LISTS) + Total(a.lists.segs, i)
    {
      var root := a.segList[i];
      SegHead(a, i);
      if root != 0 {
        NodeFacts(a, i, 0);
        SomeFree(a.lay, root);
        if free == 0 {
          return false;
        }
        var n;
        ok, n := CheckSeg(a, i);
        if !ok {
          return;
        }
        listed := listed + n;
      } else {
        EmptyList(a, i);
      }
      i := i + 1;
    }
    CountsAgree(a);
    return listed == free;
  }

  lemma EmptyList(a: SegHeap, c: nat)
    requires a.Initialised() && c < NUM_CLASSES && a.segList[c] == 0
    ensures a.lists.segs[c] == []
  {
    SegHead(a, c);
  }

  lemma SomeFree(L: Layout, b: nat)
    requires IsFree(L, b) && b < L.epi
    ensures |FreeBelow(L, L.epi)| > 0
  {
    assert b in FreeBelow(L, L.epi);
  }

  lemma CountsAgree(a: SegHeap)
    requires a.Initialised()
    ensures Total(a.lists.mins, NUM_MIN_LISTS) + Total(a.lists.segs, NUM_CLASSES) == |FreeBelow(a.lay, a.lay.epi)|
  {
    ListsCount(a.base, a.lay, a.lists);
  }

  lemma HeapReads(a: SegHeap)
    requires a.Initialised()
    ensures a.heapStart == HEAP_START && a.mem.Length > a.lay.epi && a.mem[0] == 1
    ensures |a.lists.mins| == NUM_MIN_LISTS && |a.lists.segs| == NUM_CLASSES
    ensures SizeOf(a.mem[a.lay.epi]) == 0 && AllocBit(a.mem[a.lay.epi])
  {
    assert EpilogueOk(a.lay, a.mem[..]) && At(a.mem[..], a.lay.epi) == a.mem[a.lay.epi] && At(a.mem[..], 0) == a.mem[0];
  }

  /** The words at the end of the heap when heap_end is right. */
  lemma EndFacts(a: SegHeap)
    requires a.Initialised() && a.HeapEndOk() && a.lay.last in a.lay.blocks
    ensures a.heapEnd < a.lay.epi < a.mem.Length
    ensures SizeOf(a.mem[a.heapEnd]) == 8 * a.lay.blocks[a.lay.last].words
        && a.heapEnd + a.lay.blocks[a.lay.last].words == a.lay.epi
    ensures a.mem[a.lay.epi] == 1 ==> IsFree(a.lay, a.lay.last)
    ensures IsFree(a.lay, a.lay.last) && a.lay.blocks[a.lay.last].words > MIN_WORDS ==> a.mem[a.lay.epi] == 1
  {
    BlockFacts(a, a.lay.last);
    assert EpilogueOk(a.lay, a.mem[..]) && At(a.mem[..], a.lay.epi) == a.mem[a.lay.epi] && At(a.mem[..], 0) == a.mem[0];
  }

  /** A good heap that the check rejects: two allocations fill a fresh heap. */
  method GoodHeapRejected(a: SegHeap) returns (ok: bool)
    requires a.Arrays() && a.Uninitialised() && 2 + CHUNK_BYTES / 8 <= a.mem.Length
    modifies a, a.mem, a.segList, a.minList
    ensures a.Initialised() && a.HeapEndOk() && a.lay.last in a.lay.blocks && !ok
  {
    hide Tagged, Linked, Listed, Coalesced;
    var p, q := FillChunk(a);
    EndFacts(a);
    ok := CheckHeap(a);
  }
}
