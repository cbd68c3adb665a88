/** The segregated-list allocator: the heap words, the list heads and the operations on them.

    The ghost fields record what the words mean: the layout of blocks and the contents of the free
    lists. `off` names free blocks that are, for the moment, in no list. */
module Allocator {
  import opened Basics
  import opened HeapWords
  import opened HeapLayout
  import opened HeapTags
  import opened FreeLists

  const CHUNK_BYTES: nat := 4096

  /** The largest request whose adjusted size does not wrap around. */
  const MAX_REQUEST: nat := WORD_LIMIT - 24

  class SegHeap {
    const base: nat                // byte address of the first heap byte
    const mem: array<Word>         // all words the system will ever grant
    const segList: array<nat>
    const minList: array<nat>
    var brk: nat                   // words granted so far
    var heapStart: nat             // 0 before initialisation
    var heapEnd: nat
    ghost var lay: Layout
    ghost var lists: Lists

    ghost predicate Arrays()
    {
      && base % 16 == 0 && 0 < base && base + 8 * mem.Length <= WORD_LIMIT
      && segList.Length == NUM_CLASSES && minList.Length == NUM_MIN_LISTS
      && segList != minList && mem as object != segList && mem as object != minList
    }

    /** The lists are right for the current layout, except that they do not hold the blocks in `off`. */
    ghost predicate Core(off: set<nat>)
      reads this`brk, this`lay, this`lists, mem, segList, minList
    {
      && Arrays() && brk <= mem.Length && lay.epi < brk
      && ListsOk(base, lay, lists, off, mem[..], segList[..], minList[..])
    }

    // ----- the minimum-size lists -----

    /** The list s hangs off bucket `index`, and block is its node j. */
    method PopMinBlock(block: nat, ghost s: seq<nat>, ghost j: nat)
      requires Arrays() && j < |s| && s[j] == block && NoDup(s)
      requires forall b :: b in s ==> b % 2 == 1 && b + 1 < mem.Length
      requires minList[MinIndex(base, block)] == s[0] && MinChain(base, mem[..], s)
      modifies mem, minList
      ensures mem[..] == UnlinkMin(base, old(mem[..]), s, j)
      ensures minList[..] == old(minList[..])[MinIndex(base, block) := Head(Without(s, j))]
    {
      var index := MinIndex(base, block);
      var root := minList[index];
      ghost var h := mem[..];
      assert MinAt(base, h, s, j);
      DecEnc(base, NextIn(s, j));
      assert s[0] in s && s[j] in s && (j + 1 < |s| ==> s[j + 1] in s);
      assert Dec(base, mem[block + 1]) == NextIn(s, j);
      ghost var e := UnlinkMin(base, h, s, j);

      // one element
      if block == root && Dec(base, mem[block + 1]) == 0 {
        minList[index] := 0;
        assert mem[..] == e;
        return;
      }
      // element at the root
      if block == root && Dec(base, mem[block + 1]) != 0 {
        minList[index] := Dec(base, mem[block + 1]);
        mem[block + 1] := 0;
        assert mem[..] == e;
        return;
      }
      // general case: search the chain
      var tmp, prev := FindInMinList(block, root, s, j);
      assert prev in s;
      // element at the end
      if block != root && Dec(base, mem[block + 1]) == 0 {
        mem[prev + 1] := 0;
      }
      mem[prev + 1] := mem[tmp + 1];
      mem[tmp + 1] := 0;
      assert mem[..] == e;
    }

    /** Walks the chain from its root to block; prev is the node before it. */
    method FindInMinList(block: nat, root: nat, ghost s: seq<nat>, ghost j: nat) returns (tmp: nat, prev: nat)
      requires Arrays() && 0 < j < |s| && s[j] == block && root == s[0] && NoDup(s)
      requires forall b :: b in s ==> b % 2 == 1 && b + 1 < mem.Length
      requires MinChain(base, mem[..], s)
      ensures tmp == block && prev == s[j - 1]
    {
      tmp, prev := root, root;
      ghost var i := 0;
      while tmp != block
        invariant 0 <= i <= j && tmp == s[i]
        invariant i > 0 ==> prev == s[i - 1]
        decreases j - i
      {
        assert MinAt(base, mem[..], s, i) && s[i] in s && s[i + 1] in s;
        DecEnc(base, NextIn(s, i));
        prev := tmp;
        tmp := Dec(base, mem[tmp + 1]);
        i := i + 1;
      }
    }

    method PushMinBlock(block: nat)
      requires Arrays() && block + 1 < mem.Length && minList[MinIndex(base, block)] < mem.Length
      modifies mem, minList
      ensures mem[..] == LinkMin(base, old(mem[..]), old(minList[MinIndex(base, block)]), block)
      ensures minList[..] == old(minList[..])[MinIndex(base, block) := block]
    {
      var index := MinIndex(base, block);
      var root := minList[index];
      // no element
      if root == 0 {
        mem[block + 1] := 0;
        minList[index] := block;
        return;
      }
      // general case
      mem[block + 1] := Enc(base, root);
      minList[index] := block;
    }

    // ----- the size-class lists -----

    /** The part of pop that handles blocks larger than the minimum; block is node j of the list s. */
    method PopSegBlock(block: nat, size: nat, ghost s: seq<nat>, ghost j: nat)
      requires Arrays() && j < |s| && s[j] == block && Nodes(s, mem.Length)
      requires segList[GetIndex(size)] == s[0] && SegChain(base, mem[..], s)
      modifies mem, segList
      ensures mem[..] == Unlink(base, old(mem[..]), s, j)
      ensures segList[..] == old(segList[..])[GetIndex(size) := Head(Without(s, j))]
    {
      var i := GetIndex(size);
      var root := segList[i];
      ghost var h := mem[..];
      UnlinkWrites(base, h, s, j);
      ghost var e := Unlink(base, h, s, j);
      var prevBlock := Dec(base, mem[block + 1]);
      var nextBlock := Dec(base, mem[block + 2]);
      assert prevBlock == PrevIn(s, j) && nextBlock == NextIn(s, j);

      // one element
      if block == root && prevBlock == 0 && nextBlock == 0 {
        segList[i] := 0;
        assert mem[..] == e;
        return;
      }
      // two elements, at the root
      if block == root && Dec(base, mem[nextBlock + 2]) == 0 && prevBlock == 0 {
        mem[nextBlock + 1] := 0;
        mem[block + 2] := 0;
        segList[i] := nextBlock;
        assert mem[..] == e;
        return;
      }
      // two elements, the second
      if block != root && Dec(base, mem[prevBlock + 1]) == 0 && nextBlock == 0 {
        mem[prevBlock + 2] := 0;
        mem[block + 1] := 0;
        assert mem[..] == e;
        return;
      }
      // three or more elements, at the root
      if block == root && Dec(base, mem[nextBlock + 2]) != 0 && prevBlock == 0 {
        mem[nextBlock + 1] := 0;
        mem[block + 2] := 0;
        segList[i] := nextBlock;
        assert mem[..] == e;
        return;
      }
      // three or more elements, in the middle
      if block != root && nextBlock != 0 && prevBlock != 0 {
        mem[prevBlock + 2] := Enc(base, nextBlock);
        mem[nextBlock + 1] := Enc(base, prevBlock);
        mem[block + 2] := 0;
        mem[block + 1] := 0;
        assert mem[..] == e;
        return;
      }
      // three or more elements, at the end
      if block != root && Dec(base, mem[prevBlock + 1]) != 0 && nextBlock == 0 {
        mem[prevBlock + 2] := 0;
        mem[block + 1] := 0;
        assert mem[..] == e;
        return;
      }
      assert false;
    }

    /** Takes the free block out of the list it is in. */
    method Pop(block: nat, ghost off: set<nat>)
      requires Core(off) && IsFree(lay, block) && block !in off
      requires SizeOf(At(mem[..], block)) == 8 * lay.blocks[block].words
      modifies this`lists, mem, segList, minList
      ensures Core(off + {block})
      ensures lists == Popped(base, lay, old(lists), block)
      ensures mem[..] == PopWords(base, lay, old(lists), old(mem[..]), block)
      ensures LinkFrame(lay, old(mem[..]), mem[..])
    {
      ghost var X, h, seg, min := lists, mem[..], segList[..], minList[..];
      ghost var c, k := GetIndex(8 * lay.blocks[block].words), MinIndex(base, block);
      assert BlockOk(lay, block);
      PopFrame(base, lay, X, off, h, block);
      PoppedListed(base, lay, X, off, block);
      lists := Popped(base, lay, X, block);
      var size := SizeOf(mem[block]);
      if size == 16 {
        assert InMin(base, lay, off, k, block);
        MinNodes(base, lay, X, off, k, |h|);
        PopMinLinked(base, lay, X, off, h, seg, min, block);
        assert forall b :: b in X.mins[k] ==> b + 1 < |h|;
        PopMinBlock(block, X.mins[k], IndexOf(X.mins[k], block));
        return;
      }
      assert InSeg(lay, off, c, block);
      SegNodes(base, lay, X, off, c, |h|);
      PopSegLinked(base, lay, X, off, h, seg, min, block);
      PopSegBlock(block, size, X.segs[c], IndexOf(X.segs[c], block));
    }

    /** Puts a free block that is in no list at the head of the list it belongs to. */
    method Push(block: nat, ghost off: set<nat>)
      requires Core(off) && IsFree(lay, block) && block in off
      requires SizeOf(At(mem[..], block)) == 8 * lay.blocks[block].words
      modifies this`lists, mem, segList, minList
      ensures Core(off - {block})
      ensures lists == Pushed(base, lay, old(lists), block)
      ensures mem[..] == PushWords(base, lay, old(lists), old(mem[..]), block)
      ensures LinkFrame(lay, old(mem[..]), mem[..]) && HeadsList(lay, lists, block)
    {
      ghost var X, h, seg, min := lists, mem[..], segList[..], minList[..];
      ghost var c, k := GetIndex(8 * lay.blocks[block].words), MinIndex(base, block);
      assert BlockOk(lay, block);
      PushedHeads(base, lay, X, block);
      PushFrame(base, lay, X, off, h, block);
      PushedListed(base, lay, X, off, block);
      lists := Pushed(base, lay, X, block);
      var size := SizeOf(mem[block]);
      if size == 16 {
        MinNodes(base, lay, X, off, k, |h|);
        PushMinLinked(base, lay, X, off, h, seg, min, block);
        assert X.mins[k] != [] ==> X.mins[k][0] in X.mins[k];
        PushMinBlock(block);
        return;
      }
      SegNodes(base, lay, X, off, c, |h|);
      PushSegLinked(base, lay, X, off, h, seg, min, block);
      assert !InSeg(lay, off, c, block);
      assert X.segs[c] != [] ==> X.segs[c][0] in X.segs[c];
      PushSegBlock(block, size);
    }

    /** The part of push that handles blocks larger than the minimum. */
    method PushSegBlock(block: nat, size: nat)
      requires Arrays() && block + 2 < mem.Length && segList[GetIndex(size)] + 2 < mem.Length
      requires segList[GetIndex(size)] + 1 != block + 2 && segList[GetIndex(size)] != block
      modifies mem, segList
      ensures mem[..] == Link(base, old(mem[..]), old(segList[GetIndex(size)]), block)
      ensures segList[..] == old(segList[..])[GetIndex(size) := block]
    {
      var i := GetIndex(size);
      var root := segList[i];
      if root == 0 {
        mem[block + 1] := 0;
        mem[block + 2] := 0;
        segList[i] := block;
        return;
      }
      mem[root + 1] := Enc(base, block);
      mem[block + 2] := Enc(base, root);
      mem[block + 1] := 0;
      segList[i] := block;
    }

    // ----- tags -----

    /** Overwrites a word that is not a link of a free block. */
    method PutTag(i: nat, w: Word, ghost off: set<nat>)
      requires Core(off) && i < brk && !IsLink(lay, i)
      modifies mem
      ensures Core(off) && mem[..] == Put(old(mem[..]), i, w)
    {
      PutLinked(base, lay, lists, off, mem[..], segList[..], minList[..], i, w);
      mem[i] := w;
    }

    /** Writes the header of a block, and its footer if it is free and not of minimum size. */
    method WriteBlock(block: nat, size: nat, prevMin: bool, prevAlloc: bool, alloc: bool, ghost off: set<nat>)
      requires Core(off) && block in lay.blocks
      requires size == 8 * lay.blocks[block].words && alloc == lay.blocks[block].alloc
      modifies mem
      ensures Core(off) && size % 16 == 0
      ensures forall i: nat {:trigger At(mem[..], i)} ::
                At(mem[..], i) == if i == block || (!alloc && size != 16 && i == block + size / 8 - 1)
                                  then Pack(size, prevMin, prevAlloc, alloc) else At(old(mem[..]), i)
    {
      assert BlockOk(lay, block);
      HeaderNotLink(lay, block);
      PutTag(block, Pack(size, prevMin, prevAlloc, alloc), off);
      if !alloc && size != 16 {
        FooterNotLink(lay, block);
        var footer := block + SizeOf(mem[block]) / 8 - 1;
        PutTag(footer, Pack(size, prevMin, prevAlloc, alloc), off);
      }
    }

    /** The start of the block before `block`, from its footer; 0 if there is none. */
    method FindPrev(block: nat) returns (p: nat)
      requires 0 < block <= mem.Length && SizeOf(mem[block - 1]) / 8 <= block
      ensures SizeOf(mem[block - 1]) == 0 ==> p == 0
      ensures SizeOf(mem[block - 1]) != 0 ==> p + SizeOf(mem[block - 1]) / 8 == block
    {
      var footer := block - 1;
      if SizeOf(mem[footer]) == 0 {
        return 0;
      }
      p := footer + 1 - SizeOf(mem[footer]) / 8;
    }

    /** write_block for a free block, followed by push. */
    method WriteFree(block: nat, size: nat, prevMin: bool, prevAlloc: bool)
      requires Core({block}) && IsFree(lay, block) && size == 8 * lay.blocks[block].words
      modifies this`lists, mem, segList, minList
      ensures Core({}) && size % 16 == 0 && HeadsList(lay, lists, block)
      ensures WroteFree(lay, block, Pack(size, prevMin, prevAlloc, false), size, old(mem[..]), mem[..])
    {
      hide Linked, Listed, PushWords, Pushed, HeadsList, Pack;
      assert BlockOk(lay, block);
      HeaderNotLink(lay, block);
      if size != 16 { FooterNotLink(lay, block); }
      WriteBlock(block, size, prevMin, prevAlloc, false, {block});
      Push(block, {block});
      assert {block} - {block} == {};
    }

    /** What happens to heap_end when b is freed: it follows a merge, except that a block merged only
        with its predecessor is forgotten. */
    static function HeapEndAfterFree(L: Layout, b: nat, heapEnd: nat): nat
      requires b in L.blocks
    {
      var n := b + L.blocks[b].words;
      if !IsFree(L, n) then heapEnd
      else if n == heapEnd || (IsFree(L, L.blocks[b].prev) && b == heapEnd) then FreedStart(L, b)
      else heapEnd
    }

    /** The state between the two halves of free: b is marked free but neither merged nor listed.
        L and h are the layout and the words before the free. */
    ghost predicate Freeing(b: nat, L: Layout, h: seq<nat>)
      reads this`brk, this`lay, this`lists, mem, segList, minList
    {
      && Tiled(L) && Coalesced(L) && Tagged(L, h, 0) && Live(L, b) && L.blocks[b].words % 2 == 0
      && Core({b}) && lay == SetAlloc(L, b, false) && lay.epi == brk - 1
      && JustFreed(L, b, h, mem[..])
    }

    /** The layout is merged; the merged block is not yet tagged or listed. */
    ghost method Merge(block: nat, L: Layout, h: seq<nat>)
      requires Tiled(L) && Coalesced(L) && Tagged(L, h, 0) && Live(L, block)
      requires lay == SetAlloc(L, block, false) && Core(Merging(L, block))
      modifies this`lay
      ensures lay == Freed(L, block) && Core({FreedStart(L, block)})
    {
      FreedShape(L, block);
      FreedListed(base, L, block, lists);
      lay := Freed(L, block);
    }

    /** The end of cases 2 and 4: tags and lists the merged block l, and clears the prev_min bit of
        what follows it. g0 are the words before the neighbours were popped. */
    method FinishMerge(l: nat, size: nat, nextNext: nat, nnextValid: bool, ghost L: Layout, ghost b: nat,
        ghost g0: seq<nat>)
      requires Tiled(L) && Coalesced(L) && Live(L, b)
      requires lay == Freed(L, b) && Core({l}) && l == FreedStart(L, b) && nextNext == FreedEnd(L, b)
      requires l < nextNext && nextNext - l != L.blocks[b].words && size == 8 * (nextNext - l)
      requires LinkFrame(SetAlloc(L, b, false), g0, mem[..]) && (nnextValid <==> At(g0, nextNext) != 1)
      requires l in L.blocks && PrevMinBit(At(g0, l)) == PrevMin(L, l) && PrevAllocBit(At(g0, l)) == PrevAlloc(L, l)
      modifies this`lists, mem, segList, minList
      ensures Core({}) && Merged(L, b, g0, mem[..]) && HeadsList(lay, lists, l)
    {
      hide Linked, Listed, Tiled, Tagged, Coalesced, Pack, SizeOf, AllocBit, PrevAllocBit, ClearPrevAlloc;
      hide IsLink, PopWords, PushWords, Popped, Pushed, Freed, Enc, Dec, JustFreed, FreedWords, Merged;
      FreedShape(L, b);
      FreedBlocks(L, b, l);
      SetAllocTiled(L, b, false);
      HeaderNotLink(SetAlloc(L, b, false), l);
      HeaderNotLink(SetAlloc(L, b, false), nextNext);
      HeaderNotLink(lay, nextNext);
      Around(lay, l, l);
      ghost var g1 := mem[..];
      assert At(g1, l) == At(g0, l) && At(g1, nextNext) == At(g0, nextNext);
      WriteFree(l, size, PrevMinBit(mem[l]), PrevAllocBit(mem[l]));
      ghost var g2 := mem[..];
      assert At(mem[..], nextNext) == At(g0, nextNext);
      if nnextValid && PrevMinBit(mem[nextNext]) {
        PutTag(nextNext, ClearPrevMin(mem[nextNext]), {});
      }
      MergeSteps(L, b, g0, g1, g2, mem[..]);
    }

    /** Case 2: allocated | just freed | free. */
    method CoalesceNext(block: nat, nextBlock: nat, nextNext: nat, nnextValid: bool, ghost L: Layout, ghost h: seq<nat>)
        returns (r: nat)
      requires Freeing(block, L, h) && !IsFree(L, L.blocks[block].prev)
      requires nextBlock == block + L.blocks[block].words && IsFree(L, nextBlock) && nextNext == FreedEnd(L, block)
      requires nnextValid <==> At(h, nextNext) != 1
      modifies this`lay, this`lists, this`heapEnd, mem, segList, minList
      ensures Core({}) && lay == Freed(L, block) && r == FreedStart(L, block) && HeadsList(lay, lists, r)
      ensures FreedWords(L, block, h, mem[..])
      ensures heapEnd == HeapEndAfterFree(L, block, old(heapEnd))
    {
      hide Linked, Listed, Tiled, Tagged, Coalesced, Pack, SizeOf, AllocBit, PrevAllocBit, ClearPrevAlloc;
      hide IsLink, PopWords, PushWords, Popped, Pushed, Freed, Enc, Dec, JustFreed, FreedWords, Merged;
      ghost var g0 := mem[..];
      FreedShape(L, block);
      FreedReads(L, block, h, g0);
      Around(L, nextBlock, nextBlock);
      var size, nextSize := SizeOf(mem[block]), SizeOf(mem[nextBlock]);
      Pop(nextBlock, {block});
      assert {block} + {nextBlock} == Merging(L, block);
      Merge(block, L, h);
      r := block;
      FinishMerge(block, size + nextSize, nextNext, nnextValid, L, block, g0);
      if nextBlock == heapEnd {
        heapEnd := block;
      }
      MergedWords(L, block, h, g0, mem[..]);
    }

    /** Case 1: allocated | just freed | allocated. */
    method CoalesceNone(block: nat, ghost L: Layout, ghost h: seq<nat>) returns (r: nat)
      requires Freeing(block, L, h) && !IsFree(L, L.blocks[block].prev) && !IsFree(L, block + L.blocks[block].words)
      modifies this`lay, this`lists, mem, segList, minList
      ensures Core({}) && lay == Freed(L, block) && r == FreedStart(L, block) && HeadsList(lay, lists, r)
      ensures FreedWords(L, block, h, mem[..])
    {
      hide Linked, Listed, Tiled, Tagged, Coalesced, Pack, SizeOf, AllocBit, PrevAllocBit, PrevMinBit, ClearPrevMin,
           ClearPrevAlloc;
      hide IsLink, PopWords, PushWords, Popped, Pushed, Freed, Enc, Dec, FreedWords;
      ghost var g0 := mem[..];
      FreedShape(L, block);
      Around(L, block, block);
      assert {block} == Merging(L, block);
      Merge(block, L, h);
      HeaderNotLink(lay, block);
      HeaderNotLink(lay, FreedEnd(L, block));
      if MIN_WORDS < lay.blocks[block].words { FooterNotLink(lay, block); }
      Push(block, {block});
      assert {block} - {block} == {};
      r := block;
      assert Merged(L, block, g0, mem[..]);
      MergedWords(L, block, h, g0, mem[..]);
    }

    /** The block before `block`, which is free: two words back, or found by its footer. */
    method FindFreePrev(block: nat, c: bool, ghost L: Layout, ghost h: seq<nat>) returns (prevBlock: nat)
      requires Tiled(L) && Coalesced(L) && Tagged(L, h, 0) && Live(L, block) && L.blocks[block].words % 2 == 0
      requires JustFreed(L, block, h, mem[..]) && IsFree(L, L.blocks[block].prev) && block < mem.Length
      requires c == PrevMin(L, block)
      ensures prevBlock == L.blocks[block].prev
    {
      hide Tiled, Tagged, Coalesced;
      ghost var p := L.blocks[block].prev;
      FreedReadsPrev(L, block, h, mem[..]);
      Around(L, p, p);
      if c {
        prevBlock := block - 2;
      } else {
        assert At(mem[..], block - 1) == mem[block - 1];
        prevBlock := FindPrev(block);
      }
    }

    /** The first half of case 3: the next block's flag is cleared, and the block before is popped. */
    method PopPrevious(block: nat, prevBlock: nat, nextBlock: nat, ghost L: Layout, ghost h: seq<nat>)
      requires Freeing(block, L, h) && prevBlock == L.blocks[block].prev && IsFree(L, prevBlock)
      requires nextBlock == block + L.blocks[block].words && !IsFree(L, nextBlock)
      requires SizeOf(At(mem[..], prevBlock)) == 8 * L.blocks[prevBlock].words
      modifies this`lay, this`lists, mem, segList, minList
      ensures lay == Freed(L, block) && Core({prevBlock}) && PrevPopped(L, block, old(mem[..]), mem[..])
    {
      hide Linked, Listed, Tiled, Tagged, Coalesced, Pack, SizeOf, AllocBit, PrevAllocBit, PrevMinBit, ClearPrevMin,
           ClearPrevAlloc;
      hide IsLink, PopWords, PushWords, Popped, Pushed, Freed, Enc, Dec, JustFreed, FreedWords, Merged, LeftWords;
      FreedShape(L, block);
      Around(L, block, prevBlock);
      HeaderNotLink(lay, nextBlock);
      HeaderNotLink(L, nextBlock);
      HeaderNotLink(L, prevBlock);
      if PrevMinBit(mem[nextBlock]) {
        PutTag(nextBlock, ClearPrevMin(mem[nextBlock]), {block});
      }
      ghost var g, X := mem[..], lists;
      Pop(prevBlock, {block});
      PopBeside(base, L, block, X, g, prevBlock);
      assert {block} + {prevBlock} == Merging(L, block);
      Merge(block, L, h);
    }

    /** Case 3: free | just freed | allocated. heap_end is left alone, and so is what pop would read there if
        heap_end named the block. */
    method CoalescePrev(block: nat, nextBlock: nat, c: bool, ghost L: Layout, ghost h: seq<nat>) returns (r: nat)
      requires Freeing(block, L, h) && IsFree(L, L.blocks[block].prev)
      requires nextBlock == block + L.blocks[block].words && !IsFree(L, nextBlock) && c == PrevMin(L, block)
      modifies this`lay, this`lists, mem, segList, minList
      ensures Core({}) && lay == Freed(L, block) && r == FreedStart(L, block) && HeadsList(lay, lists, r)
      ensures FreedWords(L, block, h, mem[..]) && LeftWords(L, block, h, mem[..])
    {
      hide Linked, Listed, Tiled, Tagged, Coalesced, Pack, SizeOf, AllocBit, PrevAllocBit, PrevMinBit, ClearPrevMin,
           ClearPrevAlloc;
      hide IsLink, PopWords, PushWords, Popped, Pushed, Freed, Enc, Dec, JustFreed, FreedWords, Merged, LeftWords;
      ghost var g0 := mem[..];
      FreedShape(L, block);
      FreedReads(L, block, h, g0);
      FreedReadsPrev(L, block, h, g0);
      Around(L, block, block);
      var size := SizeOf(mem[block]);
      var prevBlock := FindFreePrev(block, c, L, h);
      Around(L, prevBlock, block);
      HeaderNotLink(L, prevBlock);
      var prevSize := SizeOf(mem[prevBlock]);
      PopPrevious(block, prevBlock, nextBlock, L, h);
      ghost var g1 := mem[..];
      assert At(g1, prevBlock) == At(g0, prevBlock);
      r := prevBlock;
      WriteFree(prevBlock, prevSize + size, PrevMinBit(mem[prevBlock]), PrevAllocBit(mem[prevBlock]));
      PrevSteps(L, block, h, g0, g1, mem[..]);
      MergedWords(L, block, h, g0, mem[..]);
    }

    /** Case 4: free | just freed | free. */
    method CoalesceBoth(block: nat, nextBlock: nat, nextNext: nat, nnextValid: bool, c: bool, ghost L: Layout,
        ghost h: seq<nat>)
        returns (r: nat)
      requires Freeing(block, L, h) && IsFree(L, L.blocks[block].prev) && c == PrevMin(L, block)
      requires nextBlock == block + L.blocks[block].words && IsFree(L, nextBlock) && nextNext == FreedEnd(L, block)
      requires nnextValid <==> At(h, nextNext) != 1
      modifies this`lay, this`lists, this`heapEnd, mem, segList, minList
      ensures Core({}) && lay == Freed(L, block) && r == FreedStart(L, block) && HeadsList(lay, lists, r)
      ensures FreedWords(L, block, h, mem[..])
      ensures heapEnd == HeapEndAfterFree(L, block, old(heapEnd))
    {
      hide Linked, Listed, Tiled, Tagged, Coalesced, Pack, SizeOf, AllocBit, PrevAllocBit, ClearPrevAlloc;
      hide IsLink, PopWords, PushWords, Popped, Pushed, Freed, Enc, Dec, JustFreed, FreedWords, Merged;
      ghost var g0 := mem[..];
      FreedShape(L, block);
      FreedReads(L, block, h, g0);
      FreedReadsPrev(L, block, h, g0);
      Around(L, block, nextBlock);
      var size, nextSize := SizeOf(mem[block]), SizeOf(mem[nextBlock]);
      var prevBlock := FindFreePrev(block, c, L, h);
      Around(L, prevBlock, block);
      var prevSize := SizeOf(mem[prevBlock]);
      HeaderNotLink(lay, nextBlock);
      Pop(prevBlock, {block});
      assert At(mem[..], nextBlock) == At(g0, nextBlock);
      Pop(nextBlock, {block} + {prevBlock});
      assert {block} + {prevBlock} + {nextBlock} == Merging(L, block);
      Merge(block, L, h);
      r := prevBlock;
      FinishMerge(prevBlock, prevSize + size + nextSize, nextNext, nnextValid, L, block, g0);
      if nextBlock == heapEnd || block == heapEnd {
        heapEnd := prevBlock;
      }
      MergedWords(L, block, h, g0, mem[..]);
    }

    /** Merges the freed block with its free neighbours and lists the result. */
    method CoalesceBlock(block: nat, ghost L: Layout, ghost h: seq<nat>) returns (r: nat)
      requires Freeing(block, L, h) && heapStart == HEAP_START
      modifies this`lay, this`lists, this`heapEnd, mem, segList, minList
      ensures Core({}) && lay == Freed(L, block) && r == FreedStart(L, block) && HeadsList(lay, lists, r)
      ensures FreedWords(L, block, h, mem[..])
      ensures IsFree(L, L.blocks[block].prev) && !IsFree(L, block + L.blocks[block].words) ==>
                LeftWords(L, block, h, mem[..])
      ensures heapEnd == HeapEndAfterFree(L, block, old(heapEnd))
    {
      hide Linked, Listed, Tiled, Tagged, Coalesced, Pack, SizeOf, AllocBit, PrevAllocBit, PrevMinBit, ClearPrevMin,
           ClearPrevAlloc;
      hide IsLink, PopWords, PushWords, Popped, Pushed, Freed, Enc, Dec, JustFreed, FreedWords, Merged, LeftWords;
      FreedShape(L, block);
      FreedReads(L, block, h, mem[..]);
      Around(L, block, block);
      var nextBlock := block + SizeOf(mem[block]) / 8;
      if nextBlock in L.blocks { Around(L, nextBlock, nextBlock); }
      var c := PrevMinBit(mem[block]);

      // heap_start holds a block header, so the word before a block is never there
      var prevWord, nextTag := mem[block - 1], mem[nextBlock];
      if prevWord == 1 && block - 1 == heapStart && nextTag != 1 {
        assert false;
      }

      var nextNext := nextBlock + SizeOf(mem[nextBlock]) / 8;
      var nnextValid := mem[nextNext] != 1;
      if PrevAllocBit(mem[block]) && AllocBit(mem[nextBlock]) {
        r := CoalesceNone(block, L, h);
        return;
      }
      if PrevAllocBit(mem[block]) && !AllocBit(mem[nextBlock]) {
        r := CoalesceNext(block, nextBlock, nextNext, nnextValid, L, h);
        return;
      }
      if !PrevAllocBit(mem[block]) && AllocBit(mem[nextBlock]) {
        r := CoalescePrev(block, nextBlock, c, L, h);
        return;
      }
      r := CoalesceBoth(block, nextBlock, nextNext, nnextValid, c, L, h);
    }

    // ----- the heap between operations -----

    /** Before initialisation no word has been granted and all list heads are NULL. */
    ghost predicate Uninitialised()
      reads this, segList, minList
    {
      && heapStart == 0 && brk == 0 && lay == Layout(map[], HEAP_START, 0)
      && lists == Lists(seq(NUM_CLASSES, _ => []), seq(NUM_MIN_LISTS, _ => []))
      && segList[..] == seq(NUM_CLASSES, _ => 0) && minList[..] == seq(NUM_MIN_LISTS, _ => 0)
    }

    /** The layout, the tags, the lists and the words agree, and no two free blocks are neighbours. */
    ghost predicate Initialised()
      reads this, mem, segList, minList
    {
      heapStart == HEAP_START && Core({}) && brk == lay.epi + 1 && Tagged(lay, mem[..], 0) && Coalesced(lay)
    }

    ghost predicate Valid()
      reads this, mem, segList, minList
    {
      Arrays() && (Uninitialised() || Initialised())
    }

    /** heap_end names the last block (vacuously so while there is no block). */
    ghost predicate HeapEndOk()
      reads this
    {
      lay.last in lay.blocks ==> heapEnd == lay.last
    }

    constructor (base: nat, words: nat)
      requires base % 16 == 0 && 0 < base && base + 8 * words <= WORD_LIMIT
      ensures Valid() && heapStart == 0 && mem.Length == words && this.base == base
      ensures fresh(mem) && fresh(segList) && fresh(minList)
    {
      this.base := base;
      mem := new Word[words];
      segList := new nat[NUM_CLASSES](_ => 0);
      minList := new nat[NUM_MIN_LISTS](_ => 0);
      brk, heapStart, heapEnd := 0, 0, 0;
      lay := Layout(map[], HEAP_START, 0);
      lists := Lists(seq(NUM_CLASSES, _ => []), seq(NUM_MIN_LISTS, _ => []));
    }

    /** Grants incr more bytes unless incr is negative as a signed number or exceeds the limit. */
    method MemSbrk(incr: Word) returns (ok: bool, p: nat)
      requires Arrays() && brk <= mem.Length && incr % 8 == 0
      modifies this`brk
      ensures ok <==> CanGrow(old(brk), incr)
      ensures ok ==> p == old(brk) && brk == old(brk) + incr / 8
      ensures !ok ==> brk == old(brk)
    {
      p := brk;
      ok := incr < HALF_LIMIT && brk + incr / 8 <= mem.Length;
      if ok {
        brk := brk + incr / 8;
      }
    }

    ghost predicate CanGrow(brk: nat, incr: nat)
    {
      incr < HALF_LIMIT && brk + incr / 8 <= mem.Length
    }

    // ----- find_fit -----

    /** What the search relies on; it also holds before initialisation. */
    ghost predicate Searchable()
      reads this, mem, segList, minList
    {
      && Arrays() && Tiled(lay) && Listed(base, lay, lists, {})
      && Linked(base, mem[..], segList[..], minList[..], lists)
      && (forall b: nat {:trigger IsFree(lay, b)} :: IsFree(lay, b) ==>
           b + 2 < mem.Length && SizeOf(At(mem[..], b)) == 8 * lay.blocks[b].words)
    }

    lemma ValidSearchable()
      requires Valid()
      ensures Searchable()
    {
      if Initialised() {
        forall b: nat {:trigger IsFree(lay, b)} | IsFree(lay, b)
          ensures b + 2 < mem.Length && SizeOf(At(mem[..], b)) == 8 * lay.blocks[b].words
        {
          assert BlockOk(lay, b) && TagOk(lay, mem[..], 0, b);
        }
      }
    }

    /** The walk down one size-class list. */
    method FindInSegList(c: nat, asize: nat) returns (r: nat)
      requires Searchable() && c < NUM_CLASSES
      ensures r == FitIn(lay, lists.segs[c], asize)
    {
      hide Tiled, Pack, SizeOf;
      var tmp := segList[c];
      ghost var s := lists.segs[c];
      ghost var j := 0;
      SegNodes(base, lay, lists, {}, c, lay.epi + 1);
      while tmp != 0
        invariant j <= |s| && tmp == (if j < |s| then s[j] else 0)
        invariant FitIn(lay, s, asize) == FitIn(lay, s[j..], asize)
        decreases |s| - j
      {
        assert s[j] in s;
        assert InSeg(lay, {}, c, s[j]) && SegAt(base, mem[..], s, j);
        assert At(mem[..], tmp) == mem[tmp];
        if asize <= SizeOf(mem[tmp]) {
          return tmp;
        }
        DecEnc(base, NextIn(s, j));
        assert j + 1 < |s| ==> s[j + 1] in s;
        assert s[j..][1..] == s[j + 1..];
        tmp := Dec(base, mem[tmp + 2]);
        j := j + 1;
      }
      return 0;
    }

    /** Scans the lists of the size class of asize and above, in order. */
    method FindFit(asize: nat) returns (r: nat)
      requires Searchable()
      ensures r == FirstFit(lay, lists, asize)
    {
      hide Tiled, Listed;
      if asize == 16 {
        var i := 0;
        while i < NUM_MIN_LISTS
          invariant i <= NUM_MIN_LISTS && MinFit(lists.mins, 0) == MinFit(lists.mins, i)
        {
          var tmp1 := minList[i];
          assert tmp1 == Head(lists.mins[i]);
          if tmp1 != 0 {
            return tmp1;
          }
          i := i + 1;
        }
      }
      var i := GetIndex(asize);
      while i < NUM_CLASSES
        invariant i <= NUM_CLASSES && FitFrom(lay, lists.segs, GetIndex(asize), asize)
            == FitFrom(lay, lists.segs, i, asize)
      {
        var root := segList[i];
        assert root == Head(lists.segs[i]);
        if root != 0 {
          var tmp := FindInSegList(i, asize);
          if tmp != 0 {
            return tmp;
          }
        } else {
          HeadNull(i);
        }
        i := i + 1;
      }
      return 0;
    }

    /** A list without a head is empty: no node is NULL. */
    lemma HeadNull(c: nat)
      requires Searchable() && c < NUM_CLASSES && Head(lists.segs[c]) == 0
      ensures lists.segs[c] == []
    {
      if lists.segs[c] != [] {
        assert Head(lists.segs[c]) in lists.segs[c];
        SegNodes(base, lay, lists, {}, c, lay.epi + 1);
      }
    }

    // ----- extending the heap -----

    /** round_up(size, dsize) on 64-bit words. */
    static function RoundUp(size: nat): (r: nat)
      ensures r % 16 == 0 && r < WORD_LIMIT
      ensures size + 15 < WORD_LIMIT ==> size <= r < size + 16
    {
      16 * ((size + 15) % WORD_LIMIT / 16)
    }

    static lemma RoundUpMultiple(size: Word)
      requires size % 16 == 0
      ensures RoundUp(size) == size && size == 8 * (size / 8) && size / 8 % 2 == 0
    {
      hide RoundUp;
      Multiples(RoundUp(size), size);
    }

    static lemma Multiples(a: nat, b: nat)
      requires a % 16 == 0 && b % 16 == 0 && b <= a < b + 16
      ensures a == b && b == 8 * (b / 8) && b / 8 % 2 == 0
    {
    }

    /** write_block and push for the grown last block, then the new epilogue. L, h are the layout and
        the words before the extension. */
    method FinishExtend(block: nat, size: nat, prevMin: bool, prevAlloc: bool, ghost L: Layout, ghost w: nat,
        ghost h: seq<nat>)
      requires Tiled(L) && MIN_WORDS <= w && w % 2 == 0 && lay == L && L.epi + w < brk
      requires block == (if IsFree(L, L.last) then L.last else L.epi) && size == 8 * (L.epi + w - block)
      requires Core(if IsFree(L, L.last) then {L.last} else {}) && LinkFrame(L, h, mem[..])
      requires IsFree(L, L.last) ==> prevMin == PrevMin(L, block) && prevAlloc == PrevAlloc(L, block)
      requires !IsFree(L, L.last) ==>
          prevMin == (L.last in L.blocks && L.blocks[L.last].words == MIN_WORDS)
          && prevAlloc
      modifies this`heapEnd, this`lay, this`lists, mem, segList, minList
      ensures Core({}) && lay == Append(L, w) && heapEnd == block == lay.last
      ensures AppendWords(L, w, h, mem[..])
    {
      hide Linked, Listed, Tiled, Tagged, Coalesced, Pack, SizeOf, AllocBit, PrevAllocBit, PrevMinBit;
      hide IsLink, PopWords, PushWords, Popped, Pushed, Append, Enc, Dec;
      AppendTiled(L, w);
      AppendBlocks(L, w, block);
      AppendListed(base, L, w, lists);
      lay := Append(L, w);
      Around(lay, block, block);
      HeaderNotLink(lay, block);
      HeaderNotLink(lay, lay.epi);
      if size != 16 { FooterNotLink(lay, block); }
      WriteFree(block, size, prevMin, prevAlloc);
      heapEnd := block;
      assert At(mem[..], block) == mem[block];
      var blockNext := block + SizeOf(mem[block]) / 8;
      PutTag(blockNext, 1, {});
    }

    /** extend_heap once the words have been granted: block is where the old epilogue is. */
    method PlaceExtension(block: nat, size: nat, ghost w: nat) returns (r: nat)
      requires Core({}) && Tagged(lay, mem[..], 0) && HeapEndOk() && heapStart == HEAP_START
      requires block == lay.epi && size == 8 * w && MIN_WORDS <= w && w % 2 == 0 && lay.epi + w < brk
      modifies this`heapEnd, this`lay, this`lists, mem, segList, minList
      ensures Core({}) && lay == Append(old(lay), w) && r == heapEnd == lay.last
      ensures AppendWords(old(lay), w, old(mem[..]), mem[..])
    {
      hide Linked, Listed, Tiled, Tagged, Coalesced, Pack, SizeOf, AllocBit, PrevAllocBit, PrevMinBit;
      hide IsLink, PopWords, PushWords, Popped, Pushed, Append, Enc, Dec;
      ghost var L, h := lay, mem[..];
      EmptyHeapTest(base, L, lists, h, segList[..], minList[..]);
      if L.last in L.blocks { LastReads(L, h); }
      assert At(h, block) == mem[block] && At(h, block - 1) == mem[block - 1];
      // no block yet
      if mem[block - 1] == 1 && mem[block] == 1 {
        FinishExtend(block, size, false, true, L, w, h);
        return block;
      }
      assert At(h, heapEnd) == mem[heapEnd];
      if AllocBit(mem[heapEnd]) {
        if SizeOf(mem[heapEnd]) == 16 {
          FinishExtend(block, size, true, true, L, w, h);
        } else {
          FinishExtend(block, size, false, true, L, w, h);
        }
        r := block;
      } else {
        HeaderNotLink(L, heapEnd);
        Pop(heapEnd, {});
        assert {} + {heapEnd} == {heapEnd} && At(mem[..], heapEnd) == At(h, heapEnd);
        FinishExtend(heapEnd, size + SizeOf(mem[heapEnd]), PrevMinBit(mem[heapEnd]), PrevAllocBit(mem[heapEnd]), L, w,
            h);
        r := heapEnd;
      }
    }

    /** Grows the heap by size bytes, rounded up; the new space is merged with the last block if that
        is free. Relies on heap_end naming the last block. */
    method ExtendHeap(size0: Word) returns (r: nat)
      requires Initialised() && 16 <= size0 && size0 % 16 == 0
      requires HeapEndOk() || !CanGrow(brk, size0)
      modifies this`brk, this`heapEnd, this`lay, this`lists, mem, segList, minList
      ensures Initialised()
      ensures r != 0 <==> CanGrow(old(brk), size0)
      ensures r != 0 ==> brk == old(brk) + size0 / 8
      ensures r == 0 ==> unchanged(this, mem, segList, minList)
      ensures r != 0 ==> lay == Append(old(lay), size0 / 8) && r == heapEnd == lay.last && IsFree(lay, r)
      ensures r != 0 ==> AppendWords(old(lay), size0 / 8, old(mem[..]), mem[..])
    {
      hide Linked, Listed, Tiled, Tagged, Coalesced, Pack, SizeOf, AllocBit, PrevAllocBit, PrevMinBit;
      hide RoundUp, IsLink, PopWords, PushWords, Popped, Pushed, Append, Enc, Dec;
      ghost var L, h := lay, mem[..];
      ghost var w := size0 / 8;
      RoundUpMultiple(size0);
      var size := RoundUp(size0);
      var ok, bp := MemSbrk(size);
      if !ok {
        return 0;
      }
      assert size == size0;
      r := PlaceExtension(bp - 1, size, w);
      AppendTiled(L, w);
      AppendBlocks(L, w, r);
      AppendCoalesced(L, w);
      AppendTagged(L, w, h, mem[..]);
    }

    // ----- placing a request -----

    /** The first half of split_block when the remainder is at least a minimum block: the block is popped and
        tagged as allocated; the remainder is in no list yet. */
    method TakeFront(block: nat, asize: nat, ghost L: Layout, ghost h: seq<nat>)
      requires Tiled(L) && Coalesced(L) && Tagged(L, h, 0) && lay == L && mem[..] == h && Core({})
          && Fits(L, block, asize / 8)
      requires asize % 16 == 0 && asize + 16 <= 8 * L.blocks[block].words
      modifies this`lay, this`lists, mem, segList, minList
      ensures lay == Placed(L, block, asize / 8) && Core({block + asize / 8})
      ensures FrontTaken(L, block, asize / 8, h, mem[..])
    {
      hide Linked, Listed, Tiled, Tagged, Coalesced, Pack, SizeOf, AllocBit, PrevAllocBit, PrevMinBit, SetPrevMin,
           ClearPrevMin;
      hide IsLink, PopWords, PushWords, Popped, Pushed, Placed, Enc, Dec;
      ghost var w := asize / 8;
      FreeReads(L, h, block);
      PlacedShape(L, block, w);
      PlacedBlocks(L, block, w, block);
      HeaderNotLink(L, block);
      Pop(block, {});
      assert {} + {block} == {block};
      PlacedListed(base, L, block, w, lists);
      lay := Placed(L, block, w);
      assert At(mem[..], block) == At(h, block);
      WriteBlock(block, asize, PrevMinBit(mem[block]), PrevAllocBit(mem[block]), true, {block + w});
    }

    /** split_block when the remainder is at least a minimum block. */
    method SplitOff(block: nat, asize: nat, blockSize: nat, ghost L: Layout, ghost h: seq<nat>)
      requires Tiled(L) && Coalesced(L) && Tagged(L, h, 0) && lay == L && mem[..] == h && Core({})
          && Fits(L, block, asize / 8)
      requires asize % 16 == 0 && blockSize == 8 * L.blocks[block].words && asize + 16 <= blockSize
      modifies this`lay, this`lists, mem, segList, minList
      ensures Core({}) && lay == Placed(L, block, asize / 8) && PlacedWords(L, block, asize / 8, h, mem[..])
    {
      hide Linked, Listed, Tiled, Tagged, Coalesced, Pack, SizeOf, AllocBit, PrevAllocBit, PrevMinBit, SetPrevMin,
           ClearPrevMin, PlacedWords;
      hide IsLink, PopWords, PushWords, Popped, Pushed, Placed, Enc, Dec;
      ghost var w := asize / 8;
      FreeReads(L, h, block);
      PlacedShape(L, block, w);
      PlacedBlocks(L, block, w, block);
      PlacedBlocks(L, block, w, block + w);
      PlacedBlocks(L, block, w, block + L.blocks[block].words);
      HeaderNotLink(L, block + L.blocks[block].words);
      TakeFront(block, asize, L, h);
      HeaderNotLink(lay, block);
      HeaderNotLink(lay, block + w);
      assert Core({block + w}) && block + L.blocks[block].words < brk <= mem.Length;
      hide Core, ListsOk;
      assert At(mem[..], block) == mem[block];
      var freeBlock := block + SizeOf(mem[block]) / 8;
      ghost var g1 := mem[..];
      WriteFree(freeBlock, blockSize - asize, asize == 16, true);
      assert At(mem[..], freeBlock) == mem[freeBlock];
      var tmp := freeBlock + SizeOf(mem[freeBlock]) / 8;
      HeaderNotLink(lay, tmp);
      assert At(mem[..], tmp) == At(h, tmp) && At(mem[..], block) == At(g1, block);
      ghost var g2 := mem[..];
      if mem[tmp] != 1 && blockSize - asize == 16 {
        SetPrevMinSmall(L, h, block);
        PutTag(tmp, SetPrevMin(mem[tmp]), {});
      } else {
        PutTag(tmp, ClearPrevMin(mem[tmp]), {});
      }
      SplitSteps(L, block, w, h, g1, g2, mem[..]);
    }

    /** The tag after a block has room for a flag: sizes in the heap are far below the word limit. */
    lemma SetPrevMinSmall(L: Layout, h: seq<nat>, b: nat)
      requires Arrays() && brk <= mem.Length && Tiled(L) && Tagged(L, h, 0) && IsFree(L, b) && L.epi < brk
      ensures At(h, b + L.blocks[b].words) + 8 < WORD_LIMIT
    {
      var n := b + L.blocks[b].words;
      assert BlockOk(L, b);
      if n in L.blocks { assert BlockOk(L, n) && TagOk(L, h, 0, n); }
    }

    /** split_block when the whole block is used. */
    method TakeWhole(block: nat, blockSize: nat, ghost asize: nat, ghost L: Layout, ghost h: seq<nat>)
      requires Tiled(L) && Coalesced(L) && Tagged(L, h, 0) && lay == L && mem[..] == h && Core({})
          && Fits(L, block, asize / 8)
      requires asize % 16 == 0 && blockSize == 8 * L.blocks[block].words && blockSize < asize + 16
      modifies this`lay, this`lists, mem, segList, minList
      ensures Core({}) && lay == Placed(L, block, asize / 8) && PlacedWords(L, block, asize / 8, h, mem[..])
    {
      hide Linked, Listed, Tiled, Tagged, Coalesced, Pack, SizeOf, AllocBit, PrevAllocBit, SetPrevMin, SetPrevAlloc;
      hide IsLink, PopWords, PushWords, Popped, Pushed, Placed, Enc, Dec;
      ghost var w := asize / 8;
      ghost var n := block + L.blocks[block].words;
      FreeReads(L, h, block);
      SetPrevMinSmall(L, h, block);
      PlacedShape(L, block, w);
      PlacedBlocks(L, block, w, block);
      PlacedBlocks(L, block, w, n);
      HeaderNotLink(L, block);
      HeaderNotLink(L, n);
      Pop(block, {});
      assert {} + {block} == {block};
      PlacedListed(base, L, block, w, lists);
      lay := Placed(L, block, w);
      HeaderNotLink(lay, block);
      HeaderNotLink(lay, n);
      assert At(mem[..], block) == At(h, block);
      WriteBlock(block, blockSize, PrevMinBit(mem[block]), PrevAllocBit(mem[block]), true, {});
      assert At(mem[..], block) == mem[block];
      var blockNext := block + SizeOf(mem[block]) / 8;
      assert At(mem[..], blockNext) == At(h, blockNext);
      PutTag(blockNext, SetPrevAlloc(mem[blockNext]), {});
      if blockSize == 16 {
        PutTag(blockNext, SetPrevMin(mem[blockNext]), {});
      }
    }

    /** What split_block does to heap_end: it follows the last block if the epilogue reads 1. */
    static function HeapEndAfterPlace(L: Layout, b: nat, w: nat, epilogueTag: bool, heapEnd: nat): nat
      requires b in L.blocks
    {
      if !epilogueTag then heapEnd else if w + MIN_WORDS <= L.blocks[b].words then b + w else b
    }

    /** Allocates the free block, giving back what exceeds asize bytes when that is enough for a block. */
    method SplitBlock(block: nat, asize: nat)
      requires Initialised() && asize % 16 == 0 && Fits(lay, block, asize / 8)
      modifies this`heapEnd, this`lay, this`lists, mem, segList, minList
      ensures Initialised() && lay == Placed(old(lay), block, asize / 8)
      ensures PlacedWords(old(lay), block, asize / 8, old(mem[..]), mem[..])
      ensures heapEnd == HeapEndAfterPlace(old(lay), block, asize / 8,
          At(old(mem[..]), block + old(lay).blocks[block].words) == 1, old(heapEnd))
      ensures old(HeapEndOk()) ==> HeapEndOk()
    {
      hide Linked, Listed, Tiled, Tagged, Coalesced, Pack, SizeOf, AllocBit, PrevAllocBit, PrevMinBit, PlacedWords,
           Placed;
      ghost var L, h := lay, mem[..];
      FreeReads(L, h, block);
      PlacedShape(L, block, asize / 8);
      PlacedBlocks(L, block, asize / 8, L.last);
      PlacedBlocks(L, block, asize / 8, block);
      assert At(h, block) == mem[block];
      var blockSize := SizeOf(mem[block]);
      var next := block + SizeOf(mem[block]) / 8;
      assert At(h, next) == mem[next];
      var isLastBlock := mem[next] == 1;
      if blockSize - asize >= 16 {
        SplitOff(block, asize, blockSize, L, h);
        if isLastBlock {
          heapEnd := block + asize / 8;
        }
      } else {
        TakeWhole(block, blockSize, asize, L, h);
        if isLastBlock {
          heapEnd := block;
        }
      }
      PlacedTagged(L, block, asize / 8, h, mem[..]);
    }

    lemma SmallTag(prevMin: bool, prevAlloc: bool)
      ensures Pack(0, prevMin, prevAlloc, true) < WORD_LIMIT
    {
    }

    /** The first half of split_block for no bytes: the block is popped and tagged with a size of 0. */
    method TakeNothing(block: nat)
      requires Initialised() && IsFree(lay, block) && MIN_WORDS < lay.blocks[block].words
      modifies this`lists, mem, segList, minList
      ensures Core({block}) && SizeOf(At(mem[..], block)) == 0
      ensures forall i: nat {:trigger At(mem[..], i)} ::
                i != block && !IsLink(lay, i) ==> At(mem[..], i) == At(old(mem[..]), i)
    {
      hide Linked, Listed, Tiled, Tagged, Coalesced, Pack, SizeOf, AllocBit, PrevAllocBit, PrevMinBit;
      hide IsLink, PopWords, PushWords, Popped, Pushed, Enc, Dec;
      ghost var h := mem[..];
      FreeReads(lay, h, block);
      HeaderNotLink(lay, block);
      Pop(block, {});
      assert {} + {block} == {block};
      SmallTag(PrevMinBit(mem[block]), PrevAllocBit(mem[block]));
      PutTag(block, Pack(0, PrevMinBit(mem[block]), PrevAllocBit(mem[block]), true), {block});
    }

    /** split_block for no bytes at all: the next block after an allocated front of size 0 is the block itself,
        so it is popped, tagged, tagged again as free, and pushed. Its tags come out right exactly if the block
        before it is not of minimum size. */
    method SplitNothing(block: nat)
      requires Initialised() && IsFree(lay, block) && MIN_WORDS < lay.blocks[block].words
      modifies this`heapEnd, this`lists, mem, segList, minList
      ensures Core({}) && lay.blocks[block].words % 2 == 0 && Retagged(lay, block, old(mem[..]), mem[..])
      ensures Initialised() <==> !PrevMin(lay, block)
      ensures heapEnd == HeapEndAfterPlace(lay, block, 0, At(old(mem[..]), block + lay.blocks[block].words) == 1,
          old(heapEnd))
    {
      hide Linked, Listed, Tiled, Tagged, Coalesced, Pack, SizeOf, AllocBit, PrevAllocBit, PrevMinBit, ClearPrevMin;
      hide IsLink, PopWords, PushWords, Popped, Pushed, Enc, Dec;
      ghost var h := mem[..];
      FreeReads(lay, h, block);
      NextNotMin(lay, h, block);
      HeaderNotLink(lay, block);
      HeaderNotLink(lay, block + lay.blocks[block].words);
      FooterNotLink(lay, block);
      assert At(h, block) == mem[block];
      var blockSize := SizeOf(mem[block]);
      var next := block + blockSize / 8;
      assert At(h, next) == mem[next];
      var isLastBlock := mem[next] == 1;
      TakeNothing(block);
      assert At(mem[..], block) == mem[block];
      var freeBlock := block + SizeOf(mem[block]) / 8;
      WriteFree(freeBlock, blockSize, false, true);
      assert At(mem[..], freeBlock) == mem[freeBlock];
      var tmp := freeBlock + SizeOf(mem[freeBlock]) / 8;
      assert At(mem[..], tmp) == mem[tmp] == At(h, tmp);
      PutTag(tmp, ClearPrevMin(mem[tmp]), {});
      if isLastBlock {
        heapEnd := freeBlock;
      }
      RetaggedExact(lay, block, h, mem[..]);
    }

    // ----- initialisation, malloc and free -----

    /** Prologue and epilogue, empty lists, and a first free block of the chunk size. */
    method MmInit() returns (ok: bool)
      requires Arrays() && Uninitialised()
      modifies this, mem, segList, minList
      ensures Valid() && HeapEndOk()
      ensures 2 <= mem.Length <==> heapStart != 0
      ensures heapStart != 0 ==>
                if CanGrow(2, CHUNK_BYTES) then ok && lay == Append(Layout(map[], 1, 0), CHUNK_BYTES / 8)
                                 else !ok && lay == Layout(map[], 1, 0)
      ensures heapStart == 0 ==> !ok && Uninitialised()
      ensures !ok ==> lay == old(lay) && lists == old(lists)
      ensures forall c {:trigger Live(lay, c)} :: !Live(lay, c)
    {
      hide Append, AppendWords, Tagged;
      var granted, start := MemSbrk(16);
      forall i | 0 <= i < NUM_CLASSES {
        segList[i] := 0;
      }
      forall i | 0 <= i < NUM_MIN_LISTS {
        minList[i] := 0;
      }
      if !granted {
        return false;
      }
      mem[start] := Pack(0, false, false, true);
      mem[start + 1] := Pack(0, false, false, true);
      heapStart := start + 1;
      heapEnd := heapStart;
      EmptyInitialised();
      ghost var L, h := lay, mem[..];
      var r := ExtendHeap(CHUNK_BYTES);
      ok := r != 0;
      if ok { AppendKeeps(L, CHUNK_BYTES / 8, h, mem[..]); }
    }

    lemma EmptyInitialised()
      requires Arrays() && heapStart == 1 && brk == 2 <= mem.Length && mem[0] == 1 && mem[1] == 1
      requires lay == Layout(map[], HEAP_START, 0)
      requires lists == Lists(seq(NUM_CLASSES, _ => []), seq(NUM_MIN_LISTS, _ => []))
      requires segList[..] == seq(NUM_CLASSES, _ => 0) && minList[..] == seq(NUM_MIN_LISTS, _ => 0)
      ensures Initialised()
    {
    }

    /** n bytes are the least block that holds a payload of size bytes and its header: a multiple of 16. */
    static predicate LeastBlock(size: nat, n: nat) {
      n % 16 == 0 && 16 <= n && size + 8 <= n && (n == 16 || n < size + 8 + 16)
    }

    /** n bytes are what the heap grows by when no free block holds size bytes: a chunk, or the least block. */
    static predicate Growth(size: nat, n: nat) {
      if size + 8 <= 4096 then n == 4096 else LeastBlock(size, n)
    }

    /** The block size that malloc looks for. */
    static function AdjustedSize(size: Word): (asize: nat)
      ensures asize % 16 == 0 && asize < WORD_LIMIT
      ensures size <= MAX_REQUEST ==> LeastBlock(size, asize)
    {
      if size <= 8 then 16 else RoundUp((size + 8) % WORD_LIMIT)
    }

    /** How many bytes malloc asks the system for when nothing fits. */
    static function ExtendSize(asize: nat): nat {
      if asize > CHUNK_BYTES then asize else CHUNK_BYTES
    }

    /** The layout once room for asize bytes has been made, and the block that will be used. */
    static ghost function WithRoom(L: Layout, X: Lists, asize: nat): Layout {
      if FirstFit(L, X, asize) != 0 then L else Append(L, ExtendSize(asize) / 8)
    }

    static ghost function Target(L: Layout, X: Lists, asize: nat): nat {
      if FirstFit(L, X, asize) != 0 then FirstFit(L, X, asize) else Append(L, ExtendSize(asize) / 8).last
    }

    /** The layout once a block of asize bytes has been allocated. */
    static ghost function AfterMalloc(L: Layout, X: Lists, asize: nat): Layout {
      var room, b := WithRoom(L, X, asize), Target(L, X, asize);
      if b in room.blocks then Placed(room, b, asize / 8) else room
    }

    /** malloc returned r: one more live block, of asize bytes, and every other live block is kept. */
    static ghost predicate Allocated(L: Layout, h: seq<nat>, M: Layout, g: seq<nat>, r: nat, asize: nat) {
      && 1 <= r && Live(M, r - 1) && !Live(L, r - 1) && asize == 8 * M.blocks[r - 1].words
      && (forall c {:trigger Live(M, c)} :: Live(M, c) <==> Live(L, c) || c == r - 1)
      && KeepsLive(L, M, 0, h, g)
    }

    /** Nothing fits, and the system grants no more. */
    ghost predicate NoRoom(asize: nat)
      reads this
    {
      FirstFit(lay, lists, asize) == 0 && !CanGrow(brk, ExtendSize(asize))
    }

    /** What malloc needs: heap_end is right, unless the heap is not going to be extended. */
    ghost predicate Serves(asize: nat)
      reads this
    {
      HeapEndOk() || FirstFit(lay, lists, asize) != 0 || NoRoom(asize)
    }

    /** What the search finds; an adjusted size can be 0 when it has wrapped around. */
    lemma FirstFitUsable(asize: nat)
      requires Searchable() && asize % 16 == 0
      ensures FirstFit(lay, lists, asize) != 0 ==> Usable(lay, FirstFit(lay, lists, asize), asize)
    {
      if asize == 0 {
        FirstFitNothing(base, lay, lists);
      } else {
        FirstFitComplete(base, lay, lists, asize);
      }
    }

    static ghost predicate Usable(L: Layout, b: nat, asize: nat) {
      IsFree(L, b) && if asize == 0 then MIN_WORDS < L.blocks[b].words else Fits(L, b, asize / 8)
    }

    /** Finds or makes room for asize bytes in an initialised heap. */
    method Reserve(asize: nat) returns (block: nat)
      requires Initialised() && asize < WORD_LIMIT && asize % 16 == 0 && Serves(asize)
      modifies this`brk, this`heapEnd, this`lay, this`lists, mem, segList, minList
      ensures Initialised() && (old(HeapEndOk()) ==> HeapEndOk())
      ensures block == 0 <==> old(NoRoom(asize))
      ensures block == 0 || FirstFit(old(lay), old(lists), asize) != 0 ==> unchanged(this, mem, segList, minList)
      ensures block != 0 && FirstFit(old(lay), old(lists), asize) == 0 ==>
                HeapEndOk() && brk == old(brk) + ExtendSize(asize) / 8
      ensures block != 0 ==> lay == WithRoom(old(lay), old(lists), asize)
      ensures block != 0 ==> block == Target(old(lay), old(lists), asize)
      ensures block != 0 ==> Usable(lay, block, asize) && KeepsLive(old(lay), lay, 0, old(mem[..]), mem[..])
      ensures block != 0 ==> forall c {:trigger Live(lay, c)} :: Live(lay, c) <==> Live(old(lay), c)
    {
      hide Linked, Listed, Tiled, Tagged, Coalesced, Append, AppendWords, FirstFit;
      ghost var L, h := lay, mem[..];
      ValidSearchable();
      block := FindFit(asize);
      FirstFitUsable(asize);
      if block == 0 {
        block := ExtendHeap(if asize > CHUNK_BYTES then asize else CHUNK_BYTES);
        if block != 0 {
          AppendKeeps(L, ExtendSize(asize) / 8, h, mem[..]);
          AppendBlocks(L, ExtendSize(asize) / 8, block);
          Around(lay, block, block);
        }
      }
    }

    /** malloc gave out nothing: the block of bp is still free and listed, and the heap is right again exactly if
        the block before it is not of minimum size. */
    ghost predicate StillFree(bp: nat)
      reads this, mem, segList, minList
    {
      && heapStart == HEAP_START && Core({}) && 1 <= bp && IsFree(lay, bp - 1)
      && bp - 1 in lists.segs[GetIndex(8 * lay.blocks[bp - 1].words)]
      && (Initialised() <==> !PrevMin(lay, bp - 1))
    }

    /** split_block, and the two ways in which it can turn out. */
    method UseBlock(block: nat, asize: nat)
      requires Initialised() && asize % 16 == 0 && Usable(lay, block, asize)
      modifies this`heapEnd, this`lay, this`lists, mem, segList, minList
      ensures asize != 0 ==> Initialised() && lay == Placed(old(lay), block, asize / 8)
      ensures asize != 0 ==> Allocated(old(lay), old(mem[..]), lay, mem[..], block + 1, asize)
      ensures asize == 0 ==> lay == old(lay) && StillFree(block + 1) && KeepsLive(lay, lay, 0, old(mem[..]), mem[..])
      ensures block in old(lay).blocks && heapEnd == HeapEndAfterPlace(old(lay), block, asize / 8,
          At(old(mem[..]), block + old(lay).blocks[block].words) == 1, old(heapEnd))
      ensures old(HeapEndOk()) ==> HeapEndOk()
    {
      hide Linked, Tiled, Tagged, Coalesced, Placed, PlacedWords, Retagged;
      ghost var L, h := lay, mem[..];
      if asize != 0 {
        SplitBlock(block, asize);
        PlacedKeeps(L, block, asize / 8, h, mem[..]);
        FreeReads(L, h, block);
        PlacedBlocks(L, block, asize / 8, block);
      } else {
        FreeReads(L, h, block);
        SplitNothing(block);
        RetaggedKeeps(L, block, h, mem[..]);
        assert InSeg(lay, {}, GetIndex(8 * lay.blocks[block].words), block);
      }
    }

    /** malloc in an initialised heap, for a request that is not empty. */
    method Place(size: Word) returns (bp: nat)
      requires Initialised() && 0 < size && Serves(AdjustedSize(size))
      modifies this`brk, this`heapEnd, this`lay, this`lists, mem, segList, minList
      ensures bp == 0 || AdjustedSize(size) != 0 ==> Initialised()
      ensures old(HeapEndOk()) ==> HeapEndOk()
      ensures bp == 0 <==> old(NoRoom(AdjustedSize(size)))
      ensures bp == 0 ==> unchanged(this, mem, segList, minList)
      ensures bp != 0 ==> brk == old(brk) + if FirstFit(old(lay), old(lists), AdjustedSize(size)) != 0 then 0
          else ExtendSize(AdjustedSize(size)) / 8
      ensures bp != 0 ==> HeapEndMoved(old(lay), old(lists), old(mem[..]), AdjustedSize(size), old(heapEnd))
      ensures bp != 0 ==> bp == Target(old(lay), old(lists), AdjustedSize(size)) + 1
      ensures bp != 0 && AdjustedSize(size) != 0 ==>
                && Allocated(old(lay), old(mem[..]), lay, mem[..], bp, AdjustedSize(size))
                && lay == AfterMalloc(old(lay), old(lists), AdjustedSize(size))
      ensures bp != 0 && AdjustedSize(size) == 0 ==>
                && StillFree(bp) && lay == WithRoom(old(lay), old(lists), 0)
                && KeepsLive(old(lay), lay, 0, old(mem[..]), mem[..])
                && forall c {:trigger Live(lay, c)} :: Live(lay, c) <==> Live(old(lay), c)
    {
      hide Linked, Listed, Tiled, Tagged, Coalesced, Append, AppendWords, FirstFit, AdjustedSize, Placed, PlacedWords;
      hide StillFree, HeapEndAfterPlace;
      ghost var L, h := lay, mem[..];
      var asize := AdjustedSize(size);
      var block := Reserve(asize);
      if block == 0 {
        return 0;
      }
      ghost var M, g := lay, mem[..];
      UseBlock(block, asize);
      if Live(L, 0) { Around(L, 0, 0); }
      KeepsLiveTrans(L, M, lay, 0, h, g, mem[..]);
      bp := block + 1;
    }

    /** heap_end after a successful malloc from the layout L with lists X and words h: it follows the block
        that was used, or is right after an extension. */
    ghost predicate HeapEndMoved(L: Layout, X: Lists, h: seq<nat>, asize: nat, before: nat)
      reads this
    {
      var f := FirstFit(L, X, asize);
      if f == 0 then HeapEndOk()
      else f in L.blocks && heapEnd == HeapEndAfterPlace(L, f, asize / 8, At(h, f + L.blocks[f].words) == 1, before)
    }

    lemma NothingToFind(asize: nat)
      requires Arrays() && Uninitialised() && asize % 16 == 0
      ensures Searchable() && FirstFit(lay, lists, asize) == 0
    {
      ValidSearchable();
      FirstFitUsable(asize);
    }

    static lemma ExtendAtLeastChunk(asize: nat)
      requires asize % 16 == 0
      ensures ExtendSize(asize) % 8 == 0 && 512 <= ExtendSize(asize) / 8
    {
    }

    /** malloc after mm_init found no room at all: the search and the extension fail in turn. */
    method FailWithoutHeap(asize: nat)
      requires Arrays() && Uninitialised() && mem.Length < 2 && asize < WORD_LIMIT && asize % 16 == 0
      modifies this`brk
      ensures unchanged(this)
    {
      NothingToFind(asize);
      ExtendAtLeastChunk(asize);
      hide FirstFit, Searchable, Usable;
      var block := FindFit(asize);
      assert block == 0;
      var extendsize := if asize > CHUNK_BYTES then asize else CHUNK_BYTES;
      assert extendsize == ExtendSize(asize);
      hide ExtendSize;
      var granted, start := MemSbrk(extendsize);
      assert !granted;
    }

    /** A fresh heap is one free chunk. */
    lemma FreshChunk(asize: nat)
      requires Initialised() && lay == Append(Layout(map[], HEAP_START, 0), CHUNK_BYTES / 8) && asize % 16 == 0
      ensures brk == 2 + CHUNK_BYTES / 8 && (FirstFit(lay, lists, asize) == 0 <==> CHUNK_BYTES < asize)
    {
      hide FirstFit, Listed, Linked, Tagged;
      if asize == 0 { FirstFitNothing(base, lay, lists); } else { FirstFitComplete(base, lay, lists, asize); }
      assert lay.blocks == map[HEAP_START := Blk(CHUNK_BYTES / 8, false, 0)];
      assert IsFree(lay, HEAP_START);
    }

    /** When malloc returns NULL on the first use of the heap: the system grants less than a chunk, or the
        request needs a further extension that is refused. */
    ghost predicate NoFirstRoom(asize: nat) {
      !CanGrow(2, CHUNK_BYTES) || (CHUNK_BYTES < asize && !CanGrow(2 + CHUNK_BYTES / 8, asize))
    }

    /** What malloc finds after mm_init. */
    lemma FirstUse(asize: nat)
      requires Valid() && HeapEndOk() && asize % 16 == 0
      requires 2 <= mem.Length <==> heapStart != 0
      requires heapStart != 0 ==>
                 lay == if CanGrow(2, CHUNK_BYTES) then Append(Layout(map[], HEAP_START, 0), CHUNK_BYTES / 8)
                                         else Layout(map[], HEAP_START, 0)
      ensures heapStart == 0 ==> NoFirstRoom(asize)
      ensures heapStart != 0 ==> Serves(asize) && (NoRoom(asize) <==> NoFirstRoom(asize))
    {
      hide FirstFit, Append, Listed, Linked, Tagged;
      if heapStart != 0 {
        if CanGrow(2, CHUNK_BYTES) {
          FreshChunk(asize);
        } else {
          FirstFitUsable(asize);
          assert brk == 2;
        }
      }
    }

    /** Some free block holds size bytes and a header. */
    static ghost predicate HasRoom(L: Layout, size: nat) {
      exists b {:trigger IsFree(L, b)} :: IsFree(L, b) && size + 8 <= 8 * L.blocks[b].words
    }

    /** What the search and the extension come to, in terms of the request. */
    lemma RoomMeaning(size: Word)
      requires Searchable() && 0 < size <= MAX_REQUEST
      ensures FirstFit(lay, lists, AdjustedSize(size)) != 0 <==> HasRoom(lay, size)
      ensures Growth(size, ExtendSize(AdjustedSize(size))) && ExtendSize(AdjustedSize(size)) % 8 == 0
      ensures forall n {:trigger Growth(size, n)} :: Growth(size, n) ==> n == ExtendSize(AdjustedSize(size))
    {
      var asize := AdjustedSize(size);
      GrowthIs(size, asize);
      AtLeastMin(size, asize);
      hide AdjustedSize, LeastBlock, Growth, ExtendSize, Searchable;
      SearchComplete(asize);
      forall b {:trigger IsFree(lay, b)} | IsFree(lay, b)
        ensures 8 * lay.blocks[b].words < asize <==> 8 * lay.blocks[b].words < size + 8
      {
        FreeMultiple(b);
        LeastBelow(size, asize, 8 * lay.blocks[b].words);
      }
    }

    lemma SearchComplete(asize: nat)
      requires Searchable() && 16 <= asize && asize % 16 == 0
      ensures FirstFit(lay, lists, asize) == 0 <==> forall b :: IsFree(lay, b) ==> 8 * lay.blocks[b].words < asize
    {
      FirstFitComplete(base, lay, lists, asize);
    }

    static lemma AtLeastMin(size: nat, n: nat)
      requires LeastBlock(size, n)
      ensures 16 <= n && n % 16 == 0
    {
    }

    static lemma GrowthIs(size: nat, asize: nat)
      requires LeastBlock(size, asize)
      ensures Growth(size, ExtendSize(asize)) && ExtendSize(asize) % 8 == 0
      ensures forall n {:trigger Growth(size, n)} :: Growth(size, n) ==> n == ExtendSize(asize)
    {
      LeastUnique(size, asize);
      EighthOfSixteen(asize);
      hide LeastBlock;
    }

    static lemma EighthOfSixteen(n: nat)
      requires n % 16 == 0
      ensures n % 8 == 0
    {
    }

    lemma FreeMultiple(b: nat)
      requires Searchable() && IsFree(lay, b)
      ensures (8 * lay.blocks[b].words) % 16 == 0 && 16 <= 8 * lay.blocks[b].words
    {
      assert BlockOk(lay, b);
    }

    static lemma LeastUnique(size: nat, n: nat)
      requires LeastBlock(size, n)
      ensures forall m {:trigger LeastBlock(size, m)} :: LeastBlock(size, m) ==> m == n
      ensures n <= 4096 <==> size + 8 <= 4096
    {
    }

    static lemma LeastBelow(size: nat, n: nat, m: nat)
      requires LeastBlock(size, n) && m % 16 == 0 && 16 <= m
      ensures m < n <==> m < size + 8
    {
    }

    /** Allocates size bytes; returns the payload address, or 0. The heap is initialised on first use. For a
        request whose adjusted size wraps around to 0 the address is that of a block that stays free. */
    method Malloc(size: Word) returns (bp: nat)
      requires Valid() && (size == 0 || Serves(AdjustedSize(size)))
      modifies this, mem, segList, minList
      ensures bp == 0 || AdjustedSize(size) != 0 ==> Valid()
      ensures old(HeapEndOk()) ==> HeapEndOk()
      ensures bp == 0 ==> KeepsLive(old(lay), lay, 0, old(mem[..]), mem[..])
                          && forall c {:trigger Live(lay, c)} :: Live(lay, c) <==> Live(old(lay), c)
      ensures bp == 0 && old(heapStart) != 0 ==> unchanged(this, mem, segList, minList)
      ensures bp == 0 <==> size == 0 || if old(heapStart) == 0 then NoFirstRoom(AdjustedSize(size))
          else old(NoRoom(AdjustedSize(size)))
      ensures bp != 0 && AdjustedSize(size) != 0 ==>
                && Initialised() && Allocated(old(lay), old(mem[..]), lay, mem[..], bp, AdjustedSize(size))
                && (old(heapStart) != 0 ==> lay == AfterMalloc(old(lay), old(lists), AdjustedSize(size)))
      ensures bp != 0 && size <= MAX_REQUEST ==>
                bp - 1 in lay.blocks && LeastBlock(size, 8 * lay.blocks[bp - 1].words)
      ensures 0 < size <= MAX_REQUEST && old(heapStart) != 0 ==>
                (bp == 0 <==> !HasRoom(old(lay), size) && forall n {:trigger Growth(size, n)} ::
                                Growth(size, n) ==> !CanGrow(old(brk), n))
      ensures bp != 0 && size <= MAX_REQUEST && old(heapStart) != 0 ==>
                if HasRoom(old(lay), size) then brk == old(brk) else Growth(size, 8 * (brk - old(brk)))
      ensures bp != 0 && old(heapStart) != 0 ==>
                && HeapEndMoved(old(lay), old(lists), old(mem[..]), AdjustedSize(size), old(heapEnd))
                && bp == Target(old(lay), old(lists), AdjustedSize(size)) + 1
      ensures bp != 0 && AdjustedSize(size) == 0 ==>
                && StillFree(bp) && KeepsLive(old(lay), lay, 0, old(mem[..]), mem[..])
                && (old(heapStart) != 0 ==> lay == WithRoom(old(lay), old(lists), 0))
                && forall c {:trigger Live(lay, c)} :: Live(lay, c) <==> Live(old(lay), c)
    {
      hide Tiled, Listed, Linked, Append, FirstFit, Placed, AdjustedSize, NoFirstRoom, HeapEndMoved, AfterMalloc,
           Target, StillFree;
      ghost var L, h := lay, mem[..];
      if Live(L, 0) { Around(L, 0, 0); }
      bp := 0;
      if heapStart == 0 {
        var ok := MmInit();
        if size != 0 { FirstUse(AdjustedSize(size)); }
        assert KeepsLive(L, lay, 0, h, mem[..]) && forall c {:trigger Live(L, c)} :: !Live(L, c);
      }
      if size == 0 {
        return;
      }
      ghost var M, g := lay, mem[..];
      if heapStart == 0 {
        FailWithoutHeap(AdjustedSize(size));
        return;
      }
      if size <= MAX_REQUEST {
        ValidSearchable();
        RoomMeaning(size);
      }
      bp := Place(size);
      if bp != 0 {
        KeepsLiveTrans(L, M, lay, 0, h, g, mem[..]);
      }
    }

    /** Is bp the address of a live payload? */
    ghost predicate LivePayload(bp: nat)
      reads this
    {
      1 <= bp && Live(lay, bp - 1)
    }

    /** Marks the block of bp free, tells the next block, and coalesces. */
    method Free(bp: nat)
      requires Valid() && (bp == 0 || LivePayload(bp))
      modifies this`heapEnd, this`lay, this`lists, mem, segList, minList
      ensures Valid()
      ensures bp == 0 ==> unchanged(this, mem, segList, minList)
      ensures bp != 0 ==> lay == Freed(old(lay), bp - 1) && HeadsList(lay, lists, FreedStart(old(lay), bp - 1))
      ensures bp != 0 ==> heapEnd == HeapEndAfterFree(old(lay), bp - 1, old(heapEnd))
      ensures bp != 0 ==> KeepsLive(old(lay), lay, bp - 1, old(mem[..]), mem[..])
      ensures bp != 0 ==> forall c {:trigger Live(lay, c)} :: Live(lay, c) <==> Live(old(lay), c) && c != bp - 1
      ensures bp != 0 && IsFree(old(lay), old(lay).blocks[bp - 1].prev) ==>
                var w := old(lay).blocks[bp - 1].words;
                w % 2 == 0 && (!IsFree(old(lay), bp - 1 + w) ==> LeftWords(old(lay), bp - 1, old(mem[..]), mem[..]))
    {
      hide Listed, Linked, Tiled, Tagged, Coalesced, Freed, FreedWords, Pack, PrevAllocBit, AllocBit, PrevMinBit,
           SizeOf, ClearPrevAlloc, LeftWords;
      if bp == 0 {
        return;
      }
      var block := bp - 1;
      ghost var L, h := lay, mem[..];
      LiveReads(L, h, block);
      UnmarkedListed(base, L, block, lists);
      SetAllocTiled(L, block, false);
      lay := SetAlloc(L, block, false);
      assert At(h, block) == mem[block];
      var size := SizeOf(mem[block]);
      WriteBlock(block, size, PrevMinBit(mem[block]), PrevAllocBit(mem[block]), false, {block});
      assert At(mem[..], block) == mem[block];
      var blockNext := block + SizeOf(mem[block]) / 8;
      HeaderNotLink(lay, blockNext);
      assert At(mem[..], blockNext) == At(h, blockNext);
      PutTag(blockNext, ClearPrevAlloc(mem[blockNext]), {block});
      var r := CoalesceBlock(block, L, h);
      FreedShape(L, block);
      FreedCoalesced(L, block);
      FreedTagged(L, block, h, mem[..]);
      FreedKeeps(L, block, h, mem[..]);
    }

    lemma LiveReads(L: Layout, h: seq<nat>, b: nat)
      requires Tiled(L) && Tagged(L, h, 0) && Live(L, b)
      ensures var w := At(h, b);
              && SizeOf(w) == 8 * L.blocks[b].words && L.blocks[b].words % 2 == 0 && MIN_WORDS <= L.blocks[b].words
              && PrevMinBit(w) == PrevMin(L, b) && PrevAllocBit(w) == PrevAlloc(L, b)
              && (b + L.blocks[b].words in L.blocks || b + L.blocks[b].words == L.epi)
              && b + L.blocks[b].words <= L.epi
    {
      assert BlockOk(L, b) && TagOk(L, h, 0, b);
    }

    // ----- copying and realloc -----

    /** The application stores a word in a live payload. */
    method StoreWord(bp: nat, i: nat, w: Word)
      requires Initialised() && LivePayload(bp) && i + 1 < lay.blocks[bp - 1].words
      modifies mem
      ensures Initialised() && mem[..] == Put(old(mem[..]), bp + i, w)
      ensures KeepsLive(lay, lay, bp - 1, old(mem[..]), mem[..])
    {
      ghost var h := mem[..];
      assert BlockOk(lay, bp - 1);
      mem[bp + i] := w;
      PayloadWrites(base, lay, lists, h, mem[..], segList[..], minList[..], bp - 1);
    }

    /** memcpy by words, then the remaining bytes; the two ranges must not overlap. */
    method MemCopy(dst: nat, src: nat, n: nat)
      requires dst + (n + 7) / 8 <= mem.Length && src + (n + 7) / 8 <= mem.Length
      requires dst + (n + 7) / 8 <= src || src + (n + 7) / 8 <= dst
      modifies mem
      ensures forall a: nat {:trigger ByteAt(mem[..], dst, a)} :: a < n ==>
          ByteAt(mem[..], dst, a) == ByteAt(old(mem[..]), src, a)
      ensures forall i: nat {:trigger At(mem[..], i)} :: !(dst <= i < dst + (n + 7) / 8) ==>
          At(mem[..], i) == At(old(mem[..]), i)
    {
      var numBytes, d, s := n, dst, src;
      ghost var k: nat := 0;
      ghost var h := mem[..];
      while numBytes >= 8
        invariant 0 <= numBytes && n == numBytes + 8 * k && d == dst + k && s == src + k
        invariant forall i :: dst <= i < d ==> mem[i] == h[i - dst + src]
        invariant forall i :: 0 <= i < mem.Length && !(dst <= i < d) ==> mem[i] == h[i]
      {
        mem[d] := mem[s];
        numBytes := numBytes - 8;
        s := s + 1;
        d := d + 1;
        k := k + 1;
      }
      ghost var g := mem[..];
      if numBytes > 0 {
        Pow256Word();
        SpliceBound(mem[d], mem[s], numBytes, 8, WORD_LIMIT);
        mem[d] := Splice(mem[d], mem[s], numBytes);
      }
      forall a: nat {:trigger ByteAt(mem[..], dst, a)} | a < n
        ensures ByteAt(mem[..], dst, a) == ByteAt(h, src, a)
      {
        if a / 8 == k {
          SpliceBytes(g[d], g[s], numBytes, a % 8);
          assert g[s] == h[s];
        } else {
          assert a / 8 < k && mem[dst + a / 8] == h[src + a / 8];
        }
      }
    }

    /** The layout M after malloc, and the block of ptr gone from it. */
    ghost predicate Moved(M: Layout, ptr: nat, rightBefore: bool)
      reads this
    {
      && 1 <= ptr && ptr - 1 in M.blocks && lay == Freed(M, ptr - 1)
      && (rightBefore ==> heapEnd == HeapEndAfterFree(M, ptr - 1, M.last))
    }

    lemma LiveMeansInitialised(bp: nat)
      requires Valid() && LivePayload(bp)
      ensures Initialised() && heapStart != 0
    {
    }

    lemma HeapEndIsLast(b: nat)
      requires Initialised() && HeapEndOk() && b in lay.blocks
      ensures heapEnd == lay.last
    {
      Around(lay, b, b);
    }

    /** The last part of realloc: a new block, a copy, and the old block is freed. */
    method MoveBlock(ptr: nat, size: Word) returns (r: nat)
      requires Initialised() && LivePayload(ptr) && 0 < size <= MAX_REQUEST && Serves(AdjustedSize(size))
      modifies this, mem, segList, minList
      ensures Initialised()
      ensures r == 0 <==> old(NoRoom(AdjustedSize(size)))
      ensures r == 0 ==> unchanged(this, mem, segList, minList)
      ensures r != 0 ==>
                && 1 <= r && Live(lay, r - 1) && !Live(old(lay), r - 1) && LeastBlock(size, 8 * lay.blocks[r - 1].words)
                && (forall c {:trigger Live(lay, c)} :: Live(lay, c) <==>
                     (Live(old(lay), c) && c != ptr - 1)
                     || c == r - 1)
                && KeepsLive(old(lay), lay, ptr - 1, old(mem[..]), mem[..])
                && forall a: nat {:trigger ByteAt(mem[..], r, a)} ::
                     a < size && a < 8 * old(lay).blocks[ptr - 1].words - 8 ==>
                         ByteAt(mem[..], r, a) == ByteAt(old(mem[..]), ptr, a)
      ensures r != 0 ==> Moved(AfterMalloc(old(lay), old(lists), AdjustedSize(size)), ptr, old(HeapEndOk()))
    {
      hide Tiled, Listed, Linked, Tagged, Coalesced, FirstFit, AdjustedSize, Freed, Placed, Append, Pack, SizeOf;
      hide AfterMalloc, Target, HeapEndMoved, Serves, NoRoom, NoFirstRoom, HeapEndAfterFree;
      ghost var L, h := lay, mem[..];
      if Live(L, 0) { Around(L, 0, 0); }
      r := Malloc(size);
      if r == 0 {
        return;
      }
      ghost var M, g1 := lay, mem[..];
      if HeapEndOk() { HeapEndIsLast(r - 1); }
      Around(M, r - 1, ptr - 1);
      LiveReads(M, g1, ptr - 1);
      assert At(g1, ptr - 1) == mem[ptr - 1];
      var copysize := SizeOf(mem[ptr - 1]) - 8;
      if size < copysize {
        copysize := size;
      }
      MemCopy(r, ptr, copysize);
      ghost var g2 := mem[..];
      PayloadWrites(base, M, lists, g1, g2, segList[..], minList[..], r - 1);
      Free(ptr);
      ReallocKeeps(L, M, lay, h, g1, g2, mem[..], ptr, r, copysize);
    }

    /** Moves a live block to a new size: its first bytes, up to the smaller of the two sizes, move along. */
    method Realloc(ptr: nat, size: Word) returns (r: nat)
      requires Valid() && (ptr == 0 || (LivePayload(ptr) && size <= MAX_REQUEST))
      requires size == 0 || Serves(AdjustedSize(size))
      modifies this, mem, segList, minList
      ensures r == 0 || AdjustedSize(size) != 0 ==> Valid()
      ensures r == 0 <==> size == 0 || if old(heapStart) == 0 then NoFirstRoom(AdjustedSize(size))
                                       else old(NoRoom(AdjustedSize(size)))
      ensures size == 0 && ptr == 0 ==> unchanged(this, mem, segList, minList)
      ensures size == 0 && ptr != 0 ==>
                && lay == Freed(old(lay), ptr - 1) && heapEnd == HeapEndAfterFree(old(lay), ptr - 1, old(heapEnd))
                && (forall c {:trigger Live(lay, c)} :: Live(lay, c) <==> Live(old(lay), c) && c != ptr - 1)
                && KeepsLive(old(lay), lay, ptr - 1, old(mem[..]), mem[..])
      ensures size != 0 && r == 0 ==> forall c {:trigger Live(lay, c)} :: Live(lay, c) <==> Live(old(lay), c)
      ensures size != 0 && r == 0 ==> KeepsLive(old(lay), lay, 0, old(mem[..]), mem[..])
      ensures size != 0 && r == 0 && old(heapStart) != 0 ==> unchanged(this, mem, segList, minList)
      ensures ptr == 0 && r != 0 && AdjustedSize(size) != 0 ==>
                Allocated(old(lay), old(mem[..]), lay, mem[..], r, AdjustedSize(size))
      ensures ptr == 0 && r != 0 && AdjustedSize(size) == 0 ==>
                && StillFree(r) && KeepsLive(old(lay), lay, 0, old(mem[..]), mem[..])
                && forall c {:trigger Live(lay, c)} :: Live(lay, c) <==> Live(old(lay), c)
      ensures ptr != 0 && r != 0 ==>
                && 1 <= r && Live(lay, r - 1) && !Live(old(lay), r - 1) && LeastBlock(size, 8 * lay.blocks[r - 1].words)
                && (forall c {:trigger Live(lay, c)} :: Live(lay, c) <==>
                     (Live(old(lay), c) && c != ptr - 1)
                     || c == r - 1)
                && KeepsLive(old(lay), lay, ptr - 1, old(mem[..]), mem[..])
                && forall a: nat {:trigger ByteAt(mem[..], r, a)} ::
                     a < size && a < 8 * old(lay).blocks[ptr - 1].words - 8 ==>
                         ByteAt(mem[..], r, a) == ByteAt(old(mem[..]), ptr, a)
      ensures ptr != 0 && r != 0 ==> Moved(AfterMalloc(old(lay), old(lists), AdjustedSize(size)), ptr, old(HeapEndOk()))
    {
      hide Tiled, Listed, Linked, Tagged, Coalesced, FirstFit, AdjustedSize, Freed, Placed, Append, Pack, SizeOf;
      hide AfterMalloc, Target, HeapEndMoved, Serves, NoRoom, NoFirstRoom, HeapEndAfterFree, Moved,
           StillFree;
      if ptr != 0 { LiveMeansInitialised(ptr); }
      if size == 0 {
        Free(ptr);
        return 0;
      }
      if ptr == 0 {
        r := Malloc(size);
        return;
      }
      r := MoveBlock(ptr, size);
    }

    /** The steps of realloc, put together: malloc gives M, g1; the copy gives g2; the free gives N, g3. */
    lemma ReallocKeeps(L: Layout, M: Layout, N: Layout, h: seq<nat>, g1: seq<nat>, g2: seq<nat>, g3: seq<nat>, ptr: nat,
        r: nat, n: nat)
      requires 1 <= ptr && Live(L, ptr - 1) && 1 <= r && Live(M, r - 1) && !Live(L, r - 1)
      requires KeepsLive(L, M, 0, h, g1) && KeepsLive(M, M, r - 1, g1, g2) && KeepsLive(M, N, ptr - 1, g2, g3)
          && !Live(L, 0)
      requires n <= 8 * L.blocks[ptr - 1].words - 8 && n <= 8 * M.blocks[r - 1].words - 8
      requires forall a: nat {:trigger ByteAt(g2, r, a)} :: a < n ==> ByteAt(g2, r, a) == ByteAt(g1, ptr, a)
      ensures KeepsLive(L, N, ptr - 1, h, g3)
      ensures forall a: nat {:trigger ByteAt(g3, r, a)} :: a < n ==> ByteAt(g3, r, a) == ByteAt(h, ptr, a)
    {
      assert Live(M, ptr - 1) && Live(N, r - 1);
      forall c {:trigger Live(L, c)} {:trigger Live(N, c)} | Live(L, c) && c != ptr - 1
        ensures Live(N, c) && N.blocks[c].words == L.blocks[c].words && SamePayload(L, c, h, g3)
      {
        assert Live(M, c) && c != r - 1;
      }
      forall a: nat {:trigger ByteAt(g3, r, a)} | a < n ensures ByteAt(g3, r, a) == ByteAt(h, ptr, a) {
        assert ByteAt(g2, r, a) == ByteAt(g1, ptr, a);
        assert At(g3, r + a / 8) == At(g2, r + a / 8) && At(g1, ptr + a / 8) == At(h, ptr + a / 8);
      }
    }
  }
}
