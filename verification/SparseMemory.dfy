/** The sparse memory emulation: pages allocated on first use and found through a hash table, accesses
    of up to eight bytes that may straddle two pages, and tracking of bytes that were written.

    Addresses outside the emulated heap stand for other memory of the process (`host`). Leaving the
    program (exit, abort or a fault) is an outcome. */
module SparseMemory {
  import opened Basics
  import opened ByteWords
  import opened FlatMemory
  import opened PageTables

  datatype Outcome = Fine | OutOfPages | Uninitialised | Fault

  class Page {
    var id: nat
    var next: Page?
    var initSet: InitBits
    var bytes: PageBytes

    constructor () {
      id, next, initSet, bytes := 0, null, NoBitsSet(), seq(1024, _ => 0);
    }
  }

  class Memory {
    const pool: seq<Page>              // the pages behind the page table; allocation takes the next one
    const pageTable: array<Page?>
    const numBuckets: nat
    var nextFree: nat                  // position of next_free_page
    var numFree: nat
    var brk: nat
    var checkUB: bool
    var host: map<nat, Byte>
    ghost const frames: set<Page>
    ghost var ids: seq<nat>            // the page ids in use, in order of allocation
    ghost var cells: map<nat, Byte>    // the bytes of the heap written since the last reset

    // ----- the invariant -----

    function PageAt(i: int): Page? {
      if 0 <= i < |pool| then pool[i] else null
    }

    ghost predicate Fixed() {
      && numBuckets > 0 && pageTable.Length == numBuckets
      && frames == (set p | p in pool)
      && (forall i, j {:trigger pool[i], pool[j]} :: 0 <= i < j < |pool| ==> pool[i] != pool[j])
    }

    /** Page i in the order of allocation s: its id, and the link to the page before it in its chain. */
    ghost predicate Linked(s: seq<nat>, i: nat)
      requires Fixed() && i < |s| && i < |pool|
      reads frames`id, frames`next
    {
      pool[i].id == s[i] && pool[i].next == PageAt(Latest(s[..i], s[i] % numBuckets, numBuckets))
    }

    /** Every page id has at most one page, in the chain of its own bucket. */
    ghost predicate Chained()
      reads this`nextFree, this`numFree, this`ids, pageTable, frames`id, frames`next
    {
      && Fixed() && |ids| == nextFree <= |pool| && numFree == |pool| - nextFree && NoDuplicates(ids)
      && (forall i {:trigger Linked(ids, i)} | 0 <= i < nextFree :: Linked(ids, i))
      && (forall b {:trigger pageTable[b]} | 0 <= b < numBuckets :: pageTable[b] == PageAt(Latest(ids, b, numBuckets)))
    }

    ghost predicate PageHolds(s: seq<nat>, c: map<nat, Byte>, i: nat)
      requires Fixed() && i < |s| && i < |pool|
      reads frames`initSet, frames`bytes
    {
      Holds(s[i], pool[i].initSet, pool[i].bytes, c)
    }

    /** The pages and their bits agree with the bytes written. */
    ghost predicate Filled()
      reads this`ids, this`cells, frames`initSet, frames`bytes
    {
      && Fixed() && |ids| <= |pool|
      && (forall i {:trigger PageHolds(ids, cells, i)} | 0 <= i < |ids| :: PageHolds(ids, cells, i))
    }

    /** Written bytes lie inside the heap and on pages in use; host memory lies outside the heap. */
    ghost predicate PlacedIn(c: map<nat, Byte>)
      reads this`ids, this`brk, this`host
    {
      && HEAP_START <= brk <= HEAP_START + MAX_HEAP
      && (forall a {:trigger a in c} :: a in c ==> HEAP_START <= a < brk && PageId(a) in ids)
      && (forall a {:trigger a in host} :: a in host ==> a < HEAP_START || HEAP_START + MAX_HEAP <= a)
    }

    ghost predicate Valid()
      reads this`nextFree, this`numFree, this`ids, this`cells, this`brk, this`host, pageTable, frames
    {
      Chained() && Filled() && PlacedIn(cells)
    }

    /** The flat memory that the process sees. */
    ghost function Flat(): map<nat, Byte>
      reads this`host, this`cells
    {
      host + cells
    }

    predicate InHeap(addr: nat, len: nat)
      reads this`brk
    {
      HEAP_START <= addr && addr + len <= brk
    }

    // ----- pages -----

    lemma ChainedAt(i: nat)
      requires Chained() && i < |ids|
      ensures numBuckets > 0 && |ids| == nextFree && i < |pool| && pool[i] in frames && pool[i].id == ids[i]
      ensures pool[i].next == PageAt(Latest(ids[..i], ids[i] % numBuckets, numBuckets))
    {
      assert Linked(ids, i);
    }

    method FindPage(id: nat) returns (block: Page?, ghost i: nat)
      requires Chained()
      ensures block == null <==> id !in ids
      ensures block != null ==> i < |ids| && i < |pool| && block == pool[i] && ids[i] == id
    {
      var b := id % numBuckets;
      block := pageTable[b];
      ghost var n := |ids|;
      i := 0;
      assert ids[..n] == ids;
      hide Chained, Latest;
      while block != null && block.id != id
        invariant 0 <= n <= |ids| == nextFree && block == PageAt(Latest(ids[..n], b, numBuckets)) && id !in ids[n..]
        decreases n
      {
        ghost var j := Latest(ids[..n], b, numBuckets);
        ChainedAt(j);
        LatestSkips(ids, n, id, numBuckets);
        block := block.next;
        n := j;
      }
      ghost var j := Latest(ids[..n], b, numBuckets);
      if block != null {
        ChainedAt(j);
        i := j;
      } else {
        LatestSkips(ids, n, id, numBuckets);
      }
    }

    /** The chains after page id has been put in front of its bucket. */
    lemma ChainedPrepended(s: seq<nat>, id: nat)
      requires Fixed() && |s| < |pool| && ids == s + [id] && id !in s && NoDuplicates(s)
      requires nextFree == |ids| && numFree == |pool| - nextFree
      requires forall i {:trigger Linked(s, i)} | 0 <= i < |s| :: Linked(s, i)
      requires pool[|s|].id == id && pool[|s|].next == PageAt(Latest(s, id % numBuckets, numBuckets))
      requires forall b {:trigger pageTable[b]} | 0 <= b < numBuckets ::
          pageTable[b] == if b == id % numBuckets then pool[|s|] else PageAt(Latest(s, b, numBuckets))
      ensures Chained()
    {
      hide Latest;
      forall i {:trigger Linked(ids, i)} | 0 <= i < nextFree ensures Linked(ids, i) {
        if i < |s| {
          assert Linked(s, i);
          assert ids[..i] == s[..i] && ids[i] == s[i];
        } else {
          assert ids[..i] == s;
        }
      }
      forall b {:trigger pageTable[b]} | 0 <= b < numBuckets
        ensures pageTable[b] == PageAt(Latest(ids, b, numBuckets))
      {
        LatestPrepended(s, id, b, numBuckets);
      }
    }

    lemma FilledPrepended(s: seq<nat>, id: nat)
      requires Fixed() && |s| < |pool| && ids == s + [id] && id !in s && pool[|s|].initSet == NoBitsSet()
      requires forall i {:trigger PageHolds(s, cells, i)} | 0 <= i < |s| :: PageHolds(s, cells, i)
      requires forall a {:trigger a in cells} :: a in cells ==> HEAP_START <= a && PageId(a) in s
      ensures Filled()
    {
      hide Holds;
      forall i {:trigger PageHolds(ids, cells, i)} | 0 <= i < |ids| ensures PageHolds(ids, cells, i) {
        if i < |s| {
          assert PageHolds(s, cells, i);
        } else {
          HoldsFresh(id, pool[i].bytes, cells);
        }
      }
    }

    /** Takes the next free page and puts it in front of the chain of its bucket. */
    method NewPage(id: nat) returns (block: Page)
      requires Valid() && id !in ids && numFree > 0
      modifies this`nextFree, this`numFree, this`ids, pageTable, frames
      ensures Valid() && ids == old(ids) + [id] && |old(ids)| < |pool| && block == pool[|old(ids)|]
    {
      hide Latest, Linked, Holds, PageId, NoBitsSet;
      ghost var s := ids;
      block := pool[nextFree];
      LinkPage(id, block);
      block.initSet := NoBitsSet();
      forall i {:trigger PageHolds(s, cells, i)} | 0 <= i < |s| ensures PageHolds(s, cells, i) {
        assert old(PageHolds(s, cells, i));
      }
      FilledPrepended(s, id);
    }

    method LinkPage(id: nat, block: Page)
      requires Chained() && id !in ids && numFree > 0 && nextFree < |pool| && block == pool[nextFree]
      modifies this`nextFree, this`numFree, this`ids, pageTable, block`id, block`next
      ensures Chained() && ids == old(ids) + [id]
    {
      hide Latest;
      ghost var s := ids;
      nextFree := nextFree + 1;
      numFree := numFree - 1;
      block.id := id;
      block.next := pageTable[id % numBuckets];
      pageTable[id % numBuckets] := block;
      ids := ids + [id];
      forall i {:trigger Linked(s, i)} | 0 <= i < |s| ensures Linked(s, i) {
        assert old(Linked(ids, i));
      }
      ChainedPrepended(s, id);
    }

    // ----- getting at a byte -----

    /** The part of an access of `size` bytes at offset o that lies on the page. */
    static function OnPage(o: nat, size: nat): nat
      requires o < PAGE_SIZE
    {
      Min(size, PAGE_SIZE - o)
    }

    /** Page i in use, and what it holds. */
    lemma FilledAt(i: nat)
      requires Valid() && i < |ids|
      ensures i < |pool| && pool[i] in frames && Holds(ids[i], pool[i].initSet, pool[i].bytes, cells)
    {
      assert PageHolds(ids, cells, i);
    }

    /** The loop of get_mem for a write: the bits of the bytes on this page are set. */
    method MarkWritten(block: Page, offset: nat, size: nat)
      requires offset < PAGE_SIZE
      modifies block`initSet
      ensures Marked(old(block.initSet), block.initSet, offset, OnPage(offset, size))
    {
      hide IsSet, HasBit, SetBit;
      var offsetIdx, offsetBit, i := offset / 8, offset % 8, 0;
      while i < size
        invariant 0 <= i <= size && 0 <= offsetIdx < 128 && 0 <= offsetBit < 8
            && 8 * offsetIdx + offsetBit == offset + i
        invariant Marked(old(block.initSet), block.initSet, offset, i)
      {
        MarkOne(old(block.initSet), block.initSet, offset, i);
        assert (offset + i) / 8 == offsetIdx && (offset + i) % 8 == offsetBit;
        block.initSet := block.initSet[offsetIdx := SetBit(block.initSet[offsetIdx], offsetBit)];
        i := i + 1;
        offsetBit := offsetBit + 1;
        if offsetBit == 8 {
          offsetBit := 0;
          offsetIdx := offsetIdx + 1;
        }
        if offsetIdx == 128 {
          break;
        }
      }
    }

    /** The loop of get_mem for a read: stops at a byte that was never written. */
    method CheckWritten(block: Page, offset: nat, size: nat) returns (ok: bool)
      requires offset < PAGE_SIZE
      ensures ok <==> !checkUB || forall k :: offset <= k < offset + OnPage(offset, size) ==> IsSet(block.initSet, k)
    {
      hide HasBit;
      var offsetIdx, offsetBit, i := offset / 8, offset % 8, 0;
      while i < size
        invariant 0 <= i <= size && 0 <= offsetIdx < 128 && 0 <= offsetBit < 8
            && 8 * offsetIdx + offsetBit == offset + i
        invariant checkUB ==> forall k :: offset <= k < offset + i ==> IsSet(block.initSet, k)
      {
        assert (offset + i) / 8 == offsetIdx && (offset + i) % 8 == offsetBit;
        if checkUB && !HasBit(block.initSet[offsetIdx], offsetBit) {
          assert !IsSet(block.initSet, offset + i);
          return false;
        }
        i := i + 1;
        offsetBit := offsetBit + 1;
        if offsetBit == 8 {
          offsetBit := 0;
          offsetIdx := offsetIdx + 1;
        }
        if offsetIdx == 128 {
          break;
        }
      }
      return true;
    }

    /** block is the page of addr. */
    ghost predicate IsPageOf(block: Page?, i: nat, addr: nat)
      reads this`ids
    {
      i < |ids| && i < |pool| && block == pool[i] && HEAP_START <= addr && ids[i] == PageId(addr)
    }

    /** The page of addr, allocated if need be. */
    method Locate(addr: nat) returns (out: Outcome, block: Page?, ghost i: nat)
      requires Valid() && HEAP_START <= addr
      modifies this`nextFree, this`numFree, this`ids, pageTable, frames
      ensures Valid()
      ensures out == if PageId(addr) !in old(ids) && old(numFree) == 0 then OutOfPages else Fine
      ensures out.Fine? ==> ids == WithId(old(ids), PageId(addr)) && block != null && IsPageOf(block, i, addr)
      ensures out.OutOfPages? ==> ids == old(ids)
    {
      hide Valid, PageId;
      ValidChained();
      var id := PageId(addr);
      block, i := FindPage(id);
      if block == null {
        if numFree == 0 {
          return OutOfPages, null, 0;
        }
        i := |ids|;
        block := NewPage(id);
      }
      return Fine, block, i;
    }

    lemma ValidChained()
      requires Valid()
      ensures Chained()
    {
    }

    ghost predicate OthersHold(s: seq<nat>, c: map<nat, Byte>, i: nat)
      requires Fixed() && |s| <= |pool|
      reads frames`initSet, frames`bytes
    {
      forall j {:trigger PageHolds(s, c, j)} | 0 <= j < |s| && j != i :: PageHolds(s, c, j)
    }

    lemma OthersHoldAll(i: nat)
      requires Valid()
      ensures OthersHold(ids, cells, i)
    {
    }

    /** Storing bytes on page i, which agrees with them already, keeps everything in order. */
    lemma StoredOnPage(i: nat, addr: nat, bs: seq<Byte>, before: map<nat, Byte>)
      requires Chained() && PlacedIn(before) && IsPageOf(PageAt(i), i, addr) && cells == Stored(before, addr, bs)
      requires addr + |bs| <= PageStart(PageId(addr) + 1) && addr + |bs| <= brk
      requires PageHolds(ids, cells, i) && OthersHold(ids, before, i)
      ensures Valid()
    {
      hide Holds, Latest, Stored, Linked;
      StoredPlaced(i, addr, bs, before);
      forall j {:trigger PageHolds(ids, cells, j)} | 0 <= j < |ids| ensures PageHolds(ids, cells, j) {
        if j != i {
          assert PageHolds(ids, before, j) && ids[i] != ids[j];
          HoldsElsewhere(ids[j], pool[j].initSet, pool[j].bytes, before, ids[i], addr - PageStart(ids[i]), bs);
        }
      }
    }

    lemma StoredPlaced(i: nat, addr: nat, bs: seq<Byte>, before: map<nat, Byte>)
      requires PlacedIn(before) && IsPageOf(PageAt(i), i, addr) && cells == Stored(before, addr, bs)
      requires addr + |bs| <= PageStart(PageId(addr) + 1) && addr + |bs| <= brk
      ensures PlacedIn(cells)
    {
      hide Stored;
      forall a {:trigger a in cells} | a in cells ensures HEAP_START <= a < brk && PageId(a) in ids {
        StoredAt(before, addr, bs, a);
        if addr <= a < addr + |bs| { SamePage(PageId(addr), a - PageStart(PageId(addr))); }
      }
    }

    /** Marks a stretch of a page as written, whatever it holds. */
    method Claim(block: Page, addr: nat, size: nat, ghost i: nat)
      requires Valid() && IsPageOf(block, i, addr) && addr + size <= brk
      modifies block`initSet, this`cells
      ensures Valid()
      ensures var o := Offset(addr); cells == Stored(old(cells), addr, block.bytes[o..o + OnPage(o, size)])
    {
      hide PageId, Holds, Stored, Marked, Latest, Linked, PlacedIn, Offset;
      ghost var before := cells;
      var offset := Offset(addr);
      ghost var n := OnPage(offset, size);
      ghost var bs := block.bytes[offset..offset + n];
      FilledAt(i);
      OthersHoldAll(i);
      MarkWritten(block, offset, size);
      assert OthersHold(ids, before, i) by {
        forall j {:trigger PageHolds(ids, before, j)} | 0 <= j < |ids| && j != i ensures PageHolds(ids, before, j) {
          assert old(PageHolds(ids, cells, j));
        }
      }
      cells := Stored(cells, addr, bs);
      HoldsMarked(ids[i], old(block.initSet), block.initSet, block.bytes, before, offset, n);
      StoredOnPage(i, addr, bs, before);
    }

    /** The page of addr and the offset on it, for an access of `size` bytes. A write marks its bytes;
        a read of bytes never written ends the run. */
    method GetMem(addr: nat, size: nat, isWrite: bool) returns (out: Outcome, block: Page?, offset: nat, ghost i: nat)
      requires Valid() && HEAP_START <= addr && addr + size <= brk
      modifies this`nextFree, this`numFree, this`ids, this`cells, pageTable, frames
      ensures Valid() && offset == Offset(addr)
      ensures out.OutOfPages? <==> PageId(addr) !in old(ids) && old(numFree) == 0
      ensures !out.OutOfPages? ==> ids == WithId(old(ids), PageId(addr)) && block != null && IsPageOf(block, i, addr)
      ensures isWrite ==> out.Fine? || out.OutOfPages?
      ensures isWrite && out.Fine? ==>
          cells
          == Stored(old(cells), addr, block.bytes[offset..offset + OnPage(offset, size)])
      ensures !isWrite ==> cells == old(cells) && !out.Fault?
      ensures !isWrite && !out.OutOfPages? ==> (out.Fine? <==> !checkUB || Has(cells, addr, OnPage(offset, size)))
    {
      hide Valid, PageId, Holds, Stored, IsSet, Offset;
      out, block, i := Locate(addr);
      offset := Offset(addr);
      if out.OutOfPages? {
        return;
      }
      FilledAt(i);
      if isWrite {
        Claim(block, addr, size, i);
      } else {
        var ok := CheckWritten(block, offset, size);
        BitsAreCells(i, addr, OnPage(offset, size));
        if !ok {
          out := Uninitialised;
        }
      }
    }

    /** The bits of a stretch are set exactly when its bytes have been written. */
    lemma BitsAreCells(i: nat, addr: nat, n: nat)
      requires Valid() && IsPageOf(PageAt(i), i, addr) && Offset(addr) + n <= PAGE_SIZE
      ensures (forall k :: Offset(addr) <= k < Offset(addr) + n ==> IsSet(pool[i].initSet, k)) <==> Has(cells, addr, n)
    {
      FilledAt(i);
      hide Valid, PageId, IsSet, Offset;
      var o := Offset(addr);
      forall k | o <= k < o + n ensures IsSet(pool[i].initSet, k) <==> PageStart(ids[i]) + k in cells {
        assert HoldsAt(ids[i], pool[i].initSet, pool[i].bytes, cells, k);
      }
      if Has(cells, addr, n) {
        assert forall k :: o <= k < o + n ==> IsSet(pool[i].initSet, k);
      } else {
        var x :| addr <= x < addr + n && x !in cells;
        assert !IsSet(pool[i].initSet, x - addr + o);
      }
    }

    /** memcpy of bs to bytes of a page that are marked as written. */
    method CopyIn(block: Page, addr: nat, bs: seq<Byte>, ghost i: nat)
      requires Valid() && IsPageOf(block, i, addr) && Offset(addr) + |bs| <= PAGE_SIZE && addr + |bs| <= brk
      requires Has(cells, addr, |bs|)
      modifies block`bytes, this`cells
      ensures Valid() && cells == Stored(old(cells), addr, bs)
    {
      hide PageId, Holds, Stored, Latest, Linked, PlacedIn, Offset, Overwrite;
      ghost var before := cells;
      var offset := Offset(addr);
      FilledAt(i);
      OthersHoldAll(i);
      block.bytes := Overwrite(block.bytes, offset, bs);
      assert OthersHold(ids, before, i) by {
        forall j {:trigger PageHolds(ids, before, j)} | 0 <= j < |ids| && j != i ensures PageHolds(ids, before, j) {
          assert old(PageHolds(ids, cells, j));
        }
      }
      cells := Stored(cells, addr, bs);
      HoldsOverwritten(ids[i], block.initSet, old(block.bytes), before, offset, bs);
      StoredOnPage(i, addr, bs, before);
    }

    /** An 8-byte load at an offset of a page: past the end of the page it picks up whatever follows. */
    method LoadWord(block: Page, offset: nat) returns (v: bv64)
      requires offset < PAGE_SIZE
      ensures forall k {:trigger ByteOf(v, k)} | 0 <= k < 8 && offset + k < PAGE_SIZE ::
          ByteOf(v, k) == block.bytes[offset + k]
    {
      hide ByteOf, Or, FromBytes, Up;
      var n := Min(8, PAGE_SIZE - offset);
      var here := block.bytes[offset..offset + n];
      v := FromBytes(here);
      if n < 8 {
        var beyond: bv64 := *;
        v := Or(v, Shl(beyond, n));
        forall k {:trigger ByteOf(v, k)} | 0 <= k < n ensures ByteOf(v, k) == here[k] {
          FromBytesAt(here, k);
          ShlAt(beyond, n, k);
          OrAt(FromBytes(here), Shl(beyond, n), k);
        }
      } else {
        forall k {:trigger ByteOf(v, k)} | 0 <= k < n ensures ByteOf(v, k) == here[k] {
          FromBytesAt(here, k);
        }
      }
    }

    // ----- reading -----

    /** The 8-byte load from the page of addr has the bytes of the heap up to the end of the page. */
    lemma LoadedBytes(i: nat, addr: nat, v: bv64)
      requires Valid() && IsPageOf(PageAt(i), i, addr)
      requires forall k {:trigger ByteOf(v, k)} | 0 <= k < 8 && Offset(addr) + k < PAGE_SIZE ::
          ByteOf(v, k) == pool[i].bytes[Offset(addr) + k]
      ensures forall k {:trigger ByteOf(v, k)} | 0 <= k < 8 && Offset(addr) + k < PAGE_SIZE && addr + k in cells ::
          ByteOf(v, k) == cells[addr + k]
    {
      FilledAt(i);
      hide Valid, PageId, IsSet, Offset, ByteOf;
      forall k {:trigger ByteOf(v, k)} | 0 <= k < 8 && Offset(addr) + k < PAGE_SIZE && addr + k in cells
        ensures ByteOf(v, k) == cells[addr + k]
      {
        assert HoldsAt(ids[i], pool[i].initSet, pool[i].bytes, cells, Offset(addr) + k);
      }
    }

    /** get_mem for a read, and the load. */
    method Fetch(addr: nat, size: nat) returns (out: Outcome, v: bv64)
      requires Valid() && HEAP_START <= addr && addr + size <= brk
      modifies this`nextFree, this`numFree, this`ids, this`cells, pageTable, frames
      ensures Valid() && cells == old(cells) && !out.Fault?
      ensures out.OutOfPages? <==> PageId(addr) !in old(ids) && old(numFree) == 0
      ensures !out.OutOfPages? ==> ids == WithId(old(ids), PageId(addr))
      ensures !out.OutOfPages? ==> (out.Fine? <==> !checkUB || Has(cells, addr, OnPage(Offset(addr), size)))
      ensures out.Fine? ==> LoadsHere(v, cells, addr)
    {
      hide Valid, PageId, Offset, ByteOf, Has, WithId;
      v := 0;
      var block, offset;
      ghost var i;
      out, block, offset, i := GetMem(addr, size, false);
      if out.Fine? {
        v := LoadWord(block, offset);
        LoadedBytes(i, addr, v);
      }
    }

    /** v has the bytes of memory m from addr to the end of the page, wherever m has a value. */
    static ghost predicate LoadsHere(v: bv64, m: map<nat, Byte>, addr: nat)
      requires HEAP_START <= addr
    {
      forall k {:trigger ByteOf(v, k)} | 0 <= k < 8 && Offset(addr) + k < PAGE_SIZE && addr + k in m ::
          ByteOf(v, k) == m[addr + k]
    }

    static function Trimmed(v: bv64, len: nat): bv64 {
      if len < 8 then Masked(v, len) else v
    }

    static lemma ReadsOnePage(v: bv64, m: map<nat, Byte>, addr: nat, len: nat)
      requires HEAP_START <= addr && 1 <= len <= 8 && Offset(addr) + len <= PAGE_SIZE && LoadsHere(v, m, addr)
      ensures Reads(Trimmed(v, len), m, addr, len)
    {
      hide ByteOf, Masked, Offset;
      forall k {:trigger ByteOf(Trimmed(v, len), k)} | 0 <= k < 8
        ensures (k >= len ==> ByteOf(Trimmed(v, len), k) == 0)
            && (k < len && addr + k in m ==> ByteOf(Trimmed(v, len), k) == m[addr + k])
      {
        if len < 8 { MaskAt(v, len, k); }
      }
    }

    static lemma ReadsTwoPages(lo: bv64, hi: bv64, m: map<nat, Byte>, addr: nat, len: nat, n: nat)
      requires HEAP_START <= addr && 1 <= n < len <= 8 && Offset(addr) + n == PAGE_SIZE && Offset(addr + n) == 0
      requires LoadsHere(lo, m, addr) && LoadsHere(hi, m, addr + n)
      ensures Reads(Trimmed(Or(Masked(lo, n), Shl(hi, n)), len), m, addr, len)
    {
      hide ByteOf, Masked, Or, Shl, Offset;
      var v := Or(Masked(lo, n), Shl(hi, n));
      forall k {:trigger ByteOf(Trimmed(v, len), k)} | 0 <= k < 8
        ensures (k >= len ==> ByteOf(Trimmed(v, len), k) == 0)
            && (k < len && addr + k in m ==> ByteOf(Trimmed(v, len), k) == m[addr + k])
      {
        JoinAt(lo, hi, n, k);
        if len < 8 { MaskAt(v, len, k); }
        assert n <= k < len && addr + k in m ==> addr + n + (k - n) in m;
      }
    }

    lemma HasOnPages(addr: nat, n: nat)
      requires Valid() && Has(cells, addr, n) && n > 0 && HEAP_START <= addr
      ensures PageId(addr) in ids
    {
      assert addr in cells;
    }

    /** mem_read inside the heap, before the result is cut to len bytes. */
    method ReadHeap(addr: nat, len: nat) returns (out: Outcome, rdata: bv64)
      requires Valid() && InHeap(addr, len) && 1 <= len <= 8
      modifies this`nextFree, this`numFree, this`ids, this`cells, pageTable, frames
      ensures Valid() && cells == old(cells) && !out.Fault?
      ensures out.Fine? <==> if checkUB then Has(cells, addr, len)
          else MissingPages(old(ids), addr, len) <= old(numFree)
      ensures out.OutOfPages? ==> old(numFree) < MissingPages(old(ids), addr, len)
      ensures out.Uninitialised? ==> checkUB && !Has(cells, addr, len)
      ensures out.Fine? ==>
          Reads(Trimmed(rdata, len), cells, addr, len)
          && Members(ids) == Members(old(ids)) + PagesOf(addr, len)
    {
      hide *;
      AccessBounds(addr, len);
      PageCount();
      if Has(cells, addr, len) { HasOnPages(addr, len); }
      var id := PageId(addr);
      out, rdata := Fetch(addr, len);
      if id == PageId(addr + len - 1) {
        OnePage(old(ids), addr, len);
        WithIdMembers(old(ids), id);
        if out.Fine? { ReadsOnePage(rdata, cells, addr, len); }
      } else {
        TwoPages(old(ids), addr, len);
        WithIdMembers(old(ids), id);
        WithIdMembers(WithId(old(ids), id), id + 1);
        HasParts(cells, addr, PAGE_SIZE - Offset(addr), len);
        if out.Fine? {
          PageCount();
          if Has(cells, addr, len) { HasOnPages(addr + PAGE_SIZE - Offset(addr), len - (PAGE_SIZE - Offset(addr))); }
          out, rdata := ReadAcross(addr, len, rdata);
        }
      }
    }

    lemma AccessBounds(addr: nat, len: nat)
      requires Valid() && InHeap(addr, len) && 1 <= len
      ensures HEAP_START <= addr && addr + len <= brk
      ensures OnPage(Offset(addr), len) == if PageId(addr) == PageId(addr + len - 1) then len
          else PAGE_SIZE - Offset(addr)
      ensures PageId(addr) == PageId(addr + len - 1) <==> len <= PAGE_SIZE - Offset(addr)
    {
    }

    /** The second half of a read that straddles two pages. */
    method ReadAcross(addr: nat, len: nat, lo: bv64) returns (out: Outcome, rdata: bv64)
      requires Valid() && InHeap(addr, len) && 1 <= len <= 8 && PageId(addr) != PageId(addr + len - 1)
          && LoadsHere(lo, cells, addr)
      modifies this`nextFree, this`numFree, this`ids, this`cells, pageTable, frames
      ensures Valid() && cells == old(cells) && !out.Fault?
      ensures out.OutOfPages? <==> PageId(addr) + 1 !in old(ids) && old(numFree) == 0
      ensures !out.OutOfPages? ==> ids == WithId(old(ids), PageId(addr) + 1)
      ensures !out.OutOfPages? ==> var n := PAGE_SIZE - Offset(addr);
          n < len && (out.Fine? <==> !checkUB || Has(cells, addr + n, len - n))
      ensures out.Fine? ==> Reads(Trimmed(rdata, len), cells, addr, len)
    {
      hide Valid, PageId, Offset, ByteOf, Has, Or, Masked, Shl, WithId, Reads, LoadsHere, Trimmed;
      TwoPages(ids, addr, len);
      var llen := PAGE_SIZE - Offset(addr);
      var hdata;
      rdata := Masked(lo, llen);
      out, hdata := Fetch(addr + llen, len - llen);
      if out.Fine? {
        ReadsTwoPages(lo, hdata, cells, addr, len, llen);
        rdata := Or(rdata, Shl(hdata, llen));
      }
    }

    lemma PageCount()
      requires Valid()
      ensures numFree == |pool| - |ids|
    {
    }

    lemma HostApart(addr: nat, n: nat)
      requires Valid()
      ensures InHeap(addr, n) ==> (Has(cells, addr, n) <==> Has(Flat(), addr, n))
      ensures forall a {:trigger a in host} {:trigger a in cells} :: !(a in host && a in cells)
    {
    }

    /** Is all of the range mapped outside the heap? */
    method Mapped(addr: nat, len: nat) returns (ok: bool)
      ensures ok <==> Has(host, addr, len)
    {
      for k := 0 to len
        invariant Has(host, addr, k)
      {
        if addr + k !in host {
          return false;
        }
      }
      return true;
    }

    /** mem_read: the bytes of the flat memory, zero-extended. */
    method Read(addr: nat, len: nat) returns (out: Outcome, rdata: bv64)
      requires Valid() && 1 <= len <= 8
      modifies this`nextFree, this`numFree, this`ids, this`cells, pageTable, frames
      ensures Valid() && cells == old(cells)
      ensures InHeap(addr, len) ==>
          (out.Fine? <==> if checkUB then Has(cells, addr, len) else MissingPages(old(ids), addr, len) <= old(numFree))
      ensures InHeap(addr, len) ==>
          && !out.Fault?
          && (out.OutOfPages? ==> old(numFree) < MissingPages(old(ids), addr, len))
          && (out.Uninitialised? ==> checkUB && !Has(cells, addr, len))
      ensures !InHeap(addr, len) ==> (if Has(host, addr, len) then out.Fine? else out.Fault?) && ids == old(ids)
      ensures out.Fine? ==> Reads(rdata, Flat(), addr, len)
      ensures out.Fine? && InHeap(addr, len) ==> Members(ids) == Members(old(ids)) + PagesOf(addr, len)
    {
      hide Valid, PageId, Offset, ByteOf, Has, Or, Masked, Shl, MissingPages, Members, PagesOf, Reads, FromBytes,
           Loaded;
      if HEAP_START <= addr && addr + len <= brk {
        out, rdata := ReadHeap(addr, len);
        if out.Fine? { ReadsInFlat(Trimmed(rdata, len), addr, len); }
      } else {
        var ok := Mapped(addr, len);
        if !ok {
          return Fault, 0;
        }
        rdata := LoadHost(addr, len);
        out := Fine;
      }
      if len < 8 {
        rdata := Masked(rdata, len);
      }
    }

    lemma ReadsInFlat(v: bv64, addr: nat, len: nat)
      requires Valid() && InHeap(addr, len) && Reads(v, cells, addr, len)
      ensures Reads(v, Flat(), addr, len)
    {
      hide ByteOf, PageId;
    }

    /** memcpy of len bytes from outside the heap into a word whose other bytes are arbitrary. */
    method LoadHost(addr: nat, len: nat) returns (rdata: bv64)
      requires Valid() && 1 <= len <= 8 && Has(host, addr, len)
      ensures Reads(Trimmed(rdata, len), Flat(), addr, len)
    {
      HostApart(addr, len);
      hide Valid, ByteOf, Or, Masked, Shl, FromBytes, PageId;
      var bs := Loaded(host, addr, len);
      var junk: bv64 := *;
      rdata := if len < 8 then Or(FromBytes(bs), Shl(junk, len)) else FromBytes(bs);
      forall k {:trigger ByteOf(Trimmed(rdata, len), k)} | 0 <= k < 8
        ensures (k >= len ==> ByteOf(Trimmed(rdata, len), k) == 0)
            && (k < len ==> ByteOf(Trimmed(rdata, len), k) == host[addr + k])
      {
        FromBytesAt(bs, k);
        if len < 8 {
          ShlAt(junk, len, k);
          OrAt(FromBytes(bs), Shl(junk, len), k);
          MaskAt(rdata, len, k);
        }
      }
    }

    // ----- writing -----

    /** get_mem for a write of `size` bytes, and the memcpy of those that go to this page. */
    method PutOnPage(addr: nat, size: nat, bs: seq<Byte>) returns (out: Outcome)
      requires Valid() && HEAP_START <= addr && addr + size <= brk && |bs| == OnPage(Offset(addr), size)
      modifies this`nextFree, this`numFree, this`ids, this`cells, pageTable, frames
      ensures Valid() && (out.Fine? || out.OutOfPages?)
      ensures out.OutOfPages? <==> PageId(addr) !in old(ids) && old(numFree) == 0
      ensures out.Fine? ==> ids == WithId(old(ids), PageId(addr)) && cells == Stored(old(cells), addr, bs)
    {
      hide Valid, PageId, Offset, Has, WithId, Stored;
      var block, offset;
      ghost var i;
      out, block, offset, i := GetMem(addr, size, true);
      if out.Fine? {
        ghost var there := block.bytes[offset..offset + |bs|];
        StoredHas(old(cells), addr, there);
        FilledAt(i);
        CopyIn(block, addr, bs, i);
        StoredOver(old(cells), addr, there, bs);
      }
    }

    /** mem_write inside the heap. */
    method WriteHeap(addr: nat, val: bv64, len: nat) returns (out: Outcome)
      requires Valid() && InHeap(addr, len) && 1 <= len <= 8
      modifies this`nextFree, this`numFree, this`ids, this`cells, pageTable, frames
      ensures Valid() && (out.Fine? || out.OutOfPages?)
      ensures out.Fine? <==> MissingPages(old(ids), addr, len) <= old(numFree)
      ensures out.Fine? ==>
          cells == Stored(old(cells), addr, BytesOf(val, len))
          && Members(ids) == Members(old(ids)) + PagesOf(addr, len)
    {
      hide *;
      AccessBounds(addr, len);
      PageCount();
      ghost var id := PageId(addr);
      var llen := PAGE_SIZE - Offset(addr);
      if llen < len {
        TwoPages(ids, addr, len);
        WithIdMembers(ids, id);
        WithIdMembers(WithId(ids, id), id + 1);
        out := PutOnPage(addr, len, BytesOf(val, len)[..llen]);
        if out.Fine? {
          PageCount();
          OffsetZero(addr + llen, len - llen);
          out := PutOnPage(addr + llen, len - llen, BytesOf(val, len)[llen..]);
          StoredTwice(old(cells), addr, BytesOf(val, len)[..llen], BytesOf(val, len)[llen..]);
          assert BytesOf(val, len)[..llen] + BytesOf(val, len)[llen..] == BytesOf(val, len);
        }
      } else {
        OnePage(ids, addr, len);
        WithIdMembers(ids, id);
        out := PutOnPage(addr, len, BytesOf(val, len));
      }
    }

    lemma OffsetZero(addr: nat, n: nat)
      requires HEAP_START <= addr && Offset(addr) == 0 && n <= 8
      ensures OnPage(Offset(addr), n) == n
    {
    }

    /** mem_write: the lower len bytes of val, in memory order. */
    method Write(addr: nat, val: bv64, len: nat) returns (out: Outcome)
      requires Valid() && 1 <= len <= 8
      modifies this`nextFree, this`numFree, this`ids, this`cells, this`host, pageTable, frames
      ensures Valid()
      ensures InHeap(addr, len) ==>
                if MissingPages(old(ids), addr, len) <= old(numFree) then out.Fine? else out.OutOfPages?
      ensures InHeap(addr, len) && out.Fine? ==>
          host == old(host) && cells == Stored(old(cells), addr, BytesOf(val, len))
      ensures InHeap(addr, len) && out.Fine? ==> Members(ids) == Members(old(ids)) + PagesOf(addr, len)
      ensures !InHeap(addr, len) ==>
          && (if Has(old(host), addr, len) then out.Fine? else out.Fault?)
          && cells == old(cells) && ids == old(ids)
      ensures out.Fine? ==> Flat() == Stored(old(Flat()), addr, BytesOf(val, len)) && host.Keys == old(host).Keys
    {
      hide Valid, PageId, Offset, MissingPages, Members, PagesOf, Stored, BytesOf;
      if HEAP_START <= addr && addr + len <= brk {
        out := WriteHeap(addr, val, len);
        StoredRight(host, old(cells), addr, BytesOf(val, len));
      } else {
        var ok := Mapped(addr, len);
        if !ok {
          return Fault;
        }
        HostApart(addr, len);
        StoredLeft(host, cells, addr, BytesOf(val, len));
        SetHost(addr, BytesOf(val, len));
        out := Fine;
      }
    }

    method SetHost(addr: nat, bs: seq<Byte>)
      requires Valid() && Has(host, addr, |bs|)
      modifies this`host
      ensures Valid() && host == Stored(old(host), addr, bs) && host.Keys == old(host).Keys
    {
      hide Stored, Chained, Filled, PageId;
      host := Stored(host, addr, bs);
      forall a ensures a in host <==> a in old(host) {
        StoredAt(old(host), addr, bs, a);
      }
    }

    // ----- words and blocks -----

    method Read128(addr: nat) returns (out: Outcome, r: bv128)
      requires Valid()
      modifies this`nextFree, this`numFree, this`ids, this`cells, pageTable, frames
      ensures Valid() && cells == old(cells)
      ensures out.Fine? ==> Reads(Low(r), Flat(), addr, 8) && Reads(High(r), Flat(), addr + 8, 8)
      ensures InHeap(addr, 16) && checkUB ==> (out.Fine? <==> Has(cells, addr, 16))
    {
      hide Valid, PageId, Has, MissingPages, Members, PagesOf, Reads, Low, High, Both;
      HasParts(cells, addr, 8, 16);
      var hi, lo;
      r := 0;
      out, hi := Read(addr + 8, 8);
      if out.Fine? {
        out, lo := Read(addr, 8);
        r := Both(lo, hi);
        BothParts(lo, hi);
      }
    }

    method Write128(addr: nat, val: bv128) returns (out: Outcome)
      requires Valid()
      modifies this`nextFree, this`numFree, this`ids, this`cells, this`host, pageTable, frames
      ensures Valid()
      ensures out.Fine? ==> Flat() == Stored(old(Flat()), addr, BytesOf(Low(val), 8) + BytesOf(High(val), 8))
      ensures out.Fine? && InHeap(addr, 16) ==>
          cells == Stored(old(cells), addr, BytesOf(Low(val), 8) + BytesOf(High(val), 8))
    {
      hide Valid, PageId, Has, MissingPages, Members, PagesOf, Low, High, Stored, BytesOf, Flat;
      out := Write(addr, Low(val), 8);
      if out.Fine? {
        out := Write(addr + 8, High(val), 8);
        StoredTwice(old(Flat()), addr, BytesOf(Low(val), 8), BytesOf(High(val), 8));
        StoredTwice(old(cells), addr, BytesOf(Low(val), 8), BytesOf(High(val), 8));
      }
    }

    /** Together with the pages in use, the pages of P do not exceed the pool. */
    ghost predicate RoomFor(P: set<nat>)
      reads this`ids
    {
      |P + Members(ids)| <= |pool|
    }

    lemma RoomIsEnough(addr: nat, len: nat)
      requires Valid() && HEAP_START <= addr && 0 < len
      ensures MissingPages(ids, addr, len) <= numFree <==> RoomFor(PagesOf(addr, len))
    {
      MembersSize(ids);
      hide PagesOf, PageId, Members;
      var P, I := PagesOf(addr, len), Members(ids);
      assert P + I == (P - I) + I;
    }

    lemma RoomShrinks(P: set<nat>, Q: set<nat>)
      requires P <= Q && RoomFor(Q)
      ensures RoomFor(P)
    {
      hide Members;
      SubsetSize(P + Members(ids), Q + Members(ids));
    }

    static lemma {:induction false} SubsetSize(a: set<nat>, b: set<nat>)
      requires a <= b
      ensures |a| <= |b|
    {
      if a != {} {
        var x :| x in a;
        SubsetSize(a - {x}, b - {x});
      }
    }

    /** Written bytes are on pages in use. */
    lemma WrittenPages(addr: nat, len: nat)
      requires Valid() && HEAP_START <= addr && 1 <= len <= 8 && Has(cells, addr, len)
      ensures PagesOf(addr, len) <= Members(ids)
    {
      hide Valid, PageId, Offset, PagesOf;
      HasOnPages(addr, len);
      HasOnPages(addr + len - 1, 1);
      PagesAreEnds(addr, len);
    }

    static lemma PagesWithin(addr: nat, len: nat, i: nat, k: nat)
      requires HEAP_START <= addr && 0 < k && i + k <= len
      ensures PagesOf(addr + i, k) <= PagesOf(addr, len)
    {
    }

    /** What a copy or fill of n bytes from dst on needs to succeed in the heap. */
    ghost predicate CanWrite(dst: nat, n: nat)
      reads this`ids, this`brk
    {
      CanWriteWith(ids, dst, n)
    }

    ghost predicate CanWriteWith(s: seq<nat>, dst: nat, n: nat)
      reads this`brk
    {
      InHeap(dst, n) && (n > 0 ==> |PagesOf(dst, n) + Members(s)| <= |pool|)
    }

    /** memcpy, in words of eight bytes and a rest. */
    method MemCpy(dst: nat, src: nat, num: nat) returns (out: Outcome)
      requires Valid()
      modifies this`nextFree, this`numFree, this`ids, this`cells, this`host, pageTable, frames
      ensures Valid()
      ensures out.Fine? && Has(old(Flat()), src, num) ==> Flat() == CopyWords(old(Flat()), dst, src, num)
      ensures old(CanWrite(dst, num)) && InHeap(src, num) && Has(old(cells), src, num) ==> out.Fine?
    {
      hide Valid, PageId, Has, MissingPages, Members, PagesOf, Reads, Stored, BytesOf, Flat, Loaded, CopyWords, RoomFor,
           CanWrite;
      ghost var m := Flat();
      var d, s, left := dst, src, num;
      while left >= 8
        invariant Valid() && left >= 0 && s >= 0 && d >= 0 && s + left == src + num && d + left == dst + num
        invariant Has(m, src, num) ==>
            Has(Flat(), s, left)
            && CopyWords(Flat(), d, s, left) == CopyWords(m, dst, src, num)
        invariant old(CanWrite(dst, num)) && InHeap(src, num) && Has(old(cells), src, num) ==>
          CanWrite(d, left) && InHeap(s, left) && Has(cells, s, left)
      {
        out := CopyPiece(d, s, 8, left);
        if !out.Fine? { return; }
        left, s, d := left - 8, s + 8, d + 8;
      }
      out := Fine;
      if left > 0 {
        out := CopyPiece(d, s, left, left);
      }
      CopyNothing();
    }

    lemma CopyNothing()
      ensures forall m: map<nat, Byte>, d: nat, s: nat {:trigger CopyWords(m, d, s, 0)} :: Has(m, s, 0) ==>
          CopyWords(m, d, s, 0) == m
    {
    }

    /** Reads one piece of a copy of `left` bytes and writes it. */
    method CopyPiece(d: nat, s: nat, k: nat, ghost left: nat) returns (out: Outcome)
      requires Valid() && left > 0 && k == Chunk(left)
      modifies this`nextFree, this`numFree, this`ids, this`cells, this`host, pageTable, frames
      ensures Valid()
      ensures out.Fine? && old(Has(Flat(), s, left)) ==>
        Has(Flat(), s + k, left - k) && CopyWords(Flat(), d + k, s + k, left - k) == CopyWords(old(Flat()), d, s, left)
      ensures old(CanWrite(d, left)) && InHeap(s, left) && Has(old(cells), s, left) ==>
        out.Fine? && CanWrite(d + k, left - k) && InHeap(s + k, left - k) && Has(cells, s + k, left - k)
    {
      hide Valid, PageId, Has, MissingPages, Members, PagesOf, Reads, Stored, BytesOf, Flat, Loaded, CopyWords, RoomFor,
           CanWriteWith;
      ghost var m := Flat();
      ghost var can := CanWrite(d, left) && InHeap(s, left) && Has(cells, s, left);
      if can { CopyCanRead(d, s, k, left); }
      var data;
      out, data := Read(s, k);
      if out.Fine? {
        assert Flat() == m by { FlatSame(old(host), old(cells)); }
        ghost var I := ids;
        if can { CanStill(d, k, left, old(ids), PagesOf(s, k)); CanWriteFirst(d, k, left); }
        out := Write(d, data, k);
        if Has(m, s, left) { CopyStep(m, d, s, left, data); }
        if can {
          CanStill(d, k, left, I, PagesOf(d, k));
          HasParts(old(cells), s, k, left);
          HasGrows(old(cells), d, BytesOf(data, k), s + k, left - k);
        }
      }
    }

    lemma CopyCanRead(d: nat, s: nat, k: nat, left: nat)
      requires Valid() && left > 0 && k == Chunk(left) && CanWrite(d, left) && InHeap(s, left) && Has(cells, s, left)
      ensures InHeap(s, k) && Has(cells, s, k) && PagesOf(s, k) <= Members(ids) && PagesOf(d, k) <= PagesOf(d, left)
      ensures MissingPages(ids, s, k) <= numFree
    {
      hide Valid, PageId, PagesOf, Between, Members;
      HasParts(cells, s, k, left);
      WrittenPages(s, k);
      PagesWithin(d, left, 0, k);
      assert PagesOf(s, k) - Members(ids) == {};
    }

    /** Pages that were counted already do not take room again. */
    lemma CanStill(d: nat, k: nat, left: nat, before: seq<nat>, P: set<nat>)
      requires 0 < k <= left && Members(ids) == Members(before) + P && CanWriteWith(before, d, left)
      requires P <= PagesOf(d, left) || P <= Members(before)
      ensures CanWrite(d, left) && CanWrite(d + k, left - k)
    {
      hide PagesOf, Members;
      assert PagesOf(d, left) + Members(ids) == PagesOf(d, left) + Members(before);
      if k < left {
        PagesWithin(d, left, k, left - k);
        RoomShrinks(PagesOf(d + k, left - k), PagesOf(d, left));
      }
    }

    lemma CanWriteFirst(d: nat, k: nat, left: nat)
      requires Valid() && 0 < k <= left && CanWrite(d, left)
      ensures InHeap(d, k) && MissingPages(ids, d, k) <= numFree
    {
      hide Valid, PageId, PagesOf, Members, MissingPages;
      PagesWithin(d, left, 0, k);
      RoomShrinks(PagesOf(d, k), PagesOf(d, left));
      RoomIsEnough(d, k);
    }

    lemma FlatSame(h: map<nat, Byte>, c: map<nat, Byte>)
      requires host == h && cells == c
      ensures Flat() == h + c
    {
    }

    /** memset, in words of eight bytes and a rest. */
    method MemSet(dst: nat, c: bv32, num: nat) returns (out: Outcome)
      requires Valid()
      modifies this`nextFree, this`numFree, this`ids, this`cells, this`host, pageTable, frames
      ensures Valid()
      ensures out.Fine? ==> Flat() == Stored(old(Flat()), dst, Repeated(ByteArgument(c), num))
      ensures old(CanWrite(dst, num)) ==> out.Fine?
    {
      hide Valid, PageId, Has, MissingPages, Members, PagesOf, Stored, BytesOf, Flat, CanWriteWith, Repeated, ByteOf,
           ByteArgument;
      ghost var m, i := Flat(), 0;
      var data := FillWord(c);
      var d, left := dst, num;
      FillNothing(m, dst, ByteArgument(c));
      while left >= 8
        invariant Valid() && left >= 0 && i >= 0 && d == dst + i && i + left == num
        invariant Flat() == Stored(m, dst, Repeated(ByteArgument(c), i))
        invariant old(CanWrite(dst, num)) ==> CanWrite(d, left)
      {
        FillStep(m, dst, ByteArgument(c), i, data, 8);
        out := FillPiece(d, data, 8, left);
        if !out.Fine? { return; }
        left, d, i := left - 8, d + 8, i + 8;
      }
      out := Fine;
      if left > 0 {
        FillStep(m, dst, ByteArgument(c), i, data, left);
        out := FillPiece(d, data, left, left);
      }
    }

    lemma FillNothing(m: map<nat, Byte>, dst: nat, b: Byte)
      ensures Stored(m, dst, Repeated(b, 0)) == m
    {
      assert Repeated(b, 0) == [];
    }

    method FillPiece(d: nat, data: bv64, k: nat, ghost left: nat) returns (out: Outcome)
      requires Valid() && 1 <= k <= left && k <= 8
      modifies this`nextFree, this`numFree, this`ids, this`cells, this`host, pageTable, frames
      ensures Valid()
      ensures out.Fine? ==> Flat() == Stored(old(Flat()), d, BytesOf(data, k))
      ensures old(CanWrite(d, left)) ==> out.Fine? && CanWrite(d + k, left - k)
    {
      hide Valid, PageId, Has, MissingPages, Members, PagesOf, Stored, BytesOf, Flat, CanWriteWith;
      ghost var can := CanWrite(d, left);
      if can {
        CanWriteFirst(d, k, left);
        PagesWithinHeap(d, left, k);
      }
      out := Write(d, data, k);
      if can { CanStill(d, k, left, old(ids), PagesOf(d, k)); }
    }

    lemma PagesWithinHeap(d: nat, left: nat, k: nat)
      requires CanWrite(d, left) && 0 < k <= left
      ensures PagesOf(d, k) <= PagesOf(d, left)
    {
      PagesWithin(d, left, 0, k);
    }

    /** The word with the byte of c in all places. */
    method FillWord(c: bv32) returns (data: bv64)
      ensures forall k {:trigger ByteOf(data, k)} | 0 <= k < 8 :: ByteOf(data, k) == ByteArgument(c)
    {
      hide ByteOf, Or, Shl, ByteArgument;
      var byte := (c & 0xFF) as bv64;
      data := 0;
      forall k {:trigger ByteOf(data, k)} | 0 <= k < 8 ensures ByteOf(data, k) == 0 { OneByte(0, k); }
      for i := 0 to 8
        invariant forall k {:trigger ByteOf(data, k)} | 0 <= k < 8 :: ByteOf(data, k) == if k < i then ByteArgument(c)
            else 0
      {
        var next := Or(data, Shl(byte, i));
        forall k {:trigger ByteOf(next, k)} | 0 <= k < 8
          ensures ByteOf(next, k) == if k < i + 1 then ByteArgument(c) else 0
        {
          ByteArgumentAt(c, 0);
          ByteArgumentAt(c, k);
          if k > i { ByteArgumentAt(c, k - i); }
          PutByte(data, byte, i, k);
        }
        data := next;
      }
    }

    // ----- the heap as a whole -----

    /** num_pages pages and num_pages / HASH_LOAD buckets, and memory outside the heap. */
    constructor (numPages: nat, host: map<nat, Byte>)
      requires numPages >= HASH_LOAD
      requires forall a {:trigger a in host} :: a in host ==> a < HEAP_START || HEAP_START + MAX_HEAP <= a
      ensures Valid() && Flat() == host && brk == HEAP_START && checkUB && |pool| == numPages
      ensures fresh(frames) && fresh(pageTable)
    {
      var pages: seq<Page> := [];
      for i := 0 to numPages
        invariant |pages| == i && forall p :: p in pages ==> fresh(p)
        invariant forall j, k {:trigger pages[j], pages[k]} :: 0 <= j < k < |pages| ==> pages[j] != pages[k]
      {
        var p := new Page();
        pages := pages + [p];
      }
      pool := pages;
      frames := set p | p in pages;
      numBuckets := numPages / HASH_LOAD;
      pageTable := new Page?[numPages / HASH_LOAD](_ => null);
      nextFree, numFree, brk, checkUB := 0, numPages, HEAP_START, true;
      this.host := host;
      ids, cells := [], map[];
    }

    /** The checks can be switched on or off at any time: the marks are kept up to date in between. */
    method SetUBCheck(val: bool)
      requires Valid()
      modifies this`checkUB
      ensures Valid() && checkUB == val && Flat() == old(Flat())
    {
      checkUB := val;
    }

    /** mem_reset_brk: an empty heap in which nothing has been written; the pages keep their bytes. */
    method Reset()
      requires Valid()
      modifies this`nextFree, this`numFree, this`brk, this`ids, this`cells, pageTable
      ensures Valid() && Flat() == host && cells == map[] && ids == [] && brk == HEAP_START && numFree == |pool|
    {
      for b := 0 to numBuckets
        invariant Fixed() && forall c :: 0 <= c < b ==> pageTable[c] == null
      {
        pageTable[b] := null;
      }
      nextFree := 0;
      numFree := |pool|;
      brk := HEAP_START;
      ids, cells := [], map[];
    }

    /** mem_sbrk: the old break, or failure with nothing changed. */
    method Sbrk(incr: int) returns (ok: bool, start: nat)
      requires Valid()
      modifies this`brk
      ensures Valid() && Flat() == old(Flat())
      ensures ok <==> 0 <= incr <= HEAP_START + MAX_HEAP - old(brk)
      ensures if ok then start == old(brk) && brk == old(brk) + incr else brk == old(brk)
    {
      hide Chained, Filled, PageId;
      start := brk;
      ok := true;
      if incr < 0 {
        ok := false;
      } else if brk + incr > HEAP_START + MAX_HEAP {
        ok := false;
      }
      if ok {
        brk := brk + incr;
      }
    }

    // ----- the page table as a structure -----

    /** q is reached from p by following at most `steps` links. */
    ghost predicate Reaches(p: Page?, q: Page, steps: nat)
      reads frames`next
    {
      p != null && p in frames && (p == q || (steps > 0 && Reaches(p.next, q, steps - 1)))
    }

    lemma {:induction false} ReachesDown(i: nat, m: nat)
      requires Chained() && i < m <= |ids|
      ensures Reaches(PageAt(Latest(ids[..m], ids[i] % numBuckets, numBuckets)), pool[i], m)
      decreases m
    {
      hide Chained, Latest;
      ChainedAt(i);
      var b := ids[i] % numBuckets;
      var j := Latest(ids[..m], b, numBuckets);
      assert ids[..m][i] == ids[i];
      ChainedAt(j);
      if i < j { ReachesDown(i, j); ReachesMore(pool[j].next, pool[i], j, m - 1); }
    }

    lemma {:induction false} ReachesMore(p: Page?, q: Page, m: nat, n: nat)
      requires Reaches(p, q, m) && m <= n
      ensures Reaches(p, q, n)
    {
      if p != q { ReachesMore(p.next, q, m - 1, n - 1); }
    }

    lemma {:induction false} ReachesBucket(i: nat, b: nat, m: nat, steps: nat)
      requires Chained() && i < |ids| && m <= |ids| && b < numBuckets
      requires Reaches(PageAt(Latest(ids[..m], b, numBuckets)), pool[i], steps)
      ensures ids[i] % numBuckets == b
      decreases m
    {
      var j := Latest(ids[..m], b, numBuckets);
      hide Chained, Latest;
      ChainedAt(j);
      ChainedAt(i);
      if i != j {
        ReachesBucket(i, b, j, steps - 1);
      }
    }

    /** Every page in use has an id of its own and is found in the chain of its own bucket and in no other. */
    lemma EachInItsBucket(i: nat, b: nat)
      requires Valid() && i < nextFree && b < numBuckets
      ensures i < |pool| && (Reaches(pageTable[b], pool[i], nextFree) <==> b == pool[i].id % numBuckets)
      ensures forall j {:trigger pool[j]} :: 0 <= j < nextFree && pool[j].id == pool[i].id ==> j == i
    {
      assert ids[..|ids|] == ids;
      ChainedAt(i);
      forall j {:trigger pool[j]} | 0 <= j < nextFree && pool[j].id == pool[i].id ensures j == i {
        ChainedAt(j);
      }
      hide Latest;
      if b == ids[i] % numBuckets { ReachesDown(i, |ids|); }
      if Reaches(pageTable[b], pool[i], nextFree) { ReachesBucket(i, b, |ids|, nextFree); }
    }

    /** A byte's bit is set exactly when the byte has been written, and then its page holds it. */
    lemma BitsExact(i: nat, k: nat)
      requires Valid() && i < nextFree && k < PAGE_SIZE
      ensures i < |pool| && (IsSet(pool[i].initSet, k) <==> PageStart(pool[i].id) + k in cells)
      ensures IsSet(pool[i].initSet, k) ==> cells[PageStart(pool[i].id) + k] == pool[i].bytes[k]
    {
      ChainedAt(i);
      FilledAt(i);
      hide IsSet;
      assert HoldsAt(ids[i], pool[i].initSet, pool[i].bytes, cells, k);
    }
  }
}
