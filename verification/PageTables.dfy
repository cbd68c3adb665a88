/** Values behind the hashed page table: which page heads a bucket, the bits that mark written bytes,
    and what a page says about the bytes of the emulated heap. */
module PageTables {
  import opened Basics
  import opened ByteWords
  import opened FlatMemory

  const HEAP_START: nat := 0x2130_0513_0000_0000
  const MAX_HEAP: nat := 0x4000_0000_0000_0000
  const PAGE_SIZE: nat := 1024
  const HASH_LOAD: nat := 10

  type PageBytes = s: seq<Byte> | |s| == 1024 witness seq(1024, _ => 0)
  type InitBits = s: seq<Byte> | |s| == 128 witness seq(128, _ => 0)

  // ----- addresses -----

  function PageId(addr: nat): (id: nat)
    requires HEAP_START <= addr
    ensures PageStart(id) <= addr < PageStart(id + 1)
  {
    (addr - HEAP_START) / PAGE_SIZE
  }

  function PageStart(id: nat): nat {
    HEAP_START + id * PAGE_SIZE
  }

  lemma SamePage(id: nat, k: nat)
    requires k < PAGE_SIZE
    ensures PageId(PageStart(id) + k) == id
  {
  }

  // ----- bucket chains -----

  /** The page id belongs to bucket b. */
  predicate InBucket(id: nat, b: nat, buckets: nat)
    requires buckets > 0
  {
    id % buckets == b
  }

  /** Pages are put in front of their chain: the position of the last one in bucket b, or -1. */
  function Latest(ids: seq<nat>, b: nat, buckets: nat): (i: int)
    requires buckets > 0
    ensures -1 <= i < |ids|
    ensures i >= 0 ==> InBucket(ids[i], b, buckets)
    ensures forall j {:trigger ids[j]} :: i < j < |ids| ==> !InBucket(ids[j], b, buckets)
  {
    if ids == [] then -1
    else if InBucket(ids[|ids| - 1], b, buckets) then |ids| - 1
    else Latest(ids[..|ids| - 1], b, buckets)
  }

  /** Between one page of a chain and the next there is no page of the same bucket. */
  lemma LatestSkips(ids: seq<nat>, n: nat, id: nat, buckets: nat)
    requires buckets > 0 && n <= |ids| && id !in ids[n..]
    ensures var j := Latest(ids[..n], id % buckets, buckets);
            && (j < 0 ==> id !in ids)
            && (0 <= j && ids[j] != id ==> id !in ids[j..])
  {
    var j := Latest(ids[..n], id % buckets, buckets);
    hide Latest;
    forall k | 0 <= k < |ids| && j < k ensures ids[k] != id {
      if k < n {
        assert ids[..n][k] == ids[k];
      } else {
        assert ids[n..][k - n] == ids[k];
      }
    }
  }

  /** A page put in front changes its own chain only. */
  lemma LatestPrepended(ids: seq<nat>, id: nat, b: nat, buckets: nat)
    requires buckets > 0
    ensures Latest(ids + [id], b, buckets) == if id % buckets == b then |ids| else Latest(ids, b, buckets)
  {
    assert (ids + [id])[..|ids|] == ids;
  }

  ghost predicate NoDuplicates(ids: seq<nat>) {
    forall i, j {:trigger ids[i], ids[j]} :: 0 <= i < j < |ids| ==> ids[i] != ids[j]
  }

  ghost function Members(ids: seq<nat>): set<nat> {
    set x | x in ids
  }

  lemma {:induction false} MembersSize(ids: seq<nat>)
    requires NoDuplicates(ids)
    ensures |Members(ids)| == |ids|
  {
    if ids != [] {
      var s, x := ids[..|ids| - 1], ids[|ids| - 1];
      MembersSize(s);
      assert Members(ids) == Members(s) + {x};
      assert x !in Members(s);
    }
  }

  function WithId(s: seq<nat>, id: nat): seq<nat> {
    if id in s then s else s + [id]
  }

  lemma WithIdMembers(s: seq<nat>, id: nat)
    ensures Members(WithId(s, id)) == Members(s) + {id}
    ensures |{id} - Members(s)| == |WithId(s, id)| - |s| == if id in s then 0 else 1
  {
    if id in s {
      assert {id} - Members(s) == {};
    } else {
      assert {id} - Members(s) == {id};
    }
  }

  /** The pages lo to hi. */
  ghost function Between(lo: nat, hi: int): (s: set<nat>)
    ensures forall p :: p in s <==> lo <= p <= hi
    decreases hi - lo
  {
    if hi < lo then {} else {lo} + Between(lo + 1, hi)
  }

  /** The pages that an access touches. */
  ghost function PagesOf(addr: nat, len: nat): set<nat>
    requires HEAP_START <= addr && 0 < len
  {
    Between(PageId(addr), PageId(addr + len - 1))
  }

  /** The number of pages that an access has to allocate. */
  ghost function MissingPages(s: seq<nat>, addr: nat, len: nat): nat
    requires HEAP_START <= addr && 0 < len
  {
    |PagesOf(addr, len) - Members(s)|
  }

  /** The offset of an address on its page. */
  function Offset(addr: nat): (o: nat)
    requires HEAP_START <= addr
    ensures o < PAGE_SIZE && addr == PageStart(PageId(addr)) + o
  {
    addr - PageStart(PageId(addr))
  }

  /** An access within one page. */
  lemma OnePage(s: seq<nat>, addr: nat, len: nat)
    requires HEAP_START <= addr && 1 <= len <= 8 && PageId(addr) == PageId(addr + len - 1)
    ensures Offset(addr) + len <= PAGE_SIZE
    ensures MissingPages(s, addr, len) == |WithId(s, PageId(addr))| - |s|
    ensures Members(WithId(s, PageId(addr))) == Members(s) + PagesOf(addr, len)
  {
    assert PagesOf(addr, len) == {PageId(addr)};
    WithIdMembers(s, PageId(addr));
  }

  lemma TwoMissing(a: nat, b: nat, m: set<nat>)
    requires a != b
    ensures |{a, b} - m| == |{a} - m| + |{b} - (m + {a})|
  {
    assert {a, b} - m == ({a} - m) + ({b} - (m + {a}));
  }

  /** Where the second part of an access that straddles two pages starts. */
  lemma Straddles(addr: nat, len: nat)
    requires HEAP_START <= addr && 1 <= len <= 8 && PageId(addr) != PageId(addr + len - 1)
    ensures var n := PAGE_SIZE - Offset(addr);
            && 0 < n < len && Offset(addr + n) == 0 && PageId(addr + n) == PageId(addr) + 1 == PageId(addr + len - 1)
  {
  }

  /** An access that straddles two pages. */
  lemma TwoPages(s: seq<nat>, addr: nat, len: nat)
    requires HEAP_START <= addr && 1 <= len <= 8 && PageId(addr) != PageId(addr + len - 1)
    ensures var n := PAGE_SIZE - Offset(addr);
            && 0 < n < len && Offset(addr + n) == 0 && PageId(addr + n) == PageId(addr) + 1
    ensures var t := WithId(WithId(s, PageId(addr)), PageId(addr) + 1);
            && MissingPages(s, addr, len) == |t| - |s| && Members(t) == Members(s) + PagesOf(addr, len)
  {
    Straddles(addr, len);
    PagesAreEnds(addr, len);
    hide PageId, Offset, PagesOf, Between, WithId, Members;
    var a, b := PageId(addr), PageId(addr) + 1;
    WithIdMembers(s, a);
    WithIdMembers(WithId(s, a), b);
    TwoMissing(a, b, Members(s));
  }

  /** A short access touches the pages of its ends. */
  lemma PagesAreEnds(addr: nat, len: nat)
    requires HEAP_START <= addr && 1 <= len <= 8
    ensures PagesOf(addr, len) == {PageId(addr), PageId(addr + len - 1)}
  {
    hide Between;
    assert PageId(addr) <= PageId(addr + len - 1) <= PageId(addr) + 1;
  }

  // ----- the bits of initSet -----

  predicate IsSet(init: InitBits, k: nat)
    requires k < PAGE_SIZE
  {
    HasBit(init[k / 8], k % 8)
  }

  function WithBit(init: InitBits, k: nat): InitBits
    requires k < PAGE_SIZE
  {
    init[k / 8 := SetBit(init[k / 8], k % 8)]
  }

  lemma WithBitAt(init: InitBits, k: nat, j: nat)
    requires k < PAGE_SIZE && j < PAGE_SIZE
    ensures IsSet(WithBit(init, k), j) <==> j == k || IsSet(init, j)
  {
    hide HasBit, SetBit;
    SetBitAt(init[k / 8], k % 8, j % 8);
    SameBit(k, j);
  }

  lemma SameBit(k: nat, j: nat)
    ensures j == k <==> j / 8 == k / 8 && j % 8 == k % 8
  {
  }

  /** next is init with the bits of n bytes from o on. */
  ghost predicate Marked(init: InitBits, next: InitBits, o: nat, n: nat) {
    forall k {:trigger IsSet(next, k)} | 0 <= k < PAGE_SIZE :: IsSet(next, k) <==> IsSet(init, k) || o <= k < o + n
  }

  lemma MarkOne(init: InitBits, next: InitBits, o: nat, n: nat)
    requires Marked(init, next, o, n) && o + n < PAGE_SIZE
    ensures Marked(init, WithBit(next, o + n), o, n + 1)
  {
    hide IsSet, WithBit;
    forall k {:trigger IsSet(WithBit(next, o + n), k)} | 0 <= k < PAGE_SIZE
      ensures IsSet(WithBit(next, o + n), k) <==> IsSet(init, k) || o <= k < o + n + 1
    {
      WithBitAt(next, o + n, k);
    }
  }

  function NoBitsSet(): InitBits {
    seq(128, _ => 0)
  }

  lemma NoneSet(k: nat)
    requires k < PAGE_SIZE
    ensures !IsSet(NoBitsSet(), k)
  {
    NoBits(k % 8);
  }

  // ----- a page and the bytes of the heap -----

  /** Bit k of page id is set exactly when the byte has been written, and then the page holds it. */
  ghost predicate HoldsAt(id: nat, init: InitBits, bytes: PageBytes, cells: map<nat, Byte>, k: nat)
    requires k < PAGE_SIZE
  {
    && (IsSet(init, k) <==> PageStart(id) + k in cells)
    && (IsSet(init, k) ==> cells[PageStart(id) + k] == bytes[k])
  }

  ghost predicate Holds(id: nat, init: InitBits, bytes: PageBytes, cells: map<nat, Byte>) {
    forall k {:trigger HoldsAt(id, init, bytes, cells, k)} | 0 <= k < PAGE_SIZE :: HoldsAt(id, init, bytes, cells, k)
  }

  /** bs replaces the bytes from offset o on. */
  function Overwrite(bytes: PageBytes, o: nat, bs: seq<Byte>): PageBytes
    requires o + |bs| <= PAGE_SIZE
  {
    bytes[..o] + bs + bytes[o + |bs|..]
  }

  /** Marking bytes as written, with whatever the page holds. */
  lemma HoldsMarked(id: nat, init: InitBits, next: InitBits, bytes: PageBytes, cells: map<nat, Byte>, o: nat, n: nat)
    requires Holds(id, init, bytes, cells) && o + n <= PAGE_SIZE && Marked(init, next, o, n)
    ensures Holds(id, next, bytes, Stored(cells, PageStart(id) + o, bytes[o..o + n]))
  {
    hide IsSet, Stored, PageStart;
    var after := Stored(cells, PageStart(id) + o, bytes[o..o + n]);
    forall k {:trigger HoldsAt(id, next, bytes, after, k)} | 0 <= k < PAGE_SIZE
      ensures HoldsAt(id, next, bytes, after, k)
    {
      assert HoldsAt(id, init, bytes, cells, k);
      StoredAt(cells, PageStart(id) + o, bytes[o..o + n], PageStart(id) + k);
    }
  }

  lemma HoldsOverwritten(id: nat, init: InitBits, bytes: PageBytes, cells: map<nat, Byte>, o: nat, bs: seq<Byte>)
    requires Holds(id, init, bytes, cells) && o + |bs| <= PAGE_SIZE && Has(cells, PageStart(id) + o, |bs|)
    ensures Holds(id, init, Overwrite(bytes, o, bs), Stored(cells, PageStart(id) + o, bs))
  {
    hide IsSet, Stored, PageStart;
    var after := Stored(cells, PageStart(id) + o, bs);
    forall k {:trigger HoldsAt(id, init, Overwrite(bytes, o, bs), after, k)} | 0 <= k < PAGE_SIZE
      ensures HoldsAt(id, init, Overwrite(bytes, o, bs), after, k)
    {
      assert HoldsAt(id, init, bytes, cells, k);
      StoredAt(cells, PageStart(id) + o, bs, PageStart(id) + k);
    }
  }

  /** Storing inside one page says nothing about another. */
  lemma HoldsElsewhere(id: nat, init: InitBits, bytes: PageBytes, cells: map<nat, Byte>, other: nat, o: nat,
      bs: seq<Byte>)
    requires Holds(id, init, bytes, cells) && id != other && o + |bs| <= PAGE_SIZE
    ensures Holds(id, init, bytes, Stored(cells, PageStart(other) + o, bs))
  {
    hide IsSet, Stored;
    var after := Stored(cells, PageStart(other) + o, bs);
    forall k {:trigger HoldsAt(id, init, bytes, after, k)} | 0 <= k < PAGE_SIZE
      ensures HoldsAt(id, init, bytes, after, k)
    {
      assert HoldsAt(id, init, bytes, cells, k);
      StoredAt(cells, PageStart(other) + o, bs, PageStart(id) + k);
    }
  }

  /** A fresh page says nothing about bytes that were never written. */
  lemma HoldsFresh(id: nat, bytes: PageBytes, cells: map<nat, Byte>)
    requires forall a {:trigger a in cells} :: a in cells ==> !(PageStart(id) <= a < PageStart(id + 1))
    ensures Holds(id, NoBitsSet(), bytes, cells)
  {
    hide IsSet, NoBitsSet;
    forall k {:trigger HoldsAt(id, NoBitsSet(), bytes, cells, k)} | 0 <= k < PAGE_SIZE
      ensures HoldsAt(id, NoBitsSet(), bytes, cells, k)
    {
      NoneSet(k);
    }
  }
}
