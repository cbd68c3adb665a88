/** One set of the cache simulator as a value, what an access does to it, and the reference it is
    compared with: a set kept as a list of blocks in order of recency. */
module CacheSets {

  datatype Line = Line(tag: int, d: bool, v: bool, index: int)

  /** The lines of a set and the number of the line to replace next. */
  datatype CacheSet = CacheSet(lines: seq<Line>, lru: int)

  /** Evict says whether the evicted line was dirty. */
  datatype Event = Hit | Miss | Evict(dirty: bool)

  /** Lines are filled in order, tags differ, and the line to replace exists once the set is full. */
  ghost predicate Proper(c: CacheSet) {
    && |c.lines| >= 1
    && (forall i {:trigger c.lines[i].index} | 0 <= i < |c.lines| :: c.lines[i].index == i)
    && (forall i, j {:trigger c.lines[i].v, c.lines[j].v} | 0 <= i < j < |c.lines| :: c.lines[j].v ==>
         c.lines[i].v && c.lines[i].tag != c.lines[j].tag)
    && (forall i {:trigger c.lines[i].d} | 0 <= i < |c.lines| :: c.lines[i].d ==> c.lines[i].v)
    && (if |c.lines| == 1 then c.lru == 0 else c.lines[0].v ==> 0 <= c.lru <= 1)
  }

  /** The first line from i on that is free or holds the tag. */
  function Position(lines: seq<Line>, tag: int, i: nat): (p: nat)
    requires i <= |lines|
    ensures i <= p <= |lines|
    decreases |lines| - i
  {
    if i == |lines| || !lines[i].v || lines[i].tag == tag then i else Position(lines, tag, i + 1)
  }

  /** The replacement mark after a use of the line with this index. */
  function MarkAfter(e: nat, index: int, lru: int): int {
    if e > 1 && index == 1 then 0 else if e > 1 && index == 0 then 1 else lru
  }

  function Access(c: CacheSet, tag: int, store: bool): (CacheSet, Event)
    requires |c.lines| >= 1
  {
    var e := |c.lines|;
    var p := Position(c.lines, tag, 0);
    if p < e then
      var L := c.lines[p];
      if !L.v then (CacheSet(c.lines[p := Line(tag, store || L.d, true, L.index)], MarkAfter(e, L.index, c.lru)), Miss)
      else (CacheSet(c.lines[p := L.(d := store || L.d)], MarkAfter(e, L.index, c.lru)), Hit)
    else if 0 <= c.lru < e then
      var L := c.lines[c.lru];
      (CacheSet(c.lines[c.lru := Line(tag, store, L.v, L.index)], MarkAfter(e, L.index, c.lru)), Evict(L.d))
    else (c, Miss)
  }

  function EmptySet(e: nat): CacheSet
    requires e >= 1
  {
    CacheSet(seq(e, j => Line(0, false, false, j)), if e == 1 then 0 else -1)
  }

  lemma EmptyProper(e: nat)
    requires e >= 1
    ensures Proper(EmptySet(e))
  {
  }

  lemma {:induction false} PositionIs(lines: seq<Line>, tag: int, i: nat)
    requires i <= |lines|
    ensures var p := Position(lines, tag, i);
            && (forall k {:trigger lines[k]} :: i <= k < p ==> lines[k].v && lines[k].tag != tag)
            && (p < |lines| ==> !lines[p].v || lines[p].tag == tag)
    decreases |lines| - i
  {
    if i < |lines| && lines[i].v && lines[i].tag != tag { PositionIs(lines, tag, i + 1); }
  }

  // ----- counting -----

  function ValidLines(lines: seq<Line>): nat {
    if lines == [] then 0 else ValidLines(lines[..|lines| - 1]) + if lines[|lines| - 1].v then 1 else 0
  }

  function DirtyLines(lines: seq<Line>): nat {
    if lines == [] then 0 else DirtyLines(lines[..|lines| - 1]) + if lines[|lines| - 1].d then 1 else 0
  }

  lemma {:induction false} CountUpdate(lines: seq<Line>, p: nat, L: Line)
    requires p < |lines|
    ensures ValidLines(lines[p := L]) == ValidLines(lines) + (if L.v then 1 else 0) - (if lines[p].v then 1 else 0)
    ensures DirtyLines(lines[p := L]) == DirtyLines(lines) + (if L.d then 1 else 0) - (if lines[p].d then 1 else 0)
  {
    var n := |lines| - 1;
    if p < n {
      assert lines[p := L][..n] == lines[..n][p := L];
      CountUpdate(lines[..n], p, L);
    } else {
      assert lines[p := L][..n] == lines[..n];
    }
  }

  /** Does the access turn a clean line dirty? An evicted line is cleaned first. */
  function Dirties(c: CacheSet, tag: int, store: bool): bool
    requires |c.lines| >= 1
  {
    var p := Position(c.lines, tag, 0);
    store && (p == |c.lines| || !c.lines[p].d)
  }

  /** What an access keeps, and how it changes the number of valid and dirty lines. */
  lemma AccessKeeps(c: CacheSet, tag: int, store: bool)
    requires Proper(c)
    ensures var (d, e) := Access(c, tag, store);
            && Proper(d) && |d.lines| == |c.lines|
            && ValidLines(d.lines) == ValidLines(c.lines) + (if e.Miss? then 1 else 0)
            && DirtyLines(d.lines) == DirtyLines(c.lines) + (if Dirties(c, tag, store) then 1 else 0)
                                      - (if e.Evict? && e.dirty then 1 else 0)
  {
    AccessProper(c, tag, store);
    var e := |c.lines|;
    var p := Position(c.lines, tag, 0);
    PositionIs(c.lines, tag, 0);
    var q := if p < e then p else c.lru;
    CountUpdate(c.lines, q, Access(c, tag, store).0.lines[q]);
  }

  lemma AccessProper(c: CacheSet, tag: int, store: bool)
    requires Proper(c)
    ensures Proper(Access(c, tag, store).0) && |Access(c, tag, store).0.lines| == |c.lines|
  {
    PositionIs(c.lines, tag, 0);
    hide Position;
    var e := |c.lines|;
    var p := Position(c.lines, tag, 0);
    if p < e {
      ReplaceProper(c, p, tag, store || c.lines[p].d);
    } else {
      assert c.lines[0].v;
      ReplaceProper(c, c.lru, tag, store);
    }
  }

  /** Line p gets a tag that no valid line holds but perhaps p itself. */
  lemma ReplaceProper(c: CacheSet, p: nat, tag: int, d: bool)
    requires Proper(c) && p < |c.lines|
    requires forall k {:trigger c.lines[k].v} :: 0 <= k < |c.lines| && k != p && c.lines[k].v ==> c.lines[k].tag != tag
    requires forall k {:trigger c.lines[k].v} :: 0 <= k < p ==> c.lines[k].v
    ensures Proper(CacheSet(c.lines[p := Line(tag, d, true, p)], MarkAfter(|c.lines|, p, c.lru)))
  {
    var n := c.lines[p := Line(tag, d, true, p)];
    forall i, j {:trigger n[i].v, n[j].v} | 0 <= i < j < |n| && n[j].v ensures n[i].v && n[i].tag != n[j].tag {
      assert c.lines[i].v || i == p;
      assert c.lines[j].v || j == p;
    }
    assert |n| > 1 && p > 1 ==> c.lines[0].v;
  }

  /** The event says whether the tag was there, and whether there was room. */
  lemma AccessEvent(c: CacheSet, tag: int, store: bool)
    requires Proper(c)
    ensures var e := Access(c, tag, store).1;
            && (e == Hit <==> exists i :: 0 <= i < |c.lines| && c.lines[i].v && c.lines[i].tag == tag)
            && (e.Evict? ==> forall i :: 0 <= i < |c.lines| ==> c.lines[i].v)
  {
    PositionIs(c.lines, tag, 0);
    var p := Position(c.lines, tag, 0);
    forall i | 0 <= i < |c.lines| && c.lines[i].v && c.lines[i].tag == tag ensures i == p && c.lines[p].v {
    }
  }

  // ----- the reference: a list in order of recency -----

  datatype Block = Block(tag: int, d: bool)

  function Find(r: seq<Block>, tag: int): (p: nat)
    ensures p <= |r| && (p < |r| ==> r[p].tag == tag)
  {
    if r == [] || r[0].tag == tag then 0 else 1 + Find(r[1..], tag)
  }

  /** A least-recently-used set of capacity e, most recent block first. */
  function Reference(r: seq<Block>, e: nat, tag: int, store: bool): (seq<Block>, Event)
    requires e >= 1
  {
    var p := Find(r, tag);
    if p < |r| then ([Block(tag, store || r[p].d)] + r[..p] + r[p + 1..], Hit)
    else if |r| < e then ([Block(tag, store)] + r, Miss)
    else ([Block(tag, store)] + r[..|r| - 1], Evict(r[|r| - 1].d))
  }

  function BlockOf(L: Line): Block {
    Block(L.tag, L.d)
  }

  /** A set of one or two lines as a list in order of recency. */
  function Recency(c: CacheSet): seq<Block>
    requires 1 <= |c.lines| <= 2
  {
    if !c.lines[0].v then []
    else if |c.lines| == 1 || !c.lines[1].v then [BlockOf(c.lines[0])]
    else if c.lru == 0 then [BlockOf(c.lines[1]), BlockOf(c.lines[0])]
    else [BlockOf(c.lines[0]), BlockOf(c.lines[1])]
  }

  /** The reference on lists of at most two blocks, written out. */
  lemma ReferenceSmall(r: seq<Block>, e: nat, tag: int, store: bool)
    requires |r| <= e && 1 <= e <= 2
    ensures var x := Block(tag, store); var res := Reference(r, e, tag, store);
            && (|r| == 0 ==> res == ([x], Miss))
            && (|r| == 1 && r[0].tag == tag ==> res == ([Block(tag, store || r[0].d)], Hit))
            && (|r| == 1 && r[0].tag != tag && e == 1 ==> res == ([x], Evict(r[0].d)))
            && (|r| == 1 && r[0].tag != tag && e == 2 ==> res == ([x, r[0]], Miss))
            && (|r| == 2 && r[0].tag == tag ==> res == ([Block(tag, store || r[0].d), r[1]], Hit))
            && (|r| == 2 && r[0].tag != tag && r[1].tag == tag ==> res == ([Block(tag, store || r[1].d), r[0]], Hit))
            && (|r| == 2 && r[0].tag != tag && r[1].tag != tag ==> res == ([x, r[0]], Evict(r[1].d)))
  {
    var p, x := Find(r, tag), Block(tag, store);
    if |r| == 0 {
      assert [x] + r == [x];
    } else if |r| == 1 {
      assert [x] + r[..0] == [x] && [x] + r == [x, r[0]];
      assert p == if r[0].tag == tag then 0 else 1 + Find(r[1..], tag);
      assert [Block(tag, store || r[0].d)] + r[..0] + r[0 + 1..] == [Block(tag, store || r[0].d)];
      assert r[1..] == [];
    } else if |r| == 2 {
      FindTwo(r, tag);
      assert [x] + r[..1] == [x, r[0]];
      assert [Block(tag, store || r[0].d)] + r[..0] + r[0 + 1..] == [Block(tag, store || r[0].d), r[1]];
      assert [Block(tag, store || r[1].d)] + r[..1] + r[1 + 1..] == [Block(tag, store || r[1].d), r[0]];
    }
  }

  lemma FindTwo(r: seq<Block>, tag: int)
    requires |r| == 2
    ensures Find(r, tag) == if r[0].tag == tag then 0 else if r[1].tag == tag then 1 else 2
  {
    assert r[1..] == [r[1]] && [r[1]][1..] == [];
    assert Find([r[1]], tag) == if r[1].tag == tag then 0 else 1;
  }

  /** With one or two lines an access is an access to the reference. */
  lemma AccessIsReference(c: CacheSet, tag: int, store: bool)
    requires Proper(c) && |c.lines| <= 2
    ensures var (d, e) := Access(c, tag, store);
            |d.lines| == |c.lines| && |Recency(c)| <= |c.lines|
                && (Recency(d), e) == Reference(Recency(c), |c.lines|, tag, store)
  {
    PositionIs(c.lines, tag, 0);
    ReferenceSmall(Recency(c), |c.lines|, tag, store);
    hide Reference, Find;
    var p := Position(c.lines, tag, 0);
    if |c.lines| == 1 {
      assert p == 0 || p == 1;
    } else {
      assert p == 0 || p == 1 || p == 2;
    }
  }
}
