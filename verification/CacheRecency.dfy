/** What the cache simulator is for any number of lines per set: the first two lines of a set are kept by recency
    and all evictions come from them; the blocks in the other lines stay for good. */
module CacheRecency {
  import opened CacheSets
  import opened CacheTraces

  /** A set of the reference: at most two blocks with the most recent first, and the blocks that stay, in the order
      in which they came. */
  datatype Parts = Parts(young: seq<Block>, old_: seq<Block>)

  /** An access to a set with room for e blocks. A miss fills the first list and then the second. */
  function PartsAccess(r: Parts, e: nat, tag: int, store: bool): (Parts, Event)
    requires e >= 1
  {
    var room := if e == 1 then 1 else 2;
    var p, q := Find(r.young, tag), Find(r.old_, tag);
    if p < |r.young| then
      (r.(young := [Block(tag, store || r.young[p].d)] + r.young[..p] + r.young[p + 1..]), Hit)
    else if q < |r.old_| then (r.(old_ := r.old_[q := Block(tag, store || r.old_[q].d)]), Hit)
    else if |r.young| < room then (r.(young := [Block(tag, store)] + r.young), Miss)
    else if |r.old_| < e - room then (r.(old_ := r.old_ + [Block(tag, store)]), Miss)
    else (r.(young := [Block(tag, store)] + r.young[..|r.young| - 1]), Evict(r.young[|r.young| - 1].d))
  }

  /** The blocks in the valid lines from i on. */
  function BlocksFrom(lines: seq<Line>, i: nat): seq<Block>
    requires i <= |lines|
    decreases |lines| - i
  {
    if i == |lines| || !lines[i].v then [] else [BlockOf(lines[i])] + BlocksFrom(lines, i + 1)
  }

  /** The first two lines of a set, or the only one. */
  function Front(c: CacheSet): CacheSet {
    if |c.lines| <= 2 then c else CacheSet(c.lines[..2], c.lru)
  }

  function PartsOf(c: CacheSet): Parts
    requires |c.lines| >= 1
  {
    Parts(Recency(Front(c)), BlocksFrom(c.lines, |Front(c).lines|))
  }

  lemma FrontProper(c: CacheSet)
    requires Proper(c)
    ensures Proper(Front(c))
  {
    var f := Front(c).lines;
    forall i, j {:trigger f[i].v, f[j].v} | 0 <= i < j < |f| && f[j].v ensures f[i].v && f[i].tag != f[j].tag {
      assert c.lines[i].v && c.lines[i].tag != c.lines[j].tag;
    }
    forall i {:trigger f[i].d} | 0 <= i < |f| && f[i].d ensures f[i].v { assert c.lines[i].d; }
    forall i {:trigger f[i].index} | 0 <= i < |f| ensures f[i].index == i { assert c.lines[i].index == i; }
  }

  lemma FindFirst(x: Block, rest: seq<Block>, tag: int)
    ensures Find([x] + rest, tag) == if x.tag == tag then 0 else 1 + Find(rest, tag)
  {
    assert ([x] + rest)[1..] == rest;
  }

  lemma FoundHere(x: Block, rest: seq<Block>, tag: int)
    requires x.tag == tag
    ensures Find([x] + rest, tag) == 0 && ([x] + rest)[0] == x
  {
  }

  lemma FoundLater(x: Block, rest: seq<Block>, tag: int, k: nat)
    requires x.tag != tag && Find(rest, tag) == k < |rest|
    ensures Find([x] + rest, tag) == k + 1 < |[x] + rest| && ([x] + rest)[k + 1] == rest[k]
  {
    FindFirst(x, rest, tag);
  }

  /** The first of the valid lines from i on that holds the tag. */
  lemma {:induction false} BlocksFound(lines: seq<Line>, i: nat, tag: int, p: nat)
    requires i <= p < |lines| && (forall k {:trigger lines[k]} :: i <= k < p ==> lines[k].v && lines[k].tag != tag)
    requires lines[p].v && lines[p].tag == tag
    ensures var b := BlocksFrom(lines, i); Find(b, tag) == p - i < |b| && b[p - i] == BlockOf(lines[p])
    decreases p - i
  {
    var x, rest := BlockOf(lines[i]), BlocksFrom(lines, i + 1);
    assert BlocksFrom(lines, i) == [x] + rest;
    BlockTag(lines[i]);
    hide BlocksFrom, Find, BlockOf;
    if i < p {
      BlocksFound(lines, i + 1, tag, p);
      FoundLater(x, rest, tag, p - (i + 1));
    } else {
      FoundHere(x, rest, tag);
    }
  }

  /** None of the valid lines from i on, those before p, holds the tag. */
  lemma {:induction false} BlocksMissed(lines: seq<Line>, i: nat, tag: int, p: nat)
    requires i <= p <= |lines| && (forall k {:trigger lines[k]} :: i <= k < p ==> lines[k].v && lines[k].tag != tag)
    requires p < |lines| ==> !lines[p].v
    ensures var b := BlocksFrom(lines, i); Find(b, tag) == |b| == p - i
    decreases p - i
  {
    if i < p {
      var x, rest := BlockOf(lines[i]), BlocksFrom(lines, i + 1);
      assert BlocksFrom(lines, i) == [x] + rest;
      BlockTag(lines[i]);
      BlocksMissed(lines, i + 1, tag, p);
      FindFirst(x, rest, tag);
    }
  }

  lemma BlocksFind(lines: seq<Line>, i: nat, tag: int)
    requires i <= |lines|
    ensures var p, b := Position(lines, tag, i), BlocksFrom(lines, i);
            && Find(b, tag) == p - i && |b| <= |lines| - i
            && (p < |lines| && lines[p].v <==> p - i < |b|)
            && (p < |lines| && lines[p].v ==> b[p - i] == BlockOf(lines[p]))
            && (p < |lines| && !lines[p].v ==> |b| == p - i)
            && (p == |lines| ==> |b| == |lines| - i)
  {
    BlocksLength(lines, i);
    PositionIs(lines, tag, i);
    var p := Position(lines, tag, i);
    hide Find, BlocksFrom, BlockOf;
    if p < |lines| && lines[p].v { BlocksFound(lines, i, tag, p); } else { BlocksMissed(lines, i, tag, p); }
  }

  lemma BlockTag(L: Line)
    ensures BlockOf(L).tag == L.tag
  {
  }

  lemma {:induction false} BlocksLength(lines: seq<Line>, i: nat)
    requires i <= |lines|
    ensures |BlocksFrom(lines, i)| <= |lines| - i
    decreases |lines| - i
  {
    if i < |lines| && lines[i].v { BlocksLength(lines, i + 1); }
  }

  /** A line found from i on gets a new block: it replaces the old one, or comes after all others. */
  lemma {:induction false} BlocksPut(lines: seq<Line>, i: nat, p: nat, L: Line)
    requires i <= p < |lines| && L.v
    requires forall k {:trigger lines[k].v} :: i <= k < p ==> lines[k].v
    requires !lines[p].v ==> forall k {:trigger lines[k].v} :: p < k < |lines| ==> !lines[k].v
    ensures lines[p].v ==> p - i < |BlocksFrom(lines, i)|
    ensures var b := BlocksFrom(lines, i);
            BlocksFrom(lines[p := L], i) ==
              if lines[p].v then b[..p - i] + [BlockOf(L)] + b[p - i + 1..] else b + [BlockOf(L)]
    decreases p - i
  {
    var b, m := BlocksFrom(lines, i), lines[p := L];
    if i < p {
      BlocksPut(lines, i + 1, p, L);
      var rest := BlocksFrom(lines, i + 1);
      assert b == [BlockOf(lines[i])] + rest && BlocksFrom(m, i) == [BlockOf(lines[i])] + BlocksFrom(m, i + 1);
      if lines[p].v {
        assert b[..p - i] == [BlockOf(lines[i])] + rest[..p - i - 1] && b[p - i + 1..] == rest[p - i..];
      }
    } else {
      BlocksSame(lines, m, p + 1);
      assert !lines[p].v ==> BlocksFrom(lines, p + 1) == [];
      assert lines[p].v ==> b[1..] == BlocksFrom(lines, p + 1);
    }
  }

  lemma {:induction false} BlocksSame(a: seq<Line>, b: seq<Line>, i: nat)
    requires |a| == |b| && i <= |a| && a[i..] == b[i..]
    ensures BlocksFrom(a, i) == BlocksFrom(b, i)
    decreases |a| - i
  {
    if i < |a| {
      assert a[i] == a[i..][0] && b[i] == b[i..][0] && a[i..][1..] == a[i + 1..] && b[i..][1..] == b[i + 1..];
      BlocksSame(a, b, i + 1);
    }
  }

  // ----- one access -----

  lemma FrontPosition(c: CacheSet, tag: int)
    requires |c.lines| >= 3
    ensures var p := Position(c.lines, tag, 0);
            && Position(Front(c).lines, tag, 0) == (if p < 2 then p else 2)
            && (p >= 2 ==> Position(c.lines, tag, 2) == p)
  {
    var f := Front(c).lines;
    assert f[0] == c.lines[0] && f[1] == c.lines[1];
    assert Position(f, tag, 1) == if !f[1].v || f[1].tag == tag then 1 else Position(f, tag, 2);
    assert Position(c.lines, tag, 1) == if !f[1].v || f[1].tag == tag then 1 else Position(c.lines, tag, 2);
  }

  /** The reference on the first list, when the tag is not in the second. */
  lemma YoungAccess(r: Parts, e: nat, tag: int, store: bool)
    requires e >= 1
    requires var room := if e == 1 then 1 else 2;
             && |r.young| <= room
             && (Find(r.young, tag) == |r.young| ==> Find(r.old_, tag) == |r.old_|)
             && (Find(r.young, tag) == |r.young| && |r.young| == room ==> |r.old_| >= e - room)
    ensures var (y, event) := Reference(r.young, if e == 1 then 1 else 2, tag, store);
            PartsAccess(r, e, tag, store) == (r.(young := y), event)
  {
  }

  /** An access that the first two lines take. */
  lemma FrontAccess(c: CacheSet, tag: int, store: bool)
    requires Proper(c) && |c.lines| >= 3
    requires var p := Position(c.lines, tag, 0); p < 2 || p == |c.lines|
    ensures var (d, e) := Access(c, tag, store);
            |d.lines| == |c.lines| && (Front(d), e) == Access(Front(c), tag, store)
            && BlocksFrom(d.lines, 2) == BlocksFrom(c.lines, 2)
  {
    PositionIs(c.lines, tag, 0);
    FrontPosition(c, tag);
    FrontProper(c);
    hide Position;
    var d := Access(c, tag, store).0;
    var p := Position(c.lines, tag, 0);
    var q := if p < 2 then p else c.lru;
    assert c.lines[q].index == q && Front(c).lines[q] == c.lines[q];
    assert d.lines == c.lines[q := d.lines[q]] && d.lines[..2] == c.lines[..2][q := d.lines[q]];
    assert d.lines[2..] == c.lines[2..];
    BlocksSame(c.lines, d.lines, 2);
  }

  lemma FullFront(c: CacheSet, tag: int)
    requires Proper(c) && |c.lines| >= 3 && Position(c.lines, tag, 0) >= 2
    ensures var r := Recency(Front(c)); |r| == 2 && Find(r, tag) == 2
  {
    PositionIs(c.lines, tag, 0);
    var r := Recency(Front(c));
    assert c.lines[0].v && c.lines[1].v;
    FindTwo(r, tag);
  }

  lemma BackLine(c: CacheSet, tag: int, store: bool)
    requires Proper(c) && |c.lines| >= 3 && 2 <= Position(c.lines, tag, 0) < |c.lines|
    ensures var (d, e) := Access(c, tag, store); var p := Position(c.lines, tag, 0);
            && d == CacheSet(c.lines[p := Line(tag, store || c.lines[p].d, true, p)], c.lru)
            && e == (if c.lines[p].v then Hit else Miss) && Front(d) == Front(c)
            && (!c.lines[p].v ==> !c.lines[p].d)
            && (forall k {:trigger c.lines[k].v} :: 2 <= k < p ==> c.lines[k].v)
            && (!c.lines[p].v ==> forall k {:trigger c.lines[k].v} :: p < k < |c.lines| ==> !c.lines[k].v)
  {
    PositionIs(c.lines, tag, 0);
    hide Position;
    var p := Position(c.lines, tag, 0);
    assert c.lines[p].index == p && (c.lines[p].d ==> c.lines[p].v);
    assert Access(c, tag, store).0.lines[..2] == c.lines[..2];
  }

  /** An access that the other lines take. */
  lemma BackAccess(c: CacheSet, tag: int, store: bool)
    requires Proper(c) && |c.lines| >= 3 && 2 <= Position(c.lines, tag, 0) < |c.lines|
    ensures var (d, e) := Access(c, tag, store);
            |d.lines| == |c.lines| && (PartsOf(d), e) == PartsAccess(PartsOf(c), |c.lines|, tag, store)
  {
    hide Access, Proper, Find, Recency;
    var p, d := Position(c.lines, tag, 0), Access(c, tag, store).0;
    FrontPosition(c, tag);
    FullFront(c, tag);
    BlocksFind(c.lines, 2, tag);
    BackLine(c, tag, store);
    hide Position, BlocksFrom;
    var L := Line(tag, store || c.lines[p].d, true, p);
    BlocksPut(c.lines, 2, p, L);
    var b := BlocksFrom(c.lines, 2);
    if c.lines[p].v { assert b[p - 2 := BlockOf(L)] == b[..p - 2] + [BlockOf(L)] + b[p - 2 + 1..]; }
  }

  /** For any number of lines an access is an access to the reference. */
  lemma AccessIsParts(c: CacheSet, tag: int, store: bool)
    requires Proper(c)
    ensures var (d, e) := Access(c, tag, store);
            |d.lines| == |c.lines| && (PartsOf(d), e) == PartsAccess(PartsOf(c), |c.lines|, tag, store)
  {
    var p, f := Position(c.lines, tag, 0), Front(c);
    PositionIs(c.lines, tag, 0);
    FrontProper(c);
    AccessIsReference(f, tag, store);
    if |c.lines| <= 2 {
      assert BlocksFrom(c.lines, |c.lines|) == [];
      YoungAccess(PartsOf(c), |c.lines|, tag, store);
    } else if 2 <= p < |c.lines| {
      BackAccess(c, tag, store);
    } else {
      FrontAccess(c, tag, store);
      BlocksFind(c.lines, 2, tag);
      if p < 2 { OnlyFront(c, tag); } else { FrontPosition(c, tag); FullFront(c, tag); }
      hide Position, Access, Recency, Reference, Find;
      YoungAccess(PartsOf(c), |c.lines|, tag, store);
    }
  }

  /** A tag that the first two lines hold, or have room for, is not in the others. */
  lemma OnlyFront(c: CacheSet, tag: int)
    requires Proper(c) && |c.lines| >= 3 && Position(c.lines, tag, 0) < 2
    ensures var r, b := Recency(Front(c)), BlocksFrom(c.lines, 2);
            Find(r, tag) == |r| ==> |r| < 2 && b == [] && Find(b, tag) == 0
  {
    PositionIs(c.lines, tag, 0);
    var r := Recency(Front(c));
    assert !c.lines[1].v ==> !c.lines[2].v;
    if |r| == 2 { FindTwo(r, tag); }
    if |r| == 1 { assert r[1..] == []; }
  }

  // ----- whole traces -----

  function SimulateParts(parts: seq<Parts>, e: nat, k: Counters, B: int, trace: seq<Op>): (seq<Parts>, Counters)
    requires e >= 1 && InRange(trace, |parts|)
    decreases |trace|
  {
    if trace == [] then (parts, k)
    else
      var op := trace[0];
      var (r, event) := PartsAccess(parts[op.index], e, op.tag, op.store);
      SimulateParts(parts[op.index := r], e, Count(k, event, B), B, trace[1..])
  }

  ghost predicate InStep(sets: seq<CacheSet>, parts: seq<Parts>, e: nat) {
    && e >= 1 && AllProper(sets, e) && |parts| == |sets|
    && forall i {:trigger sets[i]} | 0 <= i < |sets| :: parts[i] == PartsOf(sets[i])
  }

  /** For any number of lines per set the simulator and the reference stay in step over every trace. */
  lemma {:induction false} PartsAgreeFrom(sets: seq<CacheSet>, parts: seq<Parts>, e: nat, k: Counters, B: int,
      trace: seq<Op>)
    requires InStep(sets, parts, e) && InRange(trace, |sets|)
    ensures Simulate(sets, e, k, B, trace).1 == SimulateParts(parts, e, k, B, trace).1
    ensures InStep(Simulate(sets, e, k, B, trace).0, SimulateParts(parts, e, k, B, trace).0, e)
    decreases |trace|
  {
    hide Access, PartsAccess, PartsOf, Proper;
    if trace != [] {
      var op := trace[0];
      StepKeeps(sets, e, op);
      AccessIsParts(sets[op.index], op.tag, op.store);
      var (next, event) := Step(sets, op);
      var r := PartsAccess(parts[op.index], e, op.tag, op.store).0;
      PartsAgreeFrom(next, parts[op.index := r], e, Count(k, event, B), B, trace[1..]);
    }
  }

  /** From an empty cache, for any number of lines per set: all counters are those of the reference. */
  lemma PartsAgree(S: nat, e: nat, B: int, trace: seq<Op>)
    requires e >= 1 && InRange(trace, S)
    ensures AllProper(EmptySets(S, e), e)
    ensures Simulate(EmptySets(S, e), e, ZERO, B, trace).1
        == SimulateParts(seq(S, _ => Parts([], [])), e, ZERO, B, trace).1
  {
    EmptySetsProper(S, e);
    var parts := seq(S, _ => Parts([], []));
    forall i {:trigger EmptySets(S, e)[i]} | 0 <= i < S ensures parts[i] == PartsOf(EmptySets(S, e)[i]) { }
    PartsAgreeFrom(EmptySets(S, e), parts, e, ZERO, B, trace);
  }
}
