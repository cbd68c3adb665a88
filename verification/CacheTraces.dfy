/** Whole traces: the simulator and the reference side by side, and what is conserved. */
module CacheTraces {
  import opened CacheSets

  datatype Counters = Counters(hits: int, misses: int, evictions: int, dirtyEvictions: int)

  datatype Op = Op(index: nat, tag: int, store: bool)

  const ZERO := Counters(0, 0, 0, 0)

  function Count(k: Counters, e: Event, B: int): Counters {
    match e
    case Hit => k.(hits := k.hits + 1)
    case Miss => k.(misses := k.misses + 1)
    case Evict(dirty) =>
      k.(misses := k.misses + 1, evictions := k.evictions + 1,
         dirtyEvictions := if dirty then k.dirtyEvictions + B else k.dirtyEvictions)
  }

  ghost predicate AllProper(sets: seq<CacheSet>, e: nat) {
    forall i {:trigger sets[i]} | 0 <= i < |sets| :: Proper(sets[i]) && |sets[i].lines| == e
  }

  ghost predicate InRange(trace: seq<Op>, n: nat) {
    forall i {:trigger trace[i]} | 0 <= i < |trace| :: trace[i].index < n
  }

  /** One access: the cache, the event, and whether a clean line became dirty. */
  function Step(sets: seq<CacheSet>, op: Op): (seq<CacheSet>, Event)
    requires op.index < |sets| && |sets[op.index].lines| >= 1
  {
    var (d, e) := Access(sets[op.index], op.tag, op.store);
    (sets[op.index := d], e)
  }

  lemma StepKeeps(sets: seq<CacheSet>, e: nat, op: Op)
    requires AllProper(sets, e) && op.index < |sets|
    ensures |sets[op.index].lines| >= 1 && |Step(sets, op).0| == |sets| && AllProper(Step(sets, op).0, e)
  {
    AccessKeeps(sets[op.index], op.tag, op.store);
  }

  /** The cache and the counters after a trace. */
  function Simulate(sets: seq<CacheSet>, e: nat, k: Counters, B: int, trace: seq<Op>): (seq<CacheSet>, Counters)
    requires AllProper(sets, e) && InRange(trace, |sets|)
    decreases |trace|
  {
    if trace == [] then (sets, k)
    else
      StepKeeps(sets, e, trace[0]);
      var (next, event) := Step(sets, trace[0]);
      Simulate(next, e, Count(k, event, B), B, trace[1..])
  }

  // ----- conservation -----

  function SumValid(sets: seq<CacheSet>): nat {
    if sets == [] then 0 else SumValid(sets[..|sets| - 1]) + ValidLines(sets[|sets| - 1].lines)
  }

  function SumDirty(sets: seq<CacheSet>): nat {
    if sets == [] then 0 else SumDirty(sets[..|sets| - 1]) + DirtyLines(sets[|sets| - 1].lines)
  }

  lemma {:induction false} SumUpdate(sets: seq<CacheSet>, p: nat, c: CacheSet)
    requires p < |sets|
    ensures SumValid(sets[p := c]) == SumValid(sets) + ValidLines(c.lines) - ValidLines(sets[p].lines)
    ensures SumDirty(sets[p := c]) == SumDirty(sets) + DirtyLines(c.lines) - DirtyLines(sets[p].lines)
  {
    var n := |sets| - 1;
    if p < n {
      assert sets[p := c][..n] == sets[..n][p := c];
      SumUpdate(sets[..n], p, c);
    } else {
      assert sets[p := c][..n] == sets[..n];
    }
  }

  function One(b: bool): nat {
    if b then 1 else 0
  }

  /** The number of times in a trace that a clean line becomes dirty. */
  function Dirtied(sets: seq<CacheSet>, e: nat, trace: seq<Op>): nat
    requires AllProper(sets, e) && InRange(trace, |sets|)
    decreases |trace|
  {
    if trace == [] then 0
    else
      StepKeeps(sets, e, trace[0]);
      One(Dirties(sets[trace[0].index], trace[0].tag, trace[0].store)) + Dirtied(Step(sets, trace[0]).0, e, trace[1..])
  }

  /** One access: hits and misses make up the accesses, misses not evicting fill lines, and dirtied lines
      stay dirty until evicted. */
  lemma StepConserves(sets: seq<CacheSet>, e: nat, k: Counters, B: int, op: Op)
    requires AllProper(sets, e) && op.index < |sets| && |sets[op.index].lines| >= 1
    ensures var (next, event) := Step(sets, op); var j := Count(k, event, B);
            && j.hits + j.misses == k.hits + k.misses + 1
            && j.misses - j.evictions - SumValid(next) == k.misses - k.evictions - SumValid(sets)
            && j.dirtyEvictions == k.dirtyEvictions + (if event.Evict? && event.dirty then B else 0)
            && SumDirty(next) == SumDirty(sets) + One(Dirties(sets[op.index], op.tag, op.store))
                                 - One(event.Evict? && event.dirty)
  {
    var c := sets[op.index];
    AccessKeeps(c, op.tag, op.store);
    SumUpdate(sets, op.index, Access(c, op.tag, op.store).0);
    hide Access, SumValid, SumDirty, ValidLines, DirtyLines, Dirties;
  }

  /** Bytes in dirty lines: what is made dirty either leaves or stays. */
  lemma Balance(B: int, out0: int, out1: int, n0: int, n1: int, made: int, left: int)
    requires out1 == out0 + B * left && n1 == n0 + made - left
    ensures out1 + B * n1 == out0 + B * n0 + B * made
  {
    assert B * n1 == B * n0 + B * made - B * left by {
      TimesSum(B, n0, made);
      TimesSum(B, n0 + made, -left);
      TimesSum(B, left, -left);
    }
  }

  lemma TimesSum(B: int, n: int, d: int)
    ensures B * (n + d) == B * n + B * d
  {
  }

  lemma TimesOne(B: int)
    ensures B * 1 == B && B * 0 == 0
  {
  }

  /** Over any trace, for any number of lines per set. */
  lemma {:induction false} Conserved(sets: seq<CacheSet>, e: nat, k: Counters, B: int, trace: seq<Op>)
    requires AllProper(sets, e) && InRange(trace, |sets|)
    ensures var (after, j) := Simulate(sets, e, k, B, trace);
            && AllProper(after, e) && |after| == |sets|
            && j.hits + j.misses == k.hits + k.misses + |trace|
            && j.misses - j.evictions - SumValid(after) == k.misses - k.evictions - SumValid(sets)
            && j.dirtyEvictions + B * SumDirty(after) == k.dirtyEvictions + B * SumDirty(sets)
               + B * Dirtied(sets, e, trace)
    decreases |trace|
  {
    hide AllProper, Access, Step, Count, SumValid, SumDirty, Dirties;
    if trace != [] {
      var op := trace[0];
      StepKeeps(sets, e, op);
      StepConserves(sets, e, k, B, op);
      var (next, event) := Step(sets, op);
      var made, left := One(Dirties(sets[op.index], op.tag, op.store)), One(event.Evict? && event.dirty);
      TimesOne(B);
      Balance(B, k.dirtyEvictions, Count(k, event, B).dirtyEvictions, SumDirty(sets), SumDirty(next), made, left);
      Conserved(next, e, Count(k, event, B), B, trace[1..]);
      TimesSum(B, made, Dirtied(next, e, trace[1..]));
    } else {
      TimesOne(B);
    }
  }

  function EmptySets(S: nat, e: nat): seq<CacheSet>
    requires e >= 1
  {
    seq(S, _ => EmptySet(e))
  }

  lemma EmptySetsProper(S: nat, e: nat)
    requires e >= 1
    ensures AllProper(EmptySets(S, e), e)
  {
    EmptyProper(e);
  }

  lemma {:induction false} EmptyCounts(S: nat, e: nat)
    requires e >= 1
    ensures SumValid(EmptySets(S, e)) == 0 && SumDirty(EmptySets(S, e)) == 0
  {
    if S > 0 {
      EmptyCounts(S - 1, e);
      assert EmptySets(S, e)[..S - 1] == EmptySets(S - 1, e);
      NoLines(e, e);
    }
  }

  lemma {:induction false} NoLines(e: nat, n: nat)
    requires n <= e && e >= 1
    ensures ValidLines(EmptySet(e).lines[..n]) == 0 && DirtyLines(EmptySet(e).lines[..n]) == 0
    ensures EmptySet(e).lines[..e] == EmptySet(e).lines
  {
    if n > 0 {
      NoLines(e, n - 1);
      assert EmptySet(e).lines[..n][..n - 1] == EmptySet(e).lines[..n - 1];
    }
  }

  /** From an empty cache with zero counters: hits and misses are the accesses, misses less evictions the
      valid lines, and B bytes for every line made dirty are either evicted or still dirty. */
  lemma FromEmpty(S: nat, e: nat, B: int, trace: seq<Op>)
    requires e >= 1 && InRange(trace, S)
    ensures AllProper(EmptySets(S, e), e)
    ensures var (after, k) := Simulate(EmptySets(S, e), e, ZERO, B, trace);
            && k.hits + k.misses == |trace|
            && k.misses - k.evictions == SumValid(after)
            && B * Dirtied(EmptySets(S, e), e, trace) == k.dirtyEvictions + B * SumDirty(after)
  {
    EmptySetsProper(S, e);
    EmptyCounts(S, e);
    Conserved(EmptySets(S, e), e, ZERO, B, trace);
  }

  // ----- the reference -----

  function SimulateReference(lists: seq<seq<Block>>, e: nat, k: Counters, B: int, trace: seq<Op>):
      (seq<seq<Block>>, Counters)
    requires e >= 1 && InRange(trace, |lists|)
    decreases |trace|
  {
    if trace == [] then (lists, k)
    else
      var op := trace[0];
      var (r, event) := Reference(lists[op.index], e, op.tag, op.store);
      SimulateReference(lists[op.index := r], e, Count(k, event, B), B, trace[1..])
  }

  ghost predicate Lists(sets: seq<CacheSet>, lists: seq<seq<Block>>, e: nat) {
    && 1 <= e <= 2 && AllProper(sets, e) && |lists| == |sets|
    && forall i {:trigger sets[i]} | 0 <= i < |sets| :: lists[i] == Recency(sets[i])
  }

  /** With one or two lines per set the simulator and the reference stay in step over every trace. */
  lemma {:induction false} AgreesFrom(sets: seq<CacheSet>, lists: seq<seq<Block>>, e: nat, k: Counters, B: int,
      trace: seq<Op>)
    requires Lists(sets, lists, e) && InRange(trace, |sets|)
    ensures Simulate(sets, e, k, B, trace).1 == SimulateReference(lists, e, k, B, trace).1
    ensures Lists(Simulate(sets, e, k, B, trace).0, SimulateReference(lists, e, k, B, trace).0, e)
    decreases |trace|
  {
    if trace != [] {
      var op := trace[0];
      StepKeeps(sets, e, op);
      AccessIsReference(sets[op.index], op.tag, op.store);
      var (next, event) := Step(sets, op);
      var r := Reference(lists[op.index], e, op.tag, op.store).0;
      AgreesFrom(next, lists[op.index := r], e, Count(k, event, B), B, trace[1..]);
    }
  }

  /** The simulator gives the counters of a least-recently-used cache on this trace. */
  ghost predicate Agrees(S: nat, e: nat, B: int, trace: seq<Op>)
    requires e >= 1 && InRange(trace, S)
  {
    EmptySetsProper(S, e);
    Simulate(EmptySets(S, e), e, ZERO, B, trace).1 == SimulateReference(seq(S, _ => []), e, ZERO, B, trace).1
  }

  // ----- three or more lines -----

  /** The lines of a set of size e after the tags 0 to n - 1. */
  function Filled(e: nat, n: nat): CacheSet
    requires n <= e && e >= 3
  {
    CacheSet(seq(e, j => if j < n then Line(j, false, true, j) else Line(0, false, false, j)),
             if n == 0 then -1 else if n == 1 then 1 else 0)
  }

  /** The tags n - 1 down to 0. */
  function Downward(n: nat): seq<Block> {
    if n == 0 then [] else [Block(n - 1, false)] + Downward(n - 1)
  }

  lemma {:induction false} DownwardIs(n: nat)
    ensures |Downward(n)| == n && forall i {:trigger Downward(n)[i]} :: 0 <= i < n ==>
        Downward(n)[i] == Block(n - 1 - i, false)
  {
    if n > 0 { DownwardIs(n - 1); }
  }

  lemma {:induction false} FindAbsent(r: seq<Block>, tag: int)
    requires forall i {:trigger r[i]} :: 0 <= i < |r| ==> r[i].tag != tag
    ensures Find(r, tag) == |r|
  {
    if r != [] { FindAbsent(r[1..], tag); }
  }

  lemma FilledNext(e: nat, n: nat)
    requires n < e && e >= 3
    ensures Access(Filled(e, n), n, false) == (Filled(e, n + 1), Miss)
    ensures Reference(Downward(n), e, n, false) == (Downward(n + 1), Miss)
  {
    var c := Filled(e, n);
    PositionIs(c.lines, n, 0);
    var p := Position(c.lines, n, 0);
    assert !c.lines[n].v;
    assert p < e ==> c.lines[p] == if p < n then Line(p, false, true, p) else Line(0, false, false, p);
    assert p == n;
    assert Access(c, n, false).0.lines == Filled(e, n + 1).lines;
    DownwardIs(n);
    FindAbsent(Downward(n), n);
  }

  /** An absent tag in a full set goes to the line marked for replacement. */
  lemma AbsentEvicts(c: CacheSet, tag: int)
    requires |c.lines| >= 1 && 0 <= c.lru < |c.lines|
    requires forall i {:trigger c.lines[i]} :: 0 <= i < |c.lines| ==>
        c.lines[i].v && !c.lines[i].d
        && c.lines[i].index == i && c.lines[i].tag != tag
    ensures Access(c, tag, false) == (CacheSet(c.lines[c.lru := Line(tag, false, true, c.lru)],
        MarkAfter(|c.lines|, c.lru, c.lru)), Evict(false))
  {
    PositionIs(c.lines, tag, 0);
  }

  lemma ReferenceEvicts(r: seq<Block>, tag: int)
    requires |r| >= 1 && forall i {:trigger r[i]} :: 0 <= i < |r| ==> r[i].tag != tag && !r[i].d
    ensures Reference(r, |r|, tag, false) == ([Block(tag, false)] + r[..|r| - 1], Evict(false))
  {
    FindAbsent(r, tag);
  }

  /** The four accesses after the set is full: the last one hits the reference and misses the simulator. */
  lemma LastFour(e: nat)
    requires e >= 3
    ensures var c0 := Filled(e, e); var c1 := Access(c0, e, false); var c2 := Access(c1.0, e + 1, false);
        var c3 := Access(c2.0, e + 2, false);
            && |c1.0.lines| == |c2.0.lines| == |c3.0.lines| == e
            && c1.1 == c2.1 == c3.1 == Access(c3.0, e, false).1 == Evict(false)
    ensures var r0 := Downward(e); var r1 := Reference(r0, e, e, false); var r2 := Reference(r1.0, e, e + 1, false);
        var r3 := Reference(r2.0, e, e + 2, false);
            && r1.1 == r2.1 == r3.1 == Evict(false) && Reference(r3.0, e, e, false).1 == Hit
  {
    var c0 := Filled(e, e);
    AbsentEvicts(c0, e);
    var c1 := Access(c0, e, false).0;
    AbsentEvicts(c1, e + 1);
    var c2 := Access(c1, e + 1, false).0;
    AbsentEvicts(c2, e + 2);
    var c3 := Access(c2, e + 2, false).0;
    AbsentEvicts(c3, e);
    LastFourReference(e);
  }

  lemma LastFourReference(e: nat)
    requires e >= 3
    ensures var r0 := Downward(e); var r1 := Reference(r0, e, e, false); var r2 := Reference(r1.0, e, e + 1, false);
        var r3 := Reference(r2.0, e, e + 2, false);
            && r1.1 == r2.1 == r3.1 == Evict(false) && Reference(r3.0, e, e, false).1 == Hit
  {
    var r0 := Downward(e);
    DownwardIs(e);
    ReferenceEvicts(r0, e);
    var r1 := [Block(e, false)] + r0[..e - 1];
    ReferenceEvicts(r1, e + 1);
    var r2 := [Block(e + 1, false)] + r1[..e - 1];
    ReferenceEvicts(r2, e + 2);
    var r3 := [Block(e + 2, false)] + r2[..e - 1];
    assert r3[2].tag == e;
    FindSome(r3, e, 2);
  }

  lemma {:induction false} FindSome(r: seq<Block>, tag: int, i: nat)
    requires i < |r| && r[i].tag == tag
    ensures Find(r, tag) < |r|
  {
    if r[0].tag != tag { FindSome(r[1..], tag, i - 1); }
  }

  /** The tags n to e - 1, then e, e + 1, e + 2 and e again. */
  function Breaking(e: nat, n: nat): (t: seq<Op>)
    requires n <= e
    ensures InRange(t, 1)
    decreases e - n
  {
    if n == e then [Op(0, e, false), Op(0, e + 1, false), Op(0, e + 2, false), Op(0, e, false)]
    else [Op(0, n, false)] + Breaking(e, n + 1)
  }

  lemma FilledLines(e: nat, n: nat)
    requires n <= e && e >= 3
    ensures |Filled(e, n).lines| == e && (n == 0 ==> Filled(e, n) == EmptySet(e))
  {
    assert n == 0 ==> Filled(e, n).lines == EmptySet(e).lines;
  }

  lemma FilledProper(e: nat, n: nat)
    requires n <= e && e >= 3
    ensures AllProper([Filled(e, n)], e)
  {
    var c := Filled(e, n);
    assert |[c]| == 1 && [c][0] == c;
  }

  /** One step of each simulation on a single set. */
  lemma OneSet(c: CacheSet, r: seq<Block>, e: nat, k: Counters, B: int, op: Op, rest: seq<Op>)
    requires AllProper([c], e) && e >= 1 && op.index == 0 && InRange(rest, 1)
    ensures InRange([op] + rest, 1) && |c.lines| == e
    ensures var (d, event) := Access(c, op.tag, op.store);
            AllProper([d], e) && Simulate([c], e, k, B, [op] + rest) == Simulate([d], e, Count(k, event, B), B, rest)
    ensures var (q, event) := Reference(r, e, op.tag, op.store);
            SimulateReference([r], e, k, B, [op] + rest) == SimulateReference([q], e, Count(k, event, B), B, rest)
  {
    var t := [op] + rest;
    assert t[0] == op && t[1..] == rest;
    assert [c][0] == c && [r][0] == r;
    StepKeeps([c], e, op);
    var d, q := Access(c, op.tag, op.store).0, Reference(r, e, op.tag, op.store).0;
    assert [c][0 := d] == [d] && [r][0 := q] == [q];
  }

  lemma {:induction false} BreaksFrom(e: nat, n: nat, k: Counters, j: Counters, B: int)
    requires n <= e && e >= 3
    ensures AllProper([Filled(e, n)], e)
    ensures Simulate([Filled(e, n)], e, k, B, Breaking(e, n)).1.hits == k.hits
    ensures SimulateReference([Downward(n)], e, j, B, Breaking(e, n)).1.hits == j.hits + 1
    decreases e - n
  {
    hide AllProper, Access, Reference, Simulate, SimulateReference, Filled, Downward, InRange;
    FilledProper(e, n);
    if n < e {
      FilledNext(e, n);
      OneSet(Filled(e, n), Downward(n), e, k, B, Op(0, n, false), Breaking(e, n + 1));
      OneSet(Filled(e, n), Downward(n), e, j, B, Op(0, n, false), Breaking(e, n + 1));
      BreaksFrom(e, n + 1, Count(k, Miss, B), Count(j, Miss, B), B);
    } else {
      BreaksAtEnd(e, k, B);
      BreaksAtEnd(e, j, B);
    }
  }

  lemma BreaksAtEnd(e: nat, k: Counters, B: int)
    requires e >= 3
    ensures AllProper([Filled(e, e)], e)
    ensures Simulate([Filled(e, e)], e, k, B, Breaking(e, e)).1.hits == k.hits
    ensures SimulateReference([Downward(e)], e, k, B, Breaking(e, e)).1.hits == k.hits + 1
  {
    hide AllProper, Access, Reference, Simulate, SimulateReference, Filled, Downward, InRange;
    FilledProper(e, e);
    assert |Filled(e, e).lines| == e by { FilledLines(e, e); }
    LastFour(e);
    var o0, o1, o2, o3 := Op(0, e, false), Op(0, e + 1, false), Op(0, e + 2, false), Op(0, e, false);
    var c0, r0 := Filled(e, e), Downward(e);
    var c1, r1 := Access(c0, e, false).0, Reference(r0, e, e, false).0;
    var c2, r2 := Access(c1, e + 1, false).0, Reference(r1, e, e + 1, false).0;
    var c3, r3 := Access(c2, e + 2, false).0, Reference(r2, e, e + 2, false).0;
    EndRange(e);
    var k1 := Count(k, Evict(false), B);
    var k2 := Count(k1, Evict(false), B);
    var k3 := Count(k2, Evict(false), B);
    OneSet(c0, r0, e, k, B, o0, [o1, o2, o3]);
    OneSet(c1, r1, e, k1, B, o1, [o2, o3]);
    OneSet(c2, r2, e, k2, B, o2, [o3]);
    OneSet(c3, r3, e, k3, B, o3, []);
    assert [o0] + [o1, o2, o3] == Breaking(e, e) && [o1] + [o2, o3] == [o1, o2, o3] && [o2] + [o3] == [o2, o3]
        && [o3] + [] == [o3];
    Finished([Access(c3, e, false).0], [Reference(r3, e, e, false).0], e, Count(k3, Evict(false), B), B);
    Finished([Access(c3, e, false).0], [Reference(r3, e, e, false).0], e, Count(k3, Hit, B), B);
  }

  lemma EndRange(e: nat)
    ensures InRange([Op(0, e + 1, false), Op(0, e + 2, false), Op(0, e, false)], 1)
    ensures InRange([Op(0, e + 2, false), Op(0, e, false)], 1) && InRange([Op(0, e, false)], 1) && InRange([], 1)
  {
  }

  lemma Finished(sets: seq<CacheSet>, lists: seq<seq<Block>>, e: nat, k: Counters, B: int)
    requires AllProper(sets, e) && e >= 1
    ensures InRange([], |sets|) && InRange([], |lists|)
    ensures Simulate(sets, e, k, B, []).1 == k && SimulateReference(lists, e, k, B, []).1 == k
  {
  }

  /** The simulator is a least-recently-used cache for one and two lines per set and for no other number. */
  lemma AgreesExactly(e: nat, B: int)
    requires e >= 1
    ensures e <= 2 <==> forall S: nat, trace: seq<Op> {:trigger Agrees(S, e, B, trace)} :: InRange(trace, S) ==>
        Agrees(S, e, B, trace)
  {
    hide Simulate, SimulateReference, Breaking, AllProper, Recency;
    if e <= 2 {
      forall S: nat, trace: seq<Op> {:trigger Agrees(S, e, B, trace)} | InRange(trace, S)
        ensures Agrees(S, e, B, trace)
      {
        EmptySetsProper(S, e);
        EmptyLists(S, e);
        AgreesFrom(EmptySets(S, e), seq(S, _ => []), e, ZERO, B, trace);
      }
    } else {
      BreaksFrom(e, 0, ZERO, ZERO, B);
      EmptySetsProper(1, e);
      FilledLines(e, 0);
      assert EmptySets(1, e) == [Filled(e, 0)];
      var none: seq<seq<Block>> := seq(1, _ => []);
      assert none == [Downward(0)];
      assert !Agrees(1, e, B, Breaking(e, 0));
    }
  }

  lemma EmptyLists(S: nat, e: nat)
    requires 1 <= e <= 2
    ensures Lists(EmptySets(S, e), seq(S, _ => []), e)
  {
    EmptySetsProper(S, e);
  }
}
