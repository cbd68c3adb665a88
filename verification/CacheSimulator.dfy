/** The cache simulator: sets of lines and statistics updated in place by each access. */
module CacheSimulator {
  import opened CacheSets
  import opened CacheTraces

  class SetObject {
    const lines: array<Line>
    var lru: int

    ghost function Value(): CacheSet
      reads this, lines
    {
      CacheSet(lines[..], lru)
    }

    constructor (e: nat)
      requires e >= 1
      ensures Value() == EmptySet(e) && fresh(lines)
    {
      lines := new Line[e](j => Line(0, false, false, j));
      lru := if e == 1 then 0 else -1;
    }
  }

  class Stats {
    var hits: int
    var misses: int
    var evictions: int
    var dirtyEvictions: int

    ghost function Value(): Counters
      reads this
    {
      Counters(hits, misses, evictions, dirtyEvictions)
    }

    constructor ()
      ensures Value() == ZERO
    {
      hits, misses, evictions, dirtyEvictions := 0, 0, 0, 0;
    }
  }

  /** The replacement mark after a use of line `index` in a set of e lines. */
  method Touch(s: SetObject, e: nat, index: int)
    modifies s`lru
    ensures s.lru == MarkAfter(e, index, old(s.lru))
  {
    if e > 1 {
      if index == 1 {
        s.lru := 0;
      }
      if index == 0 {
        s.lru := 1;
      }
    }
  }

  /** load on the set that the address selects. */
  method Load(s: SetObject, tag: int, B: int, stats: Stats, store: bool)
    requires Proper(s.Value())
    modifies s, s.lines, stats
    ensures (s.Value(), Count(old(stats.Value()), Access(old(s.Value()), tag, store).1, B))
        == (Access(old(s.Value()), tag, store).0, stats.Value())
  {
    hide Proper;
    ghost var c := s.Value();
    ProperSize(c);
    var e := s.lines.Length;
    var i := 0;
    while i < e
      invariant 0 <= i <= e && s.Value() == c && stats.Value() == old(stats.Value())
          && Position(c.lines, tag, 0) == Position(c.lines, tag, i)
    {
      var L := s.lines[i];
      if !L.v {
        s.lines[i] := L.(tag := tag, v := true);
        if store {
          s.lines[i] := s.lines[i].(d := true);
        }
        Touch(s, e, L.index);
        stats.misses := stats.misses + 1;
        assert s.lines[..] == c.lines[i := Line(tag, store || L.d, true, L.index)];
        return;
      }
      if L.v && L.tag == tag {
        if store {
          s.lines[i] := L.(d := true);
        }
        Touch(s, e, L.index);
        stats.hits := stats.hits + 1;
        assert s.lines[..] == c.lines[i := L.(d := store || L.d)];
        return;
      }
      i := i + 1;
    }
    FullMark(c, tag);
    var r := s.lru;
    var replace := s.lines[r];
    s.lines[r] := replace.(tag := tag);
    if replace.d {
      s.lines[r] := s.lines[r].(d := false);
      stats.dirtyEvictions := stats.dirtyEvictions + B;
    }
    if store {
      s.lines[r] := s.lines[r].(d := true);
    }
    Touch(s, e, replace.index);
    stats.evictions := stats.evictions + 1;
    stats.misses := stats.misses + 1;
    assert s.lines[..] == c.lines[r := Line(tag, store, replace.v, replace.index)];
  }

  lemma ProperSize(c: CacheSet)
    requires Proper(c)
    ensures |c.lines| >= 1
  {
  }

  /** When no line is free or matches, the replacement mark is the number of a line. */
  lemma FullMark(c: CacheSet, tag: int)
    requires Proper(c) && Position(c.lines, tag, 0) == |c.lines|
    ensures 0 <= c.lru < |c.lines|
  {
    PositionIs(c.lines, tag, 0);
    assert c.lines[0].v;
  }

  class Cache {
    const B: int
    const E: nat
    const sets: seq<SetObject>
    ghost const frames: set<object>

    /** Sets and lines belong to one cache and to one set each. */
    ghost predicate Separate() {
      && E >= 1
      && frames == (set s: SetObject | s in sets :: s as object) + (set s: SetObject | s in sets :: s.lines as object)
      && (forall i, j {:trigger sets[i], sets[j]} :: 0 <= i < j < |sets| ==>
           sets[i] != sets[j] && sets[i].lines != sets[j].lines)
    }

    ghost function Value(): (v: seq<CacheSet>)
      reads sets, set s | s in sets :: s.lines
      ensures |v| == |sets| && forall i :: 0 <= i < |sets| ==> v[i] == sets[i].Value()
    {
      seq(|sets|, i requires 0 <= i < |sets| reads sets, set s | s in sets :: s.lines => sets[i].Value())
    }

    ghost predicate Valid()
      reads sets, set s | s in sets :: s.lines
    {
      Separate() && AllProper(Value(), E)
    }

    /** initCache with 2^s sets of E lines and blocks of 2^b bytes. */
    constructor (S: nat, E: nat, B: int)
      requires E >= 1
      ensures Valid() && Value() == EmptySets(S, E) && this.E == E && this.B == B && fresh(frames)
    {
      this.E, this.B := E, B;
      var all: seq<SetObject> := [];
      var i := 0;
      while i < S
        invariant 0 <= i <= S && |all| == i
        invariant forall j {:trigger all[j]} :: 0 <= j < i ==>
            fresh(all[j]) && fresh(all[j].lines)
            && all[j].Value() == EmptySet(E)
        invariant forall j, k {:trigger all[j], all[k]} :: 0 <= j < k < i ==>
            all[j] != all[k] && all[j].lines != all[k].lines
      {
        var s := new SetObject(E);
        all := all + [s];
        i := i + 1;
      }
      sets := all;
      frames := (set s: SetObject | s in all :: s as object) + (set s: SetObject | s in all :: s.lines as object);
      new;
      EmptySetsProper(S, E);
      assert Value() == EmptySets(S, E);
    }

    /** An access to the set with this number. */
    method Access(index: nat, tag: int, stats: Stats, store: bool)
      requires Valid() && index < |sets|
      modifies frames, stats
      ensures Valid() && |old(Value()[index]).lines| >= 1
      ensures var (next, event) := Step(old(Value()), Op(index, tag, store));
              Value() == next && stats.Value() == Count(old(stats.Value()), event, B)
    {
      ghost var before := Value();
      StepKeeps(before, E, Op(index, tag, store));
      Load(sets[index], tag, B, stats, store);
      forall i | 0 <= i < |sets| && i != index ensures sets[i].Value() == old(sets[i].Value()) {
        assert sets[i] != sets[index] && sets[i].lines != sets[index].lines;
      }
      assert Value() == Step(before, Op(index, tag, store)).0;
    }

    /** A whole trace. */
    method RunTrace(trace: seq<Op>, stats: Stats)
      requires Valid() && InRange(trace, |sets|)
      modifies frames, stats
      ensures Valid() && (Value(), stats.Value()) == Simulate(old(Value()), E, old(stats.Value()), B, trace)
    {
      ghost var v, k := Value(), stats.Value();
      var i := 0;
      assert trace[0..] == trace;
      while i < |trace|
        invariant 0 <= i <= |trace| && Valid()
        invariant InRange(trace[i..], |sets|) && Simulate(Value(), E, stats.Value(), B, trace[i..])
            == Simulate(v, E, k, B, trace)
      {
        assert trace[i..][0] == trace[i] && trace[i..][1..] == trace[i + 1..];
        Access(trace[i].index, trace[i].tag, stats, trace[i].store);
        i := i + 1;
      }
    }
  }
}
