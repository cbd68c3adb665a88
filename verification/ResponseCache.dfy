/** The proxy's response cache: a linked queue with a head and a tail pointer, eviction at the head, and a
    move to the tail on every use. */
module ResponseCache {
  import opened CacheQueues

  class Obj {
    const key: string
    const value: string
    const len: nat
    var next: Obj?

    constructor (key: string, value: string, len: nat)
      ensures this.key == key && this.value == value && this.len == len && next == null
    {
      this.key, this.value, this.len := key, value, len;
      next := null;
    }
  }

  function Lens(q: seq<Obj>): (s: seq<nat>)
    ensures |s| == |q| && forall i :: 0 <= i < |q| ==> s[i] == q[i].len
  {
    seq(|q|, i requires 0 <= i < |q| => q[i].len)
  }

  class Cache {
    var head: Obj?
    var tail: Obj?
    var size: int
    ghost var queue: seq<Obj>     // from head to tail

    /** Object i of the queue leads to the next one. */
    ghost predicate Leads(q: seq<Obj>, i: nat)
      requires i < |q|
      reads q
    {
      q[i].next == if i + 1 < |q| then q[i + 1] else null
    }

    static ghost predicate Apart(q: seq<Obj>) {
      && (forall i, j {:trigger q[i], q[j]} :: 0 <= i < j < |q| ==> q[i] != q[j] && q[i].key != q[j].key)
      && (forall i {:trigger q[i]} :: 0 <= i < |q| ==> q[i].len <= MAX_OBJECT_SIZE)
    }

    ghost predicate Linked(q: seq<Obj>)
      reads q
    {
      forall i {:trigger Leads(q, i)} | 0 <= i < |q| :: Leads(q, i)
    }

    /** The head and the tail are those of the queue. */
    ghost predicate Ends(q: seq<Obj>)
      reads this`head, this`tail
    {
      if q == [] then head == null else head == q[0] && tail == q[|q| - 1]
    }

    /** The pointers describe a queue of objects with different keys, and the size is their total length. */
    ghost predicate Valid()
      reads this, queue
    {
      Apart(queue) && Linked(queue) && size == Sum(Lens(queue)) && Ends(queue)
    }

    constructor ()
      ensures Valid() && queue == []
    {
      head, tail, size, queue := null, null, 0, [];
    }

    /** The first object with the key, or NULL. */
    method Find(key: string) returns (r: Obj?)
      requires Valid()
      ensures r == null <==> forall i {:trigger queue[i]} :: 0 <= i < |queue| ==> queue[i].key != key
      ensures r != null ==> r in queue && r.key == key
    {
      r := head;
      ghost var i := 0;
      while r != null
        invariant 0 <= i <= |queue| && r == (if i < |queue| then queue[i] else null)
        invariant forall j {:trigger queue[j]} :: 0 <= j < i ==> queue[j].key != key
        decreases |queue| - i
      {
        if r.key == key {
          return r;
        }
        assert Leads(queue, i);
        r := r.next;
        i := i + 1;
      }
    }

    lemma DropFirst()
      requires Apart(queue) && Linked(queue) && queue != []
      ensures Apart(queue[1..]) && Linked(queue[1..]) && Lens(queue[1..]) == Lens(queue)[1..]
          && Lens(queue)[0] == queue[0].len
      ensures queue[0].next == if |queue| > 1 then queue[1] else null
      ensures Sum(Lens(queue)) == queue[0].len + Sum(Lens(queue[1..]))
    {
      assert Leads(queue, 0);
      forall i {:trigger Leads(queue[1..], i)} | 0 <= i < |queue| - 1 ensures Leads(queue[1..], i) {
        assert Leads(queue, i + 1);
      }
      assert Lens(queue[1..]) == Lens(queue)[1..];
    }

    static lemma EvictedStep(lens: seq<nat>, freed: nat, need: nat)
      requires freed + 1 < need && lens != []
      ensures Evicted(lens, freed, need) == 1 + Evicted(lens[1..], freed + lens[0], need)
    {
    }

    static lemma EvictedStop(lens: seq<nat>, freed: nat, need: nat)
      requires freed + 1 >= need
      ensures Evicted(lens, freed, need) == 0
    {
    }

    /** Removes objects from the head until they free, but for one byte, what is needed. The caller has
        counted the new object already. */
    method Evict(need: nat, ghost extra: int)
      requires Apart(queue) && Linked(queue) && size == Sum(Lens(queue)) + extra && queue != [] && Ends(queue)
      requires Evicted(Lens(queue), 0, need) < |queue|
      modifies this`head, this`size, this`queue
      ensures Apart(queue) && Linked(queue) && size == Sum(Lens(queue)) + extra && queue != [] && Ends(queue)
      ensures queue == old(queue)[Evicted(old(Lens(queue)), 0, need)..]
    {
      hide Apart, Linked, Lens, Sum, Evicted;
      var freed: nat := 0;
      ghost var all, n := queue, 0;
      while freed + 1 < need
        invariant 0 <= n < |all| && queue == all[n..] && Ends(queue)
        invariant Apart(queue) && Linked(queue) && size == Sum(Lens(queue)) + extra
        invariant n + Evicted(Lens(queue), freed, need) == Evicted(Lens(all), 0, need)
        decreases |all| - n
      {
        DropFirst();
        EvictedStep(Lens(queue), freed, need);
        var first := head;
        head := head.next;
        freed := freed + first.len;
        size := size - first.len;
        queue := queue[1..];
        n := n + 1;
      }
      EvictedStop(Lens(queue), freed, need);
    }

    /** The end of cacheAdd: obj becomes the tail. */
    method Append(obj: Obj)
      requires Apart(queue + [obj]) && Linked(queue) && Ends(queue)
      modifies this`head, this`tail, this`queue, obj`next, queue
      ensures queue == old(queue) + [obj] && Apart(queue) && Linked(queue) && Ends(queue)
    {
      ghost var q := queue;
      LastApart(q, obj);
      forall i {:trigger Leads(q, i)} | 0 <= i < |q|
        ensures q[i].next == (if i + 1 < |q| then q[i + 1] else null)
      {
        assert Leads(q, i);
      }
      obj.next := null;
      if head == null {
        head, tail := obj, obj;
      } else {
        tail.next := obj;
        tail := obj;
      }
      queue := q + [obj];
      forall i {:trigger Leads(queue, i)} | 0 <= i < |queue| ensures Leads(queue, i) {
        if i < |q| - 1 { assert old(Leads(q, i)) && q[i] != q[|q| - 1] && q[i] != obj; }
      }
    }

    static lemma LastApart(q: seq<Obj>, obj: Obj)
      requires Apart(q + [obj])
      ensures Apart(q) && obj !in q
    {
      var t := q + [obj];
      forall i, j {:trigger q[i], q[j]} | 0 <= i < j < |q|
        ensures q[i] != q[j] && q[i].key != q[j].key
      {
        assert t[i] == q[i] && t[j] == q[j];
      }
      forall i {:trigger q[i]} | 0 <= i < |q|
        ensures q[i].len <= MAX_OBJECT_SIZE && q[i] != obj
      {
        assert t[i] == q[i] && t[|q|] == obj;
      }
    }

    static lemma ApartMore(q: seq<Obj>, obj: Obj)
      requires Apart(q) && obj !in q && obj.len <= MAX_OBJECT_SIZE && forall i {:trigger q[i]} :: 0 <= i < |q| ==>
          q[i].key != obj.key
      ensures Apart(q + [obj])
    {
    }

    static lemma ApartRest(q: seq<Obj>, n: nat)
      requires Apart(q) && n <= |q|
      ensures Apart(q[n..])
    {
    }

    /** What adding will do to the queue of lengths. */
    lemma AddPlan(len: nat)
      requires Valid() && len <= MAX_OBJECT_SIZE
      ensures Apart(queue) && Linked(queue) && Ends(queue) && size == Sum(Lens(queue)) && |Lens(queue)| == |queue|
      ensures size + len > MAX_CACHE_SIZE ==> queue != [] && Evicted(Lens(queue), 0, len) < |queue|
      ensures Added(Lens(queue), len) == (if size + len > MAX_CACHE_SIZE
          then Lens(queue)[Evicted(Lens(queue), 0, len)..] else Lens(queue)) + [len]
    {
      AddedBound(Lens(queue), len);
    }

    lemma AddBounded(len: nat)
      requires Valid() && len <= MAX_OBJECT_SIZE
      ensures Sum(Added(Lens(queue), len)) <= if size + 1 > MAX_CACHE_SIZE then size + 1 else MAX_CACHE_SIZE
      ensures size <= MAX_CACHE_SIZE ==> (Sum(Added(Lens(queue), len)) <= MAX_CACHE_SIZE <==> Within(Lens(queue), len))
    {
      AddedBound(Lens(queue), len);
      if size <= MAX_CACHE_SIZE { AddedWithin(Lens(queue), len); }
    }

    /** An addition exceeds the maximum only if the cache is full and a part of its head is one byte short. */
    static ghost predicate Within(lens: seq<nat>, len: nat) {
      Sum(lens) < MAX_CACHE_SIZE || !OneShort(lens, len)
    }

    /** What is left of a queue takes a new object with a new key. */
    static lemma KeptApart(all: seq<Obj>, q: seq<Obj>, obj: Obj)
      requires Apart(all) && |q| <= |all| && q == all[|all| - |q|..] && obj !in all && obj.len <= MAX_OBJECT_SIZE
      requires forall i {:trigger all[i]} :: 0 <= i < |all| ==> all[i].key != obj.key
      ensures Apart(q + [obj]) && Lens(q) == Lens(all)[|all| - |q|..] && |Lens(all)| == |all|
    {
      ApartRest(all, |all| - |q|);
      ApartMore(q, obj);
    }

    static lemma LensMore(q: seq<Obj>, obj: Obj)
      ensures Lens(q + [obj]) == Lens(q) + [obj.len]
      ensures Sum(Lens(q + [obj])) == Sum(Lens(q)) + obj.len
    {
      assert Lens(q + [obj]) == Lens(q) + [obj.len];
      SumSplit(Lens(q), [obj.len]);
      assert Sum([obj.len]) == obj.len + Sum([obj.len][1..]);
    }

    /** Counts a new object and evicts what the maximum asks for. */
    method MakeRoom(len: nat)
      requires Valid() && len <= MAX_OBJECT_SIZE
      modifies this`head, this`size, this`queue
      ensures Apart(old(queue)) && Apart(queue) && Linked(queue) && Ends(queue) && size == Sum(Lens(queue)) + len
      ensures |queue| <= |old(queue)| && queue == old(queue)[|old(queue)| - |queue|..]
      ensures Lens(queue) + [len] == Added(old(Lens(queue)), len)
    {
      hide Valid, Apart, Linked, Lens, Sum, Added, Evicted;
      ghost var all := queue;
      AddPlan(len);
      size := size + len;
      if size > MAX_CACHE_SIZE {
        Evict(len, len);
      }
      LensRest(all, |all| - |queue|);
    }

    static lemma LensRest(q: seq<Obj>, n: nat)
      requires n <= |q|
      ensures |Lens(q)| == |q| && Lens(q[n..]) == Lens(q)[n..] && q[0..] == q && Lens(q)[0..] == Lens(q)
    {
    }

    /** Adds a response unless its key is cached. */
    method Add(key: string, value: string, len: nat)
      requires Valid() && len <= MAX_OBJECT_SIZE
      modifies this, queue
      ensures Valid() && size <= if old(size) + 1 > MAX_CACHE_SIZE then old(size) + 1 else MAX_CACHE_SIZE
      ensures (exists i {:trigger old(queue)[i]} :: 0 <= i < |old(queue)| && old(queue)[i].key == key) ==>
          queue == old(queue)
      ensures (forall i {:trigger old(queue)[i]} :: 0 <= i < |old(queue)| ==> old(queue)[i].key != key) ==>
        && Lens(queue) == Added(old(Lens(queue)), len)
        && queue != [] && |queue| - 1 <= |old(queue)|
           && queue[..|queue| - 1] == old(queue)[|old(queue)| - (|queue| - 1)..]
        && (var o := queue[|queue| - 1]; fresh(o) && o.key == key && o.value == value && o.len == len)
        && (old(size) <= MAX_CACHE_SIZE ==> (size <= MAX_CACHE_SIZE <==> Within(old(Lens(queue)), len)))
    {
      hide Within, Valid, Apart, Linked, Lens, Sum, Added, Evicted;
      var found := Find(key);
      if found != null {
        return;
      }
      var obj := new Obj(key, value, len);
      ghost var all := queue;
      AddBounded(len);
      MakeRoom(len);
      KeptApart(all, queue, obj);
      Append(obj);
      LensMore(queue[..|queue| - 1], obj);
      Assemble();
    }

    lemma Assemble()
      requires Apart(queue) && Linked(queue) && size == Sum(Lens(queue)) && Ends(queue)
      ensures Valid()
    {
    }

    // ----- moving to the tail -----

    /** The queue with object p moved to its end. */
    static function Moved(q: seq<Obj>, p: nat): seq<Obj>
      requires p < |q|
    {
      q[..p] + q[p + 1..] + [q[p]]
    }

    /** The object comes last, and all others keep their order. */
    static lemma MovedOrder(q: seq<Obj>, p: nat, i: nat)
      requires p < |q| && i < |q|
      ensures |Moved(q, p)| == |q| && Moved(q, p)[|q| - 1] == q[p]
      ensures i < p ==> Moved(q, p)[i] == q[i]
      ensures p < i ==> Moved(q, p)[i - 1] == q[i]
    {
    }

    lemma LeadsTo(i: nat)
      requires Linked(queue) && i < |queue|
      ensures queue[i].next == if i + 1 < |queue| then queue[i + 1] else null
    {
      assert Leads(queue, i);
    }

    static lemma MovedApart(q: seq<Obj>, p: nat)
      requires Apart(q) && p < |q|
      ensures Apart(Moved(q, p)) && Sum(Lens(Moved(q, p))) == Sum(Lens(q))
    {
      var m := Moved(q, p);
      forall i, j {:trigger m[i], m[j]} | 0 <= i < j < |m| ensures m[i] != m[j] && m[i].key != m[j].key {
        assert m[i] == q[if i < p then i else i + 1];
        assert m[j] == q[if j == |q| - 1 then p else if j < p then j else j + 1];
      }
      var a, b := Lens(q[..p]), Lens(q[p + 1..]);
      hide Sum, Lens;
      LensParts(q, p);
      SumSplit(a, [q[p].len] + b);
      SumSplit([q[p].len], b);
      SumSplit(a + b, [q[p].len]);
      SumSplit(a, b);
    }

    static lemma LensParts(q: seq<Obj>, p: nat)
      requires p < |q|
      ensures Lens(q) == Lens(q[..p]) + ([q[p].len] + Lens(q[p + 1..]))
      ensures Lens(Moved(q, p)) == (Lens(q[..p]) + Lens(q[p + 1..])) + [q[p].len]
    {
    }

    /** The links of the objects of q. */
    ghost function Nexts(q: seq<Obj>): (n: seq<Obj?>)
      reads q
      ensures |n| == |q| && forall i {:trigger n[i]} :: 0 <= i < |q| ==> n[i] == q[i].next
    {
      seq(|q|, i requires 0 <= i < |q| reads q => q[i].next)
    }

    static ghost function Chain(q: seq<Obj>): (n: seq<Obj?>)
      ensures |n| == |q| && forall i {:trigger n[i]} :: 0 <= i < |q| ==> n[i] == if i + 1 < |q| then q[i + 1] else null
    {
      seq(|q|, i requires 0 <= i < |q| => if i + 1 < |q| then q[i + 1] else null)
    }

    lemma LinkedNexts(q: seq<Obj>)
      ensures Linked(q) <==> Nexts(q) == Chain(q)
    {
      forall i {:trigger Leads(q, i)} | 0 <= i < |q| ensures Leads(q, i) <==> Nexts(q)[i] == Chain(q)[i] { }
      if Nexts(q) == Chain(q) {
        assert Linked(q);
      }
      if Linked(q) {
        forall i | 0 <= i < |q| ensures Nexts(q)[i] == Chain(q)[i] { assert Leads(q, i); }
      }
    }

    /** The links after object p has been taken out and put behind the tail. */
    static ghost function Relinked(q: seq<Obj>, p: nat): seq<Obj?>
      requires p < |q|
    {
      var n := if p > 0 then Chain(q)[p - 1 := Chain(q)[p]] else Chain(q);
      n[p := null][|q| - 1 := q[p]]
    }

    lemma MovedLinked(q: seq<Obj>, p: nat)
      requires p + 1 < |q| && Nexts(q) == Relinked(q, p)
      ensures Linked(Moved(q, p))
    {
      var m := Moved(q, p);
      forall i | 0 <= i < |m| ensures Nexts(m)[i] == Chain(m)[i] {
        var j := if i == |q| - 1 then p else if i < p then i else i + 1;
        assert m[i] == q[j] && Nexts(m)[i] == Nexts(q)[j];
        if i + 1 < |m| {
          assert m[i + 1] == q[if i + 1 == |q| - 1 then p else if i + 1 < p then i + 1 else i + 2];
        }
      }
      LinkedNexts(m);
    }

    /** One link of a queue changes. */
    method SetNext(o: Obj, v: Obj?, ghost q: seq<Obj>, ghost j: nat)
      requires Apart(q) && j < |q| && q[j] == o
      modifies o`next
      ensures Nexts(q) == old(Nexts(q))[j := v]
    {
      o.next := v;
    }

    /** The object whose link leads to object p. */
    method FindBefore(obj: Obj, ghost p: nat) returns (r: Obj)
      requires Valid() && 0 < p < |queue| && queue[p] == obj
      ensures r == queue[p - 1]
    {
      r := head;
      ghost var i := 0;
      LeadsTo(0);
      while r.next != obj
        invariant 0 <= i < p && r == queue[i] && r.next == queue[i + 1]
        decreases p - i
      {
        r := r.next;
        i := i + 1;
        LeadsTo(i);
      }
    }

    /** No queue holds an object that leads to itself. */
    lemma LoopNotLinked(q: seq<Obj>, j: nat)
      requires Apart(q) && j < |q| && q[j].next == q[j]
      ensures !Linked(q)
    {
      assert j + 1 < |q| ==> q[j] != q[j + 1];
      assert !Leads(q, j);
    }

    /** A tail that leads to itself is the end of no queue. */
    lemma LoopBreaks()
      requires tail != null && tail.next == tail
      ensures forall q: seq<Obj> {:trigger Linked(q)} :: q != [] && Apart(q) && Ends(q) ==> !Linked(q)
    {
      forall q: seq<Obj> {:trigger Linked(q)} | q != [] && Apart(q) && Ends(q) ensures !Linked(q) {
        LoopNotLinked(q, |q| - 1);
      }
    }

    /** replace_tail. For the tail itself the object ends up leading to itself, and whatever is taken for the
        queue, it is broken. */
    method ReplaceTail(obj: Obj, ghost p: nat)
      requires Valid() && p < |queue| && queue[p] == obj
      modifies this`head, this`tail, this`queue, queue
      ensures size == old(size) && tail == obj
      ensures obj != old(tail) ==> Valid() && queue == Moved(old(queue), p)
      ensures obj == old(tail) ==> obj.next == obj
      ensures obj == old(tail) ==> head == if |old(queue)| == 1 then null else old(head)
      ensures obj == old(tail) ==>
                forall q: seq<Obj> {:trigger Linked(q)} :: q != [] && Apart(q) && Ends(q) ==> !Linked(q)
      ensures Valid() <==> obj != old(tail)
    {
      hide Apart, Linked, Nexts, Chain, Moved;
      ghost var q := queue;
      LinkedNexts(q);
      FirstPlace(q, p);
      if obj == head {
        head := NextOf(obj, q, p);
      } else {
        var before := FindBefore(obj, p);
        SetNext(before, obj.next, q, p - 1);
      }
      SetNext(obj, null, q, p);
      SetNext(tail, obj, q, |q| - 1);
      assert Nexts(q) == Relinked(q, p);
      tail := obj;
      queue := Moved(q, p);
      if p < |q| - 1 {
        MovedApart(q, p);
        MovedLinked(q, p);
        MovedEnds(q, p);
      } else {
        assert Nexts(q)[p] == obj;
        MovedApart(q, p);
        MovedEnds(q, p);
        LoopNotLinked(queue, |q| - 1);
        LoopBreaks();
      }
    }

    method NextOf(o: Obj, ghost q: seq<Obj>, ghost p: nat) returns (n: Obj?)
      requires p < |q| && q[p] == o
      ensures n == Nexts(q)[p]
    {
      n := o.next;
    }

    /** Only the first object is the head, and only the last is the tail. */
    static lemma FirstPlace(q: seq<Obj>, p: nat)
      requires Apart(q) && p < |q|
      ensures q[p] == q[0] <==> p == 0
      ensures q[p] == q[|q| - 1] <==> p == |q| - 1
    {
    }

    static lemma MovedEnds(q: seq<Obj>, p: nat)
      requires p < |q|
      ensures var m := Moved(q, p); |m| == |q| && m[|m| - 1] == q[p]
      ensures p + 1 < |q| ==> Moved(q, p)[0] == if p == 0 then q[1] else q[0]
    {
    }
  }
}
