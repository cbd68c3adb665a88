/** The response cache as a queue of lengths: what eviction removes and how large the cache can get. */
module CacheQueues {

  const MAX_CACHE_SIZE: nat := 1048576
  const MAX_OBJECT_SIZE: nat := 102400

  function Sum(lens: seq<nat>): nat {
    if lens == [] then 0 else lens[0] + Sum(lens[1..])
  }

  lemma {:induction false} SumSplit(a: seq<nat>, b: seq<nat>)
    ensures Sum(a + b) == Sum(a) + Sum(b)
  {
    if a == [] {
      assert a + b == b;
    } else {
      assert (a + b)[1..] == a[1..] + b;
      SumSplit(a[1..], b);
    }
  }

  /** The number of objects that evict removes from the head, `freed` bytes being free already. */
  function Evicted(lens: seq<nat>, freed: nat, need: nat): (n: nat)
    ensures n <= |lens|
  {
    if freed + 1 >= need || lens == [] then 0 else 1 + Evicted(lens[1..], freed + lens[0], need)
  }

  ghost predicate Small(lens: seq<nat>) {
    forall i {:trigger lens[i]} :: 0 <= i < |lens| ==> lens[i] <= MAX_OBJECT_SIZE
  }

  /** Evict stops as soon as the freed bytes and one more make up the need. */
  lemma {:induction false} EvictedEnough(lens: seq<nat>, freed: nat, need: nat)
    requires Small(lens)
    ensures var n := Evicted(lens, freed, need); var gone := freed + Sum(lens[..n]);
            && (n == |lens| || gone + 1 >= need)
            && (n > 0 ==> gone < need - 1 + MAX_OBJECT_SIZE)
            && (forall k :: 0 <= k < n ==> freed + Sum(lens[..k]) + 1 < need)
  {
    if freed + 1 < need && lens != [] {
      EvictedEnough(lens[1..], freed + lens[0], need);
      var n := Evicted(lens, freed, need);
      assert lens[..n][1..] == lens[1..][..n - 1];
      assert lens[..n][0] == lens[0];
      forall k | 0 <= k < n ensures freed + Sum(lens[..k]) + 1 < need {
        if k > 0 {
          assert lens[..k][1..] == lens[1..][..k - 1] && lens[..k][0] == lens[0];
        }
      }
    }
  }

  /** The queue of lengths after an object of length len is added. */
  function Added(lens: seq<nat>, len: nat): seq<nat> {
    (if Sum(lens) + len > MAX_CACHE_SIZE then lens[Evicted(lens, 0, len)..] else lens) + [len]
  }

  /** The total length after an addition: what eviction frees makes up for the new object but for one byte. */
  lemma AddedSum(lens: seq<nat>, len: nat)
    requires Small(lens) && len <= MAX_OBJECT_SIZE
    ensures var gone := Sum(lens[..Evicted(lens, 0, len)]);
            Sum(Added(lens, len)) == Sum(lens) + len - (if Sum(lens) + len > MAX_CACHE_SIZE then gone else 0)
    ensures Sum(lens) + len > MAX_CACHE_SIZE ==>
              Evicted(lens, 0, len) < |lens| && len <= Sum(lens[..Evicted(lens, 0, len)]) + 1
  {
    var kept := if Sum(lens) + len > MAX_CACHE_SIZE then lens[Evicted(lens, 0, len)..] else lens;
    SumSplit(kept, [len]);
    assert Sum([len]) == len + Sum([len][1..]);
    if Sum(lens) + len > MAX_CACHE_SIZE {
      var n := Evicted(lens, 0, len);
      EvictedEnough(lens, 0, len);
      SumSplit(lens[..n], lens[n..]);
      assert lens[..n] + lens[n..] == lens;
      assert lens[..|lens|] == lens;
    }
  }

  /** Adding an object small enough leaves something of a full cache, and exceeds the maximum, if at all,
      by at most one byte more than before. */
  lemma AddedBound(lens: seq<nat>, len: nat)
    requires Small(lens) && len <= MAX_OBJECT_SIZE
    ensures Small(Added(lens, len))
    ensures Sum(lens) + len > MAX_CACHE_SIZE ==> Evicted(lens, 0, len) < |lens|
    ensures Sum(Added(lens, len)) <= if Sum(lens) + 1 > 1048576 then Sum(lens) + 1 else 1048576
  {
    AddedSum(lens, len);
  }

  /** Some objects at the head of the queue are together one byte shorter than len. */
  ghost predicate OneShort(lens: seq<nat>, len: nat) {
    exists k {:trigger lens[..k]} :: 0 <= k <= |lens| && Sum(lens[..k]) + 1 == len
  }

  lemma PrefixSum(lens: seq<nat>, m: nat, n: nat)
    requires m <= n <= |lens|
    ensures Sum(lens[..m]) <= Sum(lens[..n])
  {
    SumSplit(lens[..m], lens[m..n]);
    assert lens[..m] + lens[m..n] == lens[..n];
  }

  /** When an addition keeps the cache within its maximum: always, unless the cache is full to the last byte and
      some objects at its head are together one byte shorter than the new one. */
  lemma AddedWithin(lens: seq<nat>, len: nat)
    requires Small(lens) && len <= MAX_OBJECT_SIZE && Sum(lens) <= 1048576
    ensures Sum(Added(lens, len)) <= 1048576 <==> Sum(lens) < 1048576 || !OneShort(lens, len)
  {
    var n := Evicted(lens, 0, len);
    AddedSum(lens, len);
    EvictedEnough(lens, 0, len);
    forall k {:trigger lens[..k]} | n <= k <= |lens| ensures Sum(lens[..n]) <= Sum(lens[..k]) {
      PrefixSum(lens, n, k);
    }
  }

  // ----- the maximum does not hold -----

  function Many(lens: seq<nat>, len: nat, n: nat): seq<nat> {
    if n == 0 then lens else Added(Many(lens, len, n - 1), len)
  }

  /** One-byte objects are never paid for by eviction: once full, the cache grows with each of them. */
  lemma {:induction false} GrowsWithoutBound(lens: seq<nat>, n: nat)
    ensures Sum(Many(lens, 1, n)) == Sum(lens) + n
  {
    if n > 0 {
      var before := Many(lens, 1, n - 1);
      GrowsWithoutBound(lens, n - 1);
      assert Evicted(before, 0, 1) == 0 && before[0..] == before;
      SumSplit(before, [1]);
      assert Sum([1]) == 1 + Sum([1][1..]);
    }
  }
}
