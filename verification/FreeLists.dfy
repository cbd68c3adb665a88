/** The allocator's free lists, threaded through the heap words.

    Free blocks larger than the minimum are kept in eight doubly linked lists by size class; the
    links are the two words after the header. Free blocks of the minimum size are kept in six singly
    linked lists, hashed by address; the link is the word after the header. */
module FreeLists {
  import opened HeapWords
  import opened HeapLayout
  import opened HeapTags

  const NUM_CLASSES: nat := 8
  const NUM_MIN_LISTS: nat := 6

  /** The contents of the lists, head first. */
  datatype Lists = Lists(segs: seq<seq<nat>>, mins: seq<seq<nat>>)

  /** The size class of a block of asize bytes. */
  function GetIndex(asize: nat): (i: nat)
    ensures i < NUM_CLASSES
  {
    if asize < 64 then 0
    else if asize < 128 then 1
    else if asize < 256 then 2
    else if asize < 512 then 3
    else if asize < 1024 then 4
    else if asize < 2048 then 5
    else if asize < 4096 then 6
    else 7
  }

  /** Size class c, but for the first and the last, holds the sizes from 32 * 2^c to 64 * 2^c. */
  lemma GetIndexIs(asize: nat)
    ensures var c := GetIndex(asize);
            && c < 8
            && (c == 0 <==> asize < 64) && (c == 7 <==> 4096 <= asize)
            && (0 < c < 7 ==> 32 * Power(c) <= asize < 64 * Power(c))
  {
    assert Power(1) == 2 && Power(2) == 4 && Power(3) == 8 && Power(4) == 16 && Power(5) == 32 && Power(6) == 64;
  }

  function Power(c: nat): nat {
    if c == 0 then 1 else 2 * Power(c - 1)
  }

  lemma GetIndexMonotone(a: nat, b: nat)
    requires a <= b
    ensures GetIndex(a) <= GetIndex(b)
  {
  }

  function MinIndex(base: nat, b: nat): (k: nat)
    ensures k < NUM_MIN_LISTS
  {
    (base + 8 * b) % 6
  }

  /** Two minimum-size blocks share a bucket exactly if their addresses differ by a multiple of six. */
  lemma SameBucket(base: nat, b: nat, c: nat)
    ensures MinIndex(base, b) == MinIndex(base, c) <==> exists k: int :: (base + 8 * b) - (base + 8 * c) == 6 * k
  {
    var x, y := base + 8 * b, base + 8 * c;
    var i, j := MinIndex(base, b), MinIndex(base, c);
    assert x == 6 * (x / 6) + i && y == 6 * (y / 6) + j;
    if i == j {
      assert x - y == 6 * (x / 6 - y / 6);
    }
    hide MinIndex;
    if k: int :| x - y == 6 * k { SixApart(i, j, x / 6 - y / 6 - k); }
  }

  lemma SixApart(i: nat, j: nat, m: int)
    requires i < 6 && j < 6 && i - j == -6 * m
    ensures i == j
  {
  }

  function Head(s: seq<nat>): nat {
    if s == [] then 0 else s[0]
  }

  function PrevIn(s: seq<nat>, j: nat): nat
    requires j < |s|
  {
    if j == 0 then 0 else s[j - 1]
  }

  function NextIn(s: seq<nat>, j: nat): nat
    requires j < |s|
  {
    if j + 1 < |s| then s[j + 1] else 0
  }

  function IndexOf(s: seq<nat>, b: nat): (j: nat)
    requires b in s
    ensures j < |s| && s[j] == b
  {
    if s[0] == b then 0 else 1 + IndexOf(s[1..], b)
  }

  function Without(s: seq<nat>, j: nat): seq<nat>
    requires j < |s|
  {
    s[..j] + s[j + 1..]
  }

  ghost predicate NoDup(s: seq<nat>) {
    forall i, j :: 0 <= i < j < |s| ==> s[i] != s[j]
  }

  // ----- links in the heap words -----

  ghost predicate SegAt(base: nat, h: seq<nat>, s: seq<nat>, j: nat)
    requires j < |s|
  {
    At(h, s[j] + 1) == Enc(base, PrevIn(s, j)) && At(h, s[j] + 2) == Enc(base, NextIn(s, j))
  }

  ghost predicate MinAt(base: nat, h: seq<nat>, s: seq<nat>, j: nat)
    requires j < |s|
  {
    At(h, s[j] + 1) == Enc(base, NextIn(s, j))
  }

  ghost predicate SegChain(base: nat, h: seq<nat>, s: seq<nat>) {
    forall j {:trigger SegAt(base, h, s, j)} :: 0 <= j < |s| ==> SegAt(base, h, s, j)
  }

  ghost predicate MinChain(base: nat, h: seq<nat>, s: seq<nat>) {
    forall j {:trigger MinAt(base, h, s, j)} :: 0 <= j < |s| ==> MinAt(base, h, s, j)
  }

  /** The list heads and the links in the heap words spell out exactly the lists X. */
  ghost predicate Linked(base: nat, h: seq<nat>, seg: seq<nat>, min: seq<nat>, X: Lists) {
    && |seg| == |X.segs| == NUM_CLASSES && |min| == |X.mins| == NUM_MIN_LISTS
    && (forall c {:trigger X.segs[c]} :: 0 <= c < NUM_CLASSES ==>
         seg[c] == Head(X.segs[c])
         && SegChain(base, h, X.segs[c]))
    && (forall k {:trigger X.mins[k]} :: 0 <= k < NUM_MIN_LISTS ==>
         min[k] == Head(X.mins[k])
         && MinChain(base, h, X.mins[k]))
  }

  // ----- lists against the layout -----

  ghost predicate InSeg(L: Layout, off: set<nat>, c: nat, b: nat) {
    IsFree(L, b) && b !in off && L.blocks[b].words > MIN_WORDS && GetIndex(8 * L.blocks[b].words) == c
  }

  ghost predicate InMin(base: nat, L: Layout, off: set<nat>, k: nat, b: nat) {
    IsFree(L, b) && b !in off && L.blocks[b].words == MIN_WORDS && MinIndex(base, b) == k
  }

  /** Every free block outside `off` is in exactly the list it belongs to, once; nothing else is listed. */
  ghost predicate Listed(base: nat, L: Layout, X: Lists, off: set<nat>) {
    && |X.segs| == NUM_CLASSES && |X.mins| == NUM_MIN_LISTS
    && (forall c, b {:trigger b in X.segs[c]} {:trigger InSeg(L, off, c, b)} :: 0 <= c < NUM_CLASSES ==>
         (b in X.segs[c] <==> InSeg(L, off, c, b)))
    && (forall k, b {:trigger b in X.mins[k]} {:trigger InMin(base, L, off, k, b)} :: 0 <= k < NUM_MIN_LISTS ==>
         (b in X.mins[k] <==> InMin(base, L, off, k, b)))
    && (forall c {:trigger X.segs[c]} :: 0 <= c < NUM_CLASSES ==> NoDup(X.segs[c]))
    && (forall k {:trigger X.mins[k]} :: 0 <= k < NUM_MIN_LISTS ==> NoDup(X.mins[k]))
  }

  /** The lists after b has been taken out of, or put at the head of, the list it belongs to. */
  ghost function Popped(base: nat, L: Layout, X: Lists, b: nat): Lists
    requires |X.segs| == NUM_CLASSES && |X.mins| == NUM_MIN_LISTS && b in L.blocks
  {
    var c := GetIndex(8 * L.blocks[b].words);
    var k := MinIndex(base, b);
    if L.blocks[b].words == MIN_WORDS then
      if b in X.mins[k] then X.(mins := X.mins[k := Without(X.mins[k], IndexOf(X.mins[k], b))]) else X
    else
      if b in X.segs[c] then X.(segs := X.segs[c := Without(X.segs[c], IndexOf(X.segs[c], b))]) else X
  }

  ghost function Pushed(base: nat, L: Layout, X: Lists, b: nat): Lists
    requires |X.segs| == NUM_CLASSES && |X.mins| == NUM_MIN_LISTS && b in L.blocks
  {
    var c := GetIndex(8 * L.blocks[b].words);
    var k := MinIndex(base, b);
    if L.blocks[b].words == MIN_WORDS then X.(mins := X.mins[k := [b] + X.mins[k]])
    else X.(segs := X.segs[c := [b] + X.segs[c]])
  }

  lemma WithoutMembers(s: seq<nat>, j: nat)
    requires j < |s| && NoDup(s)
    ensures NoDup(Without(s, j))
    ensures forall b :: b in Without(s, j) <==> b in s && b != s[j]
  {
    var r := Without(s, j);
    forall b | b in s && b != s[j] ensures b in r {
      var i :| 0 <= i < |s| && s[i] == b;
      assert r[if i < j then i else i - 1] == b;
    }
  }

  /** Taking a free block out of its list leaves all lists right, with that block in none. */
  lemma PoppedListed(base: nat, L: Layout, X: Lists, off: set<nat>, b: nat)
    requires Listed(base, L, X, off) && IsFree(L, b) && b !in off && MIN_WORDS <= L.blocks[b].words
    ensures Listed(base, L, Popped(base, L, X, b), off + {b})
  {
    var c := GetIndex(8 * L.blocks[b].words);
    var k := MinIndex(base, b);
    if L.blocks[b].words == MIN_WORDS {
      assert InMin(base, L, off, k, b);
      WithoutMembers(X.mins[k], IndexOf(X.mins[k], b));
    } else {
      assert InSeg(L, off, c, b);
      WithoutMembers(X.segs[c], IndexOf(X.segs[c], b));
    }
  }

  /** The free block b is at the head of a list of its kind. */
  ghost predicate HeadsList(L: Layout, X: Lists, b: nat) {
    && IsFree(L, b)
    && if L.blocks[b].words == MIN_WORDS then exists k :: 0 <= k < |X.mins| && Head(X.mins[k]) == b
       else exists c :: 0 <= c < |X.segs| && Head(X.segs[c]) == b
  }

  /** The lists are last in, first out. */
  lemma PushedHeads(base: nat, L: Layout, X: Lists, b: nat)
    requires |X.segs| == NUM_CLASSES && |X.mins| == NUM_MIN_LISTS && IsFree(L, b)
    ensures HeadsList(L, Pushed(base, L, X, b), b)
  {
    var Y := Pushed(base, L, X, b);
    var c, k := GetIndex(8 * L.blocks[b].words), MinIndex(base, b);
    assert L.blocks[b].words == MIN_WORDS ==> Head(Y.mins[k]) == b;
    assert L.blocks[b].words != MIN_WORDS ==> Head(Y.segs[c]) == b;
  }

  /** Putting a free block at the head of its list makes all lists right. */
  lemma PushedListed(base: nat, L: Layout, X: Lists, off: set<nat>, b: nat)
    requires Listed(base, L, X, off) && IsFree(L, b) && b in off && MIN_WORDS <= L.blocks[b].words
    ensures Listed(base, L, Pushed(base, L, X, b), off - {b})
  {
    var c := GetIndex(8 * L.blocks[b].words);
    var k := MinIndex(base, b);
    if L.blocks[b].words == MIN_WORDS {
      assert !InMin(base, L, off, k, b);
    } else {
      assert !InSeg(L, off, c, b);
    }
  }

  // ----- the words after linking and unlinking -----

  /** The heap after the node at position j has been cut out of the doubly linked list s. */
  function Unlink(base: nat, h: seq<nat>, s: seq<nat>, j: nat): seq<nat>
    requires j < |s|
  {
    var p, n := PrevIn(s, j), NextIn(s, j);
    var h1 := if p == 0 then h else Put(h, p + 2, Enc(base, n));
    var h2 := if n == 0 then h1 else Put(h1, n + 1, Enc(base, p));
    Put(Put(h2, s[j] + 1, 0), s[j] + 2, 0)
  }

  function UnlinkMin(base: nat, h: seq<nat>, s: seq<nat>, j: nat): seq<nat>
    requires j < |s|
  {
    var p, n := PrevIn(s, j), NextIn(s, j);
    var h1 := if p == 0 then h else Put(h, p + 1, Enc(base, n));
    Put(h1, s[j] + 1, 0)
  }

  /** The heap after b has been put in front of the list with head `root`. */
  function Link(base: nat, h: seq<nat>, root: nat, b: nat): seq<nat> {
    var h1 := if root == 0 then h else Put(h, root + 1, Enc(base, b));
    Put(Put(h1, b + 1, 0), b + 2, Enc(base, root))
  }

  function LinkMin(base: nat, h: seq<nat>, root: nat, b: nat): seq<nat> {
    Put(h, b + 1, Enc(base, root))
  }

  /** Nodes are odd, so the first link word of one node is never the second link word of another. */
  ghost predicate Nodes(s: seq<nat>, limit: nat) {
    NoDup(s) && forall i :: 0 <= i < |s| ==> s[i] % 2 == 1 && s[i] + 2 < limit
  }

  lemma UnlinkBefore(base: nat, h: seq<nat>, s: seq<nat>, j: nat, i: nat)
    requires i < j < |s| && Nodes(s, |h|) && SegAt(base, h, s, i)
    ensures SegAt(base, Unlink(base, h, s, j), Without(s, j), i)
  {
    hide Enc;
    assert Without(s, j)[i] == s[i];
    assert j + 1 < |s| ==> s[j + 1] != s[i];
    assert i + 1 < j ==> s[j - 1] != s[i];
  }

  lemma UnlinkKeeps(base: nat, h: seq<nat>, s: seq<nat>, j: nat, w: nat)
    requires j < |s| && w != s[j] + 1 && w != s[j] + 2
    requires PrevIn(s, j) != 0 ==> w != PrevIn(s, j) + 2
    requires NextIn(s, j) != 0 ==> w != NextIn(s, j) + 1
    ensures At(Unlink(base, h, s, j), w) == At(h, w)
  {
    hide Enc;
  }

  lemma UnlinkSets(base: nat, h: seq<nat>, s: seq<nat>, j: nat)
    requires j + 1 < |s| && Nodes(s, |h|)
    ensures At(Unlink(base, h, s, j), s[j + 1] + 1) == Enc(base, PrevIn(s, j))
  {
    hide Enc;
    assert s[j] != s[j + 1];
  }

  lemma AfterGap(s: seq<nat>, j: nat, i: nat)
    requires j < i < |s|
    ensures var r := Without(s, j);
            && |r| == |s| - 1 && r[i - 1] == s[i] && NextIn(r, i - 1) == NextIn(s, i)
            && PrevIn(r, i - 1) == if i == j + 1 then PrevIn(s, j) else PrevIn(s, i)
  {
  }

  lemma NodesApart(s: seq<nat>, limit: nat, i: nat, j: nat)
    requires Nodes(s, limit) && i < |s| && j < |s|
    ensures i != j ==> s[i] != s[j] && s[i] + 1 != s[j] + 2 && s[i] + 2 != s[j] + 1
  {
  }

  lemma UnlinkAfter(base: nat, h: seq<nat>, s: seq<nat>, j: nat, i: nat)
    requires j < i < |s| && Nodes(s, |h|) && SegAt(base, h, s, i)
    ensures SegAt(base, Unlink(base, h, s, j), Without(s, j), i - 1)
  {
    hide Enc, Unlink, Without, Nodes, At;
    AfterGap(s, j, i);
    NodesApart(s, |h|, i, j);
    if j > 0 { NodesApart(s, |h|, i, j - 1); }
    NodesApart(s, |h|, i, j + 1);
    UnlinkKeeps(base, h, s, j, s[i] + 2);
    if i == j + 1 {
      UnlinkSets(base, h, s, j);
    } else {
      UnlinkKeeps(base, h, s, j, s[i] + 1);
    }
  }

  lemma UnlinkChain(base: nat, h: seq<nat>, s: seq<nat>, j: nat)
    requires j < |s| && Nodes(s, |h|) && SegChain(base, h, s)
    ensures SegChain(base, Unlink(base, h, s, j), Without(s, j))
  {
    hide Enc, SegAt;
    var g := Unlink(base, h, s, j);
    var r := Without(s, j);
    forall i {:trigger SegAt(base, g, r, i)} | 0 <= i < |r| ensures SegAt(base, g, r, i) {
      if i < j {
        assert SegAt(base, h, s, i);
        UnlinkBefore(base, h, s, j, i);
      } else {
        assert SegAt(base, h, s, i + 1);
        UnlinkAfter(base, h, s, j, i + 1);
      }
    }
  }

  /** What the links around node j say, and the writes that are enough to unlink it: the links of
      the node that are NULL already need not be written again. */
  lemma UnlinkWrites(base: nat, h: seq<nat>, s: seq<nat>, j: nat)
    requires j < |s| && Nodes(s, |h|) && SegChain(base, h, s)
    ensures var b, p, n, e := s[j], PrevIn(s, j), NextIn(s, j), Unlink(base, h, s, j);
            && b + 2 < |h| && p + 2 < |h| && n + 2 < |h|
            && Dec(base, h[b + 1]) == p && Dec(base, h[b + 2]) == n
            && (p == 0 <==> j == 0) && (p == 0 <==> b == s[0])
            && (p == 0 && n == 0 ==> e == h)
            && (p == 0 && n != 0 ==> e == h[n + 1 := 0][b + 2 := 0])
            && (p != 0 && n == 0 ==> e == h[p + 2 := 0][b + 1 := 0])
            && (p != 0 && n != 0 ==> e == h[p + 2 := Enc(base, n)][n + 1 := Enc(base, p)][b + 2 := 0][b + 1 := 0])
  {
    var b, p, n := s[j], PrevIn(s, j), NextIn(s, j);
    assert SegAt(base, h, s, j);
    DecEnc(base, p);
    DecEnc(base, n);
  }

  lemma UnlinkMinChain(base: nat, h: seq<nat>, s: seq<nat>, j: nat)
    requires j < |s| && NoDup(s) && MinChain(base, h, s)
    requires forall i :: 0 <= i < |s| ==> s[i] % 2 == 1 && s[i] + 1 < |h|
    ensures MinChain(base, UnlinkMin(base, h, s, j), Without(s, j))
  {
    var g := UnlinkMin(base, h, s, j);
    var r := Without(s, j);
    forall i {:trigger MinAt(base, g, r, i)} | 0 <= i < |r| ensures MinAt(base, g, r, i) {
      var o := if i < j then i else i + 1;
      assert r[i] == s[o] && MinAt(base, h, s, o) && MinAt(base, h, s, j);
    }
  }

  lemma LinkChain(base: nat, h: seq<nat>, s: seq<nat>, b: nat)
    requires Nodes([b] + s, |h|) && SegChain(base, h, s)
    ensures SegChain(base, Link(base, h, Head(s), b), [b] + s)
  {
    var g := Link(base, h, Head(s), b);
    var r := [b] + s;
    assert b == r[0] && b !in s by { assert forall i :: 0 <= i < |s| ==> r[i + 1] == s[i]; }
    forall i {:trigger SegAt(base, g, r, i)} | 0 <= i < |r| ensures SegAt(base, g, r, i) {
      if i > 0 {
        assert r[i] == s[i - 1] && SegAt(base, h, s, i - 1);
        if i > 1 { assert r[1] != r[i]; }
      }
    }
  }

  lemma LinkMinChain(base: nat, h: seq<nat>, s: seq<nat>, b: nat)
    requires MinChain(base, h, s) && b !in s && b + 1 < |h|
    requires forall i :: 0 <= i < |s| ==> s[i] % 2 == b % 2 == 1
    ensures MinChain(base, LinkMin(base, h, Head(s), b), [b] + s)
  {
    var g := LinkMin(base, h, Head(s), b);
    var r := [b] + s;
    forall i {:trigger MinAt(base, g, r, i)} | 0 <= i < |r| ensures MinAt(base, g, r, i) {
      if i > 0 { assert r[i] == s[i - 1] && MinAt(base, h, s, i - 1); }
    }
  }

  /** A list keeps its links when its link words keep their values. */
  lemma ChainFrame(base: nat, h: seq<nat>, g: seq<nat>, s: seq<nat>)
    requires SegChain(base, h, s)
    requires forall b :: b in s ==> At(g, b + 1) == At(h, b + 1) && At(g, b + 2) == At(h, b + 2)
    ensures SegChain(base, g, s)
  {
    forall j {:trigger SegAt(base, g, s, j)} | 0 <= j < |s| ensures SegAt(base, g, s, j) {
      assert SegAt(base, h, s, j) && s[j] in s;
    }
  }

  lemma MinChainFrame(base: nat, h: seq<nat>, g: seq<nat>, s: seq<nat>)
    requires MinChain(base, h, s)
    requires forall b :: b in s ==> At(g, b + 1) == At(h, b + 1)
    ensures MinChain(base, g, s)
  {
    forall j {:trigger MinAt(base, g, s, j)} | 0 <= j < |s| ensures MinAt(base, g, s, j) {
      assert MinAt(base, h, s, j) && s[j] in s;
    }
  }

  // ----- whole-heap list updates -----

  /** The words, class heads and hash heads after taking b out of its list, and after putting it in. */
  ghost function PopWords(base: nat, L: Layout, X: Lists, h: seq<nat>, b: nat): seq<nat>
    requires |X.segs| == NUM_CLASSES && |X.mins| == NUM_MIN_LISTS && b in L.blocks
  {
    var c := GetIndex(8 * L.blocks[b].words);
    var k := MinIndex(base, b);
    if L.blocks[b].words == MIN_WORDS then
      if b in X.mins[k] then UnlinkMin(base, h, X.mins[k], IndexOf(X.mins[k], b)) else h
    else
      if b in X.segs[c] then Unlink(base, h, X.segs[c], IndexOf(X.segs[c], b)) else h
  }

  ghost function PushWords(base: nat, L: Layout, X: Lists, h: seq<nat>, b: nat): seq<nat>
    requires |X.segs| == NUM_CLASSES && |X.mins| == NUM_MIN_LISTS && b in L.blocks
  {
    var c := GetIndex(8 * L.blocks[b].words);
    var k := MinIndex(base, b);
    if L.blocks[b].words == MIN_WORDS then LinkMin(base, h, Head(X.mins[k]), b)
    else Link(base, h, Head(X.segs[c]), b)
  }

  /** Everything a list operation relies on and keeps. */
  ghost predicate ListsOk(base: nat, L: Layout, X: Lists, off: set<nat>, h: seq<nat>, seg: seq<nat>, min: seq<nat>) {
    Tiled(L) && L.epi < |h| && Listed(base, L, X, off) && Linked(base, h, seg, min, X)
  }

  lemma SegNodes(base: nat, L: Layout, X: Lists, off: set<nat>, c: nat, limit: nat)
    requires Tiled(L) && Listed(base, L, X, off) && c < NUM_CLASSES && L.epi < limit
    ensures Nodes(X.segs[c], limit)
    ensures forall b :: b in X.segs[c] ==> b % 2 == 1 && IsLink(L, b + 1) && IsLink(L, b + 2) && 0 < b
  {
    forall i | 0 <= i < |X.segs[c]|
      ensures X.segs[c][i] % 2 == 1 && X.segs[c][i] + 2 < limit
      ensures IsLink(L, X.segs[c][i] + 1) && IsLink(L, X.segs[c][i] + 2)
    {
      var b := X.segs[c][i];
      assert b in X.segs[c];
      assert InSeg(L, off, c, b) && BlockOk(L, b);
    }
  }

  lemma MinNodes(base: nat, L: Layout, X: Lists, off: set<nat>, k: nat, limit: nat)
    requires Tiled(L) && Listed(base, L, X, off) && k < NUM_MIN_LISTS && L.epi < limit
    ensures NoDup(X.mins[k])
    ensures forall i :: 0 <= i < |X.mins[k]| ==> X.mins[k][i] % 2 == 1 && X.mins[k][i] + 1 < limit
    ensures forall b :: b in X.mins[k] ==> b % 2 == 1 && IsLink(L, b + 1) && 0 < b
  {
    forall i | 0 <= i < |X.mins[k]|
      ensures X.mins[k][i] % 2 == 1 && X.mins[k][i] + 1 < limit && IsLink(L, X.mins[k][i] + 1)
    {
      var b := X.mins[k][i];
      assert b in X.mins[k];
      assert InMin(base, L, off, k, b) && BlockOk(L, b);
    }
  }

  /** Lists other than the one being changed keep their links. */
  lemma OtherSeg(base: nat, L: Layout, X: Lists, off: set<nat>, h: seq<nat>, g: seq<nat>, c: nat, touched: set<nat>)
    requires Tiled(L) && L.epi < |h| && Listed(base, L, X, off) && c < NUM_CLASSES && SegChain(base, h, X.segs[c])
    requires forall b :: b in X.segs[c] ==> b !in touched
    requires forall b :: b in touched ==> b % 2 == 1
    requires forall i: nat {:trigger At(g, i)} ::
        (i >= 1 && i - 1 in touched) || (i >= 2 && i - 2 in touched)
        || At(g, i) == At(h, i)
    ensures SegChain(base, g, X.segs[c])
  {
    SegNodes(base, L, X, off, c, |h|);
    ChainFrame(base, h, g, X.segs[c]);
  }

  lemma OtherMin(base: nat, L: Layout, X: Lists, off: set<nat>, h: seq<nat>, g: seq<nat>, k: nat, touched: set<nat>)
    requires Tiled(L) && L.epi < |h| && Listed(base, L, X, off) && k < NUM_MIN_LISTS && MinChain(base, h, X.mins[k])
    requires forall b :: b in X.mins[k] ==> b !in touched
    requires forall b :: b in touched ==> b % 2 == 1
    requires forall i: nat {:trigger At(g, i)} ::
        (i >= 1 && i - 1 in touched) || (i >= 2 && i - 2 in touched)
        || At(g, i) == At(h, i)
    ensures MinChain(base, g, X.mins[k])
  {
    MinNodes(base, L, X, off, k, |h|);
    MinChainFrame(base, h, g, X.mins[k]);
  }

  /** The nodes whose link words Unlink and Link write. */
  ghost function UnlinkTouched(s: seq<nat>, j: nat): set<nat>
    requires j < |s|
  {
    {s[j]} + (if j > 0 then {s[j - 1]} else {}) + (if j + 1 < |s| then {s[j + 1]} else {})
  }

  /** Unlinking a node, wherever it is in its list, leaves the links of all lists right. */
  lemma PopSegLinked(base: nat, L: Layout, X: Lists, off: set<nat>, h: seq<nat>, seg: seq<nat>, min: seq<nat>, b: nat)
    requires ListsOk(base, L, X, off, h, seg, min) && IsFree(L, b) && b !in off && L.blocks[b].words > MIN_WORDS
    ensures var c, Y := GetIndex(8 * L.blocks[b].words), Popped(base, L, X, b);
            Linked(base, PopWords(base, L, X, h, b), seg[c := Head(Y.segs[c])], min, Y)
  {
    hide Enc, SegAt, MinAt, GetIndex, MinIndex, Tiled, Head, IsLink, SegChain, MinChain;
    var c, Y := GetIndex(8 * L.blocks[b].words), Popped(base, L, X, b);
    assert InSeg(L, off, c, b);
    var s := X.segs[c];
    var j := IndexOf(s, b);
    var g := PopWords(base, L, X, h, b);
    SegNodes(base, L, X, off, c, |h|);
    UnlinkChain(base, h, s, j);
    var touched := UnlinkTouched(s, j);
    assert forall x :: x in touched ==> x in s;
    forall d {:trigger Y.segs[d]} | 0 <= d < NUM_CLASSES && d != c ensures SegChain(base, g, Y.segs[d]) {
      assert forall x :: x in X.segs[d] ==> InSeg(L, off, d, x);
      assert forall x :: x in s ==> InSeg(L, off, c, x);
      OtherSeg(base, L, X, off, h, g, d, touched);
    }
    forall k {:trigger Y.mins[k]} | 0 <= k < NUM_MIN_LISTS ensures MinChain(base, g, Y.mins[k]) {
      assert forall x :: x in X.mins[k] ==> InMin(base, L, off, k, x);
      assert forall x :: x in s ==> InSeg(L, off, c, x);
      OtherMin(base, L, X, off, h, g, k, touched);
    }
  }

  /** The same for a list of minimum-size blocks. */
  lemma PopMinLinked(base: nat, L: Layout, X: Lists, off: set<nat>, h: seq<nat>, seg: seq<nat>, min: seq<nat>, b: nat)
    requires ListsOk(base, L, X, off, h, seg, min) && IsFree(L, b) && b !in off && L.blocks[b].words == MIN_WORDS
    ensures var k, Y := MinIndex(base, b), Popped(base, L, X, b);
            Linked(base, PopWords(base, L, X, h, b), seg, min[k := Head(Y.mins[k])], Y)
  {
    hide Enc, SegAt, MinAt, GetIndex, MinIndex, Tiled, Head;
    var k, Y := MinIndex(base, b), Popped(base, L, X, b);
    assert InMin(base, L, off, k, b);
    var s := X.mins[k];
    var j := IndexOf(s, b);
    var g := PopWords(base, L, X, h, b);
    MinNodes(base, L, X, off, k, |h|);
    UnlinkMinChain(base, h, s, j);
    var touched := UnlinkTouched(s, j);
    assert forall x :: x in touched ==> x in s;
    forall c {:trigger Y.segs[c]} | 0 <= c < NUM_CLASSES ensures SegChain(base, g, Y.segs[c]) {
      assert forall x :: x in X.segs[c] ==> InSeg(L, off, c, x);
      assert forall x :: x in s ==> InMin(base, L, off, k, x);
      OtherSeg(base, L, X, off, h, g, c, touched);
    }
    forall d {:trigger Y.mins[d]} | 0 <= d < NUM_MIN_LISTS && d != k ensures MinChain(base, g, Y.mins[d]) {
      assert forall x :: x in X.mins[d] ==> InMin(base, L, off, d, x);
      assert forall x :: x in s ==> InMin(base, L, off, k, x);
      OtherMin(base, L, X, off, h, g, d, touched);
    }
  }

  /** Linking a node in front of its list leaves the links of all lists right. */
  lemma PushSegLinked(base: nat, L: Layout, X: Lists, off: set<nat>, h: seq<nat>, seg: seq<nat>, min: seq<nat>, b: nat)
    requires ListsOk(base, L, X, off, h, seg, min) && IsFree(L, b) && b in off && L.blocks[b].words > MIN_WORDS
    ensures var c, Y := GetIndex(8 * L.blocks[b].words), Pushed(base, L, X, b);
            Linked(base, PushWords(base, L, X, h, b), seg[c := b], min, Y)
  {
    hide Enc, SegAt, MinAt, GetIndex, MinIndex;
    var c, Y := GetIndex(8 * L.blocks[b].words), Pushed(base, L, X, b);
    var s := X.segs[c];
    var g := PushWords(base, L, X, h, b);
    assert BlockOk(L, b) && !InSeg(L, off, c, b);
    SegNodes(base, L, X, off, c, |h|);
    LinkChain(base, h, s, b);
    var touched := {b} + (if s == [] then {} else {s[0]});
    forall d {:trigger Y.segs[d]} | 0 <= d < NUM_CLASSES && d != c ensures SegChain(base, g, Y.segs[d]) {
      assert forall x :: x in X.segs[d] ==> InSeg(L, off, d, x);
      assert s != [] ==> s[0] in s && InSeg(L, off, c, s[0]);
      OtherSeg(base, L, X, off, h, g, d, touched);
    }
    forall k {:trigger Y.mins[k]} | 0 <= k < NUM_MIN_LISTS ensures MinChain(base, g, Y.mins[k]) {
      assert forall x :: x in X.mins[k] ==> InMin(base, L, off, k, x);
      assert s != [] ==> s[0] in s && InSeg(L, off, c, s[0]);
      OtherMin(base, L, X, off, h, g, k, touched);
    }
  }

  /** The same for a list of minimum-size blocks. */
  lemma PushMinLinked(base: nat, L: Layout, X: Lists, off: set<nat>, h: seq<nat>, seg: seq<nat>, min: seq<nat>, b: nat)
    requires ListsOk(base, L, X, off, h, seg, min) && IsFree(L, b) && b in off && L.blocks[b].words == MIN_WORDS
    ensures var k, Y := MinIndex(base, b), Pushed(base, L, X, b);
            Linked(base, PushWords(base, L, X, h, b), seg, min[k := b], Y)
  {
    var k, Y := MinIndex(base, b), Pushed(base, L, X, b);
    var s := X.mins[k];
    var g := PushWords(base, L, X, h, b);
    assert BlockOk(L, b) && !InMin(base, L, off, k, b);
    MinNodes(base, L, X, off, k, |h|);
    LinkMinChain(base, h, s, b);
    forall c {:trigger Y.segs[c]} | 0 <= c < NUM_CLASSES ensures SegChain(base, g, Y.segs[c]) {
      assert forall x :: x in X.segs[c] ==> InSeg(L, off, c, x);
      OtherSeg(base, L, X, off, h, g, c, {b});
    }
    forall d {:trigger Y.mins[d]} | 0 <= d < NUM_MIN_LISTS && d != k ensures MinChain(base, g, Y.mins[d]) {
      assert forall x :: x in X.mins[d] ==> InMin(base, L, off, d, x);
      OtherMin(base, L, X, off, h, g, d, {b});
    }
  }

  /** Popping and pushing write link words of free blocks only. */
  lemma PopFrame(base: nat, L: Layout, X: Lists, off: set<nat>, h: seq<nat>, b: nat)
    requires Tiled(L) && L.epi < |h| && Listed(base, L, X, off) && IsFree(L, b) && b !in off
    ensures LinkFrame(L, h, PopWords(base, L, X, h, b)) && |PopWords(base, L, X, h, b)| == |h|
  {
    hide Enc, SegAt, MinAt, GetIndex, MinIndex;
    var c, k := GetIndex(8 * L.blocks[b].words), MinIndex(base, b);
    assert BlockOk(L, b);
    if L.blocks[b].words == MIN_WORDS {
      assert InMin(base, L, off, k, b);
      MinNodes(base, L, X, off, k, |h|);
      var j := IndexOf(X.mins[k], b);
      assert j > 0 ==> X.mins[k][j - 1] in X.mins[k];
    } else {
      assert InSeg(L, off, c, b);
      SegNodes(base, L, X, off, c, |h|);
      var j := IndexOf(X.segs[c], b);
      assert j > 0 ==> X.segs[c][j - 1] in X.segs[c];
      assert j + 1 < |X.segs[c]| ==> X.segs[c][j + 1] in X.segs[c];
    }
  }

  lemma PushFrame(base: nat, L: Layout, X: Lists, off: set<nat>, h: seq<nat>, b: nat)
    requires Tiled(L) && L.epi < |h| && Listed(base, L, X, off) && IsFree(L, b)
    ensures LinkFrame(L, h, PushWords(base, L, X, h, b)) && |PushWords(base, L, X, h, b)| == |h|
  {
    var c := GetIndex(8 * L.blocks[b].words);
    assert BlockOk(L, b);
    SegNodes(base, L, X, off, c, |h|);
    assert X.segs[c] != [] ==> X.segs[c][0] in X.segs[c];
    assert IsLink(L, b + 1);
    assert L.blocks[b].words > MIN_WORDS ==> IsLink(L, b + 2);
  }

  /** Writing a word that is not a link word keeps all lists. */
  lemma PutLinked(base: nat, L: Layout, X: Lists, off: set<nat>, h: seq<nat>, seg: seq<nat>, min: seq<nat>, i: nat,
      w: nat)
    requires ListsOk(base, L, X, off, h, seg, min) && !IsLink(L, i)
    ensures Linked(base, Put(h, i, w), seg, min, X)
  {
    var g := Put(h, i, w);
    forall c {:trigger X.segs[c]} | 0 <= c < NUM_CLASSES ensures SegChain(base, g, X.segs[c]) {
      SegNodes(base, L, X, off, c, |h|);
      ChainFrame(base, h, g, X.segs[c]);
    }
    forall k {:trigger X.mins[k]} | 0 <= k < NUM_MIN_LISTS ensures MinChain(base, g, X.mins[k]) {
      MinNodes(base, L, X, off, k, |h|);
      MinChainFrame(base, h, g, X.mins[k]);
    }
  }

  // ----- lists when the layout changes -----

  ghost predicate SameFree(L: Layout, off: set<nat>, M: Layout, off': set<nat>, b: nat) {
    && (IsFree(L, b) && b !in off <==> IsFree(M, b) && b !in off')
    && (IsFree(L, b) && b !in off ==> L.blocks[b].words == M.blocks[b].words)
  }

  lemma ListedTransfer(base: nat, L: Layout, off: set<nat>, M: Layout, off': set<nat>, X: Lists)
    requires Listed(base, L, X, off)
    requires forall b {:trigger SameFree(L, off, M, off', b)} :: SameFree(L, off, M, off', b)
    ensures Listed(base, M, X, off')
  {
    forall c, b {:trigger b in X.segs[c]} {:trigger InSeg(M, off', c, b)} | 0 <= c < NUM_CLASSES
      ensures b in X.segs[c] <==> InSeg(M, off', c, b)
    {
      assert SameFree(L, off, M, off', b);
      assert b in X.segs[c] <==> InSeg(L, off, c, b);
    }
    forall k, b {:trigger b in X.mins[k]} {:trigger InMin(base, M, off', k, b)} | 0 <= k < NUM_MIN_LISTS
      ensures b in X.mins[k] <==> InMin(base, M, off', k, b)
    {
      assert SameFree(L, off, M, off', b);
      assert b in X.mins[k] <==> InMin(base, L, off, k, b);
    }
  }

  /** Marking a live block free leaves the lists right, with that block in no list yet. */
  lemma UnmarkedListed(base: nat, L: Layout, b: nat, X: Lists)
    requires Listed(base, L, X, {}) && Live(L, b)
    ensures Listed(base, SetAlloc(L, b, false), X, {b})
  {
    ListedTransfer(base, L, {}, SetAlloc(L, b, false), {b}, X);
  }

  lemma MarkedListed(base: nat, L: Layout, b: nat, X: Lists)
    requires Live(L, b) && Listed(base, SetAlloc(L, b, false), X, {b})
    ensures Listed(base, L, X, {})
  {
    ListedTransfer(base, SetAlloc(L, b, false), {b}, L, {}, X);
  }

  /** Popping another block leaves alone all words of a block that is marked free and not listed. */
  lemma PopBeside(base: nat, L: Layout, b: nat, X: Lists, h: seq<nat>, p: nat)
    requires Tiled(L) && L.epi < |h| && Live(L, b) && IsFree(L, p) && Listed(base, SetAlloc(L, b, false), X, {b})
    ensures LinkFrame(L, h, PopWords(base, SetAlloc(L, b, false), X, h, p))
  {
    MarkedListed(base, L, b, X);
    PopFrame(base, L, X, {}, h, p);
    assert SetAlloc(L, b, false).blocks[p] == L.blocks[p];
  }

  /** The free blocks that a free of b merges. */
  ghost function Merging(L: Layout, b: nat): set<nat>
    requires b in L.blocks
  {
    var n := b + L.blocks[b].words;
    {b} + (if IsFree(L, L.blocks[b].prev) then {L.blocks[b].prev} else {}) + (if IsFree(L, n) then {n} else {})
  }

  /** The lists after a free, but for the merged block, which is yet to be listed. */
  lemma FreedListed(base: nat, L: Layout, b: nat, X: Lists)
    requires Tiled(L) && Coalesced(L) && Live(L, b)
    requires Listed(base, SetAlloc(L, b, false), X, Merging(L, b))
    ensures Listed(base, Freed(L, b), X, {FreedStart(L, b)})
  {
    var L1, M, l, off := SetAlloc(L, b, false), Freed(L, b), FreedStart(L, b), Merging(L, b);
    forall c {:trigger SameFree(L1, off, M, {l}, c)} ensures SameFree(L1, off, M, {l}, c) {
      FreedBlocks(L, b, c);
      FreedShape(L, b);
      if c in L.blocks {
        Around(L, b, c);
        Around(L, l, c);
        var n := b + L.blocks[b].words;
        if n in L.blocks { Around(L, n, c); }
      }
    }
    ListedTransfer(base, L1, off, M, {l}, X);
  }

  /** The lists after a split, but for the remainder, which is yet to be listed. */
  lemma PlacedListed(base: nat, L: Layout, b: nat, w: nat, X: Lists)
    requires Tiled(L) && Fits(L, b, w) && Listed(base, L, X, {b})
    ensures Listed(base, Placed(L, b, w), X, if w + MIN_WORDS <= L.blocks[b].words then {b + w} else {})
  {
    var M := Placed(L, b, w);
    var off := if w + MIN_WORDS <= L.blocks[b].words then {b + w} else {};
    forall c {:trigger SameFree(L, {b}, M, off, c)} ensures SameFree(L, {b}, M, off, c) {
      PlacedBlocks(L, b, w, c);
    }
    ListedTransfer(base, L, {b}, M, off, X);
  }

  /** The lists after an extension, but for the last block, which is yet to be listed. */
  lemma AppendListed(base: nat, L: Layout, w: nat, X: Lists)
    requires Tiled(L) && MIN_WORDS <= w && w % 2 == 0
    requires Listed(base, L, X, if IsFree(L, L.last) then {L.last} else {})
    ensures Listed(base, Append(L, w), X, {Append(L, w).last})
  {
    var M := Append(L, w);
    var off := if IsFree(L, L.last) then {L.last} else {};
    forall c {:trigger SameFree(L, off, M, {M.last}, c)} ensures SameFree(L, off, M, {M.last}, c) {
      AppendBlocks(L, w, c);
    }
    ListedTransfer(base, L, off, M, {M.last}, X);
  }

  // ----- first fit -----

  /** The first block of s with at least asize bytes; 0 if there is none. */
  function FitIn(L: Layout, s: seq<nat>, asize: nat): nat {
    if s == [] then 0
    else if s[0] in L.blocks && asize <= 8 * L.blocks[s[0]].words then s[0]
    else FitIn(L, s[1..], asize)
  }

  /** The first fit in the lists of class c and above. */
  function FitFrom(L: Layout, segs: seq<seq<nat>>, c: nat, asize: nat): nat
    decreases |segs| - c
  {
    if c >= |segs| then 0
    else if FitIn(L, segs[c], asize) != 0 then FitIn(L, segs[c], asize)
    else FitFrom(L, segs, c + 1, asize)
  }

  /** The head of the first non-empty minimum-size list from bucket k on. */
  function MinFit(mins: seq<seq<nat>>, k: nat): nat
    decreases |mins| - k
  {
    if k >= |mins| then 0 else if Head(mins[k]) != 0 then Head(mins[k]) else MinFit(mins, k + 1)
  }

  /** The block that the search finds for asize bytes; 0 if there is none. */
  function FirstFit(L: Layout, X: Lists, asize: nat): nat {
    if asize == 16 && MinFit(X.mins, 0) != 0 then MinFit(X.mins, 0) else FitFrom(L, X.segs, GetIndex(asize), asize)
  }

  lemma {:induction false} FitInSound(L: Layout, s: seq<nat>, asize: nat)
    requires forall b :: b in s ==> b in L.blocks && 0 < b
    ensures var f := FitIn(L, s, asize);
            && (f != 0 ==> f in s && asize <= 8 * L.blocks[f].words)
            && (f == 0 ==> forall b :: b in s ==> 8 * L.blocks[b].words < asize)
  {
    if s != [] {
      assert s[0] in s;
      assert s == [s[0]] + s[1..];
      FitInSound(L, s[1..], asize);
    }
  }

  lemma {:induction false} FitFromSound(base: nat, L: Layout, X: Lists, c: nat, asize: nat)
    requires Tiled(L) && Listed(base, L, X, {}) && c <= NUM_CLASSES
    ensures var f := FitFrom(L, X.segs, c, asize);
            && (f != 0 ==> IsFree(L, f) && asize <= 8 * L.blocks[f].words && MIN_WORDS < L.blocks[f].words)
            && (f == 0 ==> forall d, b :: c <= d < NUM_CLASSES && b in X.segs[d] ==>
                 b in L.blocks && 8 * L.blocks[b].words < asize)
    decreases NUM_CLASSES - c
  {
    if c < NUM_CLASSES {
      SegNodes(base, L, X, {}, c, L.epi + 1);
      assert forall b :: b in X.segs[c] ==> InSeg(L, {}, c, b);
      FitInSound(L, X.segs[c], asize);
      FitFromSound(base, L, X, c + 1, asize);
    }
  }

  lemma {:induction false} MinFitSound(base: nat, L: Layout, X: Lists, k: nat)
    requires Tiled(L) && Listed(base, L, X, {}) && k <= NUM_MIN_LISTS
    ensures var f := MinFit(X.mins, k);
            && (f != 0 ==> IsFree(L, f) && L.blocks[f].words == MIN_WORDS)
            && (f == 0 ==> forall d :: k <= d < NUM_MIN_LISTS ==> X.mins[d] == [])
    decreases NUM_MIN_LISTS - k
  {
    if k < NUM_MIN_LISTS {
      MinNodes(base, L, X, {}, k, L.epi + 1);
      if X.mins[k] != [] {
        assert X.mins[k][0] in X.mins[k];
        assert InMin(base, L, {}, k, X.mins[k][0]);
      }
      MinFitSound(base, L, X, k + 1);
    }
  }

  /** First fit is sound and complete: it fails exactly when no free block anywhere is large enough. */
  /** The search takes the first fit: the head of the first list of minimum-size blocks that is not empty, if 16 bytes
      are wanted; otherwise the first block that is large enough in the first class that has one. */
  lemma FirstFitFirst(base: nat, L: Layout, X: Lists, asize: nat)
    requires Tiled(L) && Listed(base, L, X, {}) && FirstFit(L, X, asize) != 0
    ensures var f := FirstFit(L, X, asize);
            || (asize == 16 && exists k: nat :: FirstList(X.mins, k) && f == X.mins[k][0])
            || ((asize == 16 ==> forall k :: 0 <= k < |X.mins| ==> X.mins[k] == [])
                && exists c: nat, j: nat :: FirstIn(L, X.segs, asize, c, j) && f == X.segs[c][j])
  {
    MinFitFirst(base, L, X, 0);
    if !(asize == 16 && MinFit(X.mins, 0) != 0) { FitFromFirst(base, L, X, GetIndex(asize), asize); }
  }

  ghost predicate FirstList(lists: seq<seq<nat>>, k: nat) {
    k < |lists| && lists[k] != [] && forall i :: 0 <= i < k ==> lists[i] == []
  }

  ghost predicate Fits8(L: Layout, b: nat, asize: nat) {
    b in L.blocks && asize <= 8 * L.blocks[b].words
  }

  /** Block j of list c fits, no earlier block of the list does, and no block of an earlier class from that of asize. */
  ghost predicate FirstIn(L: Layout, segs: seq<seq<nat>>, asize: nat, c: nat, j: nat) {
    && GetIndex(asize) <= c < |segs| && j < |segs[c]| && Fits8(L, segs[c][j], asize)
    && (forall i :: 0 <= i < j ==> !Fits8(L, segs[c][i], asize))
    && (forall d, i :: GetIndex(asize) <= d < c && 0 <= i < |segs[d]| ==> !Fits8(L, segs[d][i], asize))
  }

  lemma {:induction false} MinFitFirst(base: nat, L: Layout, X: Lists, k: nat)
    requires Tiled(L) && Listed(base, L, X, {}) && k <= NUM_MIN_LISTS
    requires forall i :: 0 <= i < k ==> X.mins[i] == []
    ensures MinFit(X.mins, k) != 0 ==> exists j: nat :: FirstList(X.mins, j) && MinFit(X.mins, k) == X.mins[j][0]
    ensures MinFit(X.mins, k) == 0 ==> forall j :: 0 <= j < |X.mins| ==> X.mins[j] == []
    decreases NUM_MIN_LISTS - k
  {
    if k < NUM_MIN_LISTS {
      MinNodes(base, L, X, {}, k, L.epi + 1);
      if X.mins[k] != [] {
        assert X.mins[k][0] in X.mins[k];
        assert FirstList(X.mins, k);
      } else {
        MinFitFirst(base, L, X, k + 1);
      }
    }
  }

  lemma {:induction false} FitInFirst(L: Layout, s: seq<nat>, asize: nat) returns (j: nat)
    requires forall b :: b in s ==> b in L.blocks && 0 < b
    ensures j <= |s| && (forall i :: 0 <= i < j ==> !Fits8(L, s[i], asize))
    ensures if FitIn(L, s, asize) == 0 then j == |s| else j < |s| && s[j] == FitIn(L, s, asize) && Fits8(L, s[j], asize)
  {
    j := 0;
    if s != [] {
      assert s[0] in s && 0 < s[0] && s == [s[0]] + s[1..];
      assert FitIn(L, s, asize) == if Fits8(L, s[0], asize) then s[0] else FitIn(L, s[1..], asize);
      hide FitIn, Fits8;
      if !Fits8(L, s[0], asize) {
        forall b | b in s[1..] ensures b in L.blocks && 0 < b { assert b in s; }
        var k := FitInFirst(L, s[1..], asize);
        j := k + 1;
        forall i | 0 <= i < j ensures !Fits8(L, s[i], asize) {
          if i > 0 { assert s[i] == s[1..][i - 1] && !Fits8(L, s[1..][i - 1], asize); }
        }
        assert k < |s[1..]| ==> s[1..][k] == s[j];
      }
    }
  }

  lemma {:induction false} FitFromFirst(base: nat, L: Layout, X: Lists, c: nat, asize: nat)
    requires Tiled(L) && Listed(base, L, X, {}) && GetIndex(asize) <= c <= NUM_CLASSES
    requires forall d, i :: GetIndex(asize) <= d < c && 0 <= i < |X.segs[d]| ==> !Fits8(L, X.segs[d][i], asize)
    ensures var f := FitFrom(L, X.segs, c, asize);
            f != 0 ==> exists d: nat, j: nat :: FirstIn(L, X.segs, asize, d, j) && f == X.segs[d][j]
    decreases NUM_CLASSES - c
  {
    if c < NUM_CLASSES {
      SegNodes(base, L, X, {}, c, L.epi + 1);
      assert forall b :: b in X.segs[c] ==> InSeg(L, {}, c, b);
      var j := FitInFirst(L, X.segs[c], asize);
      if FitIn(L, X.segs[c], asize) == 0 {
        FitFromFirst(base, L, X, c + 1, asize);
      } else {
        assert FirstIn(L, X.segs, asize, c, j);
      }
    }
  }

  /** A search for no bytes finds a block of any size above the minimum. */
  lemma FirstFitNothing(base: nat, L: Layout, X: Lists)
    requires Tiled(L) && Listed(base, L, X, {})
    ensures var f := FirstFit(L, X, 0);
            && (f != 0 ==> IsFree(L, f) && MIN_WORDS < L.blocks[f].words)
            && (f == 0 <==> forall b :: IsFree(L, b) ==> L.blocks[b].words == MIN_WORDS)
  {
    FitFromSound(base, L, X, 0, 0);
    forall b | IsFree(L, b) && L.blocks[b].words != MIN_WORDS ensures FirstFit(L, X, 0) != 0 {
      assert BlockOk(L, b);
      assert InSeg(L, {}, GetIndex(8 * L.blocks[b].words), b);
    }
  }

  lemma FirstFitComplete(base: nat, L: Layout, X: Lists, asize: nat)
    requires Tiled(L) && Listed(base, L, X, {}) && 16 <= asize && asize % 16 == 0
    ensures var f := FirstFit(L, X, asize);
            && (f != 0 ==> Fits(L, f, asize / 8))
            && (f == 0 <==> forall b :: IsFree(L, b) ==> 8 * L.blocks[b].words < asize)
  {
    var f := FirstFit(L, X, asize);
    FitFromSound(base, L, X, GetIndex(asize), asize);
    MinFitSound(base, L, X, 0);
    if f == 0 {
      forall b | IsFree(L, b) ensures 8 * L.blocks[b].words < asize {
        assert BlockOk(L, b);
        if L.blocks[b].words == MIN_WORDS {
          assert InMin(base, L, {}, MinIndex(base, b), b);
        } else {
          assert InSeg(L, {}, GetIndex(8 * L.blocks[b].words), b);
          if asize <= 8 * L.blocks[b].words { GetIndexMonotone(asize, 8 * L.blocks[b].words); }
        }
      }
    } else {
      assert BlockOk(L, f);
    }
  }

  /** The two words that extend_heap looks at are both 1 exactly when the heap has no block: a footer
      holds a size, and a link is NULL or an address in the heap. */
  lemma EmptyHeapTest(base: nat, L: Layout, X: Lists, h: seq<nat>, seg: seq<nat>, min: seq<nat>)
    requires ListsOk(base, L, X, {}, h, seg, min) && Tagged(L, h, 0) && 0 < base
    ensures 1 <= L.epi && (At(h, L.epi - 1) == 1 && At(h, L.epi) == 1 <==> L.last !in L.blocks)
  {
    var l := L.last;
    if l in L.blocks {
      assert BlockOk(L, l) && TagOk(L, h, 0, l);
      if L.blocks[l].words == MIN_WORDS && IsFree(L, l) {
        var k := MinIndex(base, l);
        assert InMin(base, L, {}, k, l);
        var j := IndexOf(X.mins[k], l);
        assert X.mins[k] == X.mins[k] && MinAt(base, h, X.mins[k], j);
      }
    }
  }

  /** The flags and the size that extend_heap reads from the last block. */
  lemma LastReads(L: Layout, h: seq<nat>)
    requires Tiled(L) && Tagged(L, h, 0) && L.last in L.blocks
    ensures var w := At(h, L.last);
            && SizeOf(w) == 8 * L.blocks[L.last].words && AllocBit(w) == L.blocks[L.last].alloc
            && PrevMinBit(w) == PrevMin(L, L.last) && PrevAllocBit(w) == PrevAlloc(L, L.last)
            && L.last + L.blocks[L.last].words == L.epi && 0 < L.last
  {
    assert BlockOk(L, L.last) && TagOk(L, h, 0, L.last);
  }

  /** Writing into the payload of a live block disturbs no tag, no list and no other payload. */
  lemma PayloadWrites(base: nat, L: Layout, X: Lists, h: seq<nat>, g: seq<nat>, seg: seq<nat>, min: seq<nat>, b: nat)
    requires ListsOk(base, L, X, {}, h, seg, min) && Tagged(L, h, 0) && Live(L, b) && |g| == |h|
    requires forall i: nat {:trigger At(g, i)} :: !(b < i < b + L.blocks[b].words) ==> At(g, i) == At(h, i)
    ensures ListsOk(base, L, X, {}, g, seg, min) && Tagged(L, g, 0) && KeepsLive(L, L, b, h, g)
  {
    hide Listed, SegAt, MinAt;
    forall c {:trigger TagOk(L, g, 0, c)} | c in L.blocks ensures TagOk(L, g, 0, c) {
      assert TagOk(L, h, 0, c);
      Around(L, b, c);
    }
    Around(L, b, b);
    forall c {:trigger Live(L, c)} | Live(L, c) && c != b ensures SamePayload(L, c, h, g) {
      Around(L, b, c);
    }
    forall i: nat | IsLink(L, i) ensures At(g, i) == At(h, i) {
      if b < i < b + L.blocks[b].words { PayloadNotLink(L, b, i); }
    }
    forall c {:trigger X.segs[c]} | 0 <= c < NUM_CLASSES ensures SegChain(base, g, X.segs[c]) {
      SegNodes(base, L, X, {}, c, |h|);
      ChainFrame(base, h, g, X.segs[c]);
    }
    forall k {:trigger X.mins[k]} | 0 <= k < NUM_MIN_LISTS ensures MinChain(base, g, X.mins[k]) {
      MinNodes(base, L, X, {}, k, |h|);
      MinChainFrame(base, h, g, X.mins[k]);
    }
  }
}
