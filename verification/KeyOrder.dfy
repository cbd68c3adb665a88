/** Sequences of nodes in key order, read as finite maps from keys to records. */
module KeyOrder {
  import opened Trees
  import opened SplayNodes

  ghost predicate Sorted(s: seq<Node>) {
    forall i, j :: 0 <= i < j < |s| ==> s[i].key < s[j].key
  }

  ghost predicate AllBelow(s: seq<Node>, key: int) {
    forall n :: n in s ==> n.key < key
  }

  ghost predicate AllAbove(s: seq<Node>, key: int) {
    forall n :: n in s ==> key < n.key
  }

  ghost function MapOf(s: seq<Node>): map<int, nat> {
    if s == [] then map[] else MapOf(s[..|s| - 1])[s[|s| - 1].key := s[|s| - 1].record]
  }

  lemma {:induction false} MapOfMember(s: seq<Node>, k: int)
    ensures k in MapOf(s) <==> exists i :: 0 <= i < |s| && s[i].key == k
    ensures Sorted(s) && k in MapOf(s) ==> exists i :: 0 <= i < |s| && s[i].key == k && MapOf(s)[k] == s[i].record
  {
    if s != [] {
      var t := s[..|s| - 1];
      MapOfMember(t, k);
      if s[|s| - 1].key != k && k in MapOf(t) {
        var i :| 0 <= i < |t| && t[i].key == k && (Sorted(t) ==> MapOf(t)[k] == t[i].record);
        assert s[i] == t[i];
      }
    }
  }

  /** In a sorted sequence each node's key leads to its record. */
  lemma MapOfAt(s: seq<Node>, i: nat)
    requires Sorted(s) && i < |s|
    ensures s[i].key in MapOf(s) && MapOf(s)[s[i].key] == s[i].record
  {
    MapOfMember(s, s[i].key);
  }

  lemma InsertSorted(a: seq<Node>, z: Node, b: seq<Node>)
    requires Sorted(a + b) && AllBelow(a, z.key) && AllAbove(b, z.key)
    ensures Sorted(a + [z] + b)
  {
    var s, t := a + b, a + [z] + b;
    forall i, j | 0 <= i < j < |t| ensures t[i].key < t[j].key {
      if i == |a| {
        assert t[j] in b;
      } else if j == |a| {
        assert t[i] in a;
      } else {
        assert t[i] == s[if i < |a| then i else i - 1] && t[j] == s[if j < |a| then j else j - 1];
      }
    }
  }

  lemma InsertKey(a: seq<Node>, z: Node, b: seq<Node>, k: int)
    requires Sorted(a + b) && Sorted(a + [z] + b)
    ensures k in MapOf(a + [z] + b) <==> k == z.key || k in MapOf(a + b)
    ensures k in MapOf(a + b) ==> MapOf(a + [z] + b)[k] == MapOf(a + b)[k]
  {
    var s, t := a + b, a + [z] + b;
    MapOfMember(s, k);
    MapOfMember(t, k);
    assert t[|a|] == z;
    if k in MapOf(s) {
      var i :| 0 <= i < |s| && s[i].key == k && MapOf(s)[k] == s[i].record;
      assert t[if i < |a| then i else i + 1] == s[i];
      MapOfAt(t, if i < |a| then i else i + 1);
    } else if k in MapOf(t) {
      var i :| 0 <= i < |t| && t[i].key == k;
      if i != |a| { Shifted(a, z, b, i); }
    }
  }

  lemma Shifted(a: seq<Node>, z: Node, b: seq<Node>, i: nat)
    requires i < |a + [z] + b| && i != |a|
    ensures exists j :: 0 <= j < |a + b| && (a + b)[j] == (a + [z] + b)[i]
  {
    assert (a + b)[if i < |a| then i else i - 1] == (a + [z] + b)[i];
  }

  /** Adding a node at its place adds its key. */
  lemma MapOfInsert(a: seq<Node>, z: Node, b: seq<Node>)
    requires Sorted(a + b) && AllBelow(a, z.key) && AllAbove(b, z.key)
    ensures Sorted(a + [z] + b) && z.key !in MapOf(a + b)
    ensures MapOf(a + [z] + b) == MapOf(a + b)[z.key := z.record]
  {
    var s, t := a + b, a + [z] + b;
    InsertSorted(a, z, b);
    assert t[|a|] == z;
    MapOfAt(t, |a|);
    forall k ensures k in MapOf(t) <==> k == z.key || k in MapOf(s) { InsertKey(a, z, b, k); }
    forall k | k in MapOf(s) ensures MapOf(t)[k] == MapOf(s)[k] { InsertKey(a, z, b, k); }
    MapOfMember(s, z.key);
    forall i | 0 <= i < |s| ensures s[i].key != z.key { assert s[i] in a || s[i] in b; }
  }

  /** Dropping a node drops its key. */
  lemma MapOfRemove(a: seq<Node>, z: Node, b: seq<Node>)
    requires Sorted(a + [z] + b)
    ensures Sorted(a + b) && z.key in MapOf(a + [z] + b) && MapOf(a + [z] + b)[z.key] == z.record
    ensures MapOf(a + b) == MapOf(a + [z] + b) - {z.key}
  {
    var s, t := a + b, a + [z] + b;
    forall i, j | 0 <= i < j < |s| ensures s[i].key < s[j].key {
      assert s[i] == t[if i < |a| then i else i + 1] && s[j] == t[if j < |a| then j else j + 1];
    }
    forall n | n in a ensures n.key < z.key { var i :| 0 <= i < |a| && a[i] == n; assert t[i] == n && t[|a|] == z; }
    forall n | n in b
      ensures z.key < n.key
    {
      var i :| 0 <= i < |b| && b[i] == n;
      assert t[|a| + 1 + i] == n && t[|a|] == z;
    }
    MapOfInsert(a, z, b);
  }

  /** Different nodes have different keys, so the map has as many keys as there are nodes. */
  lemma {:induction false} MapOfSize(s: seq<Node>)
    requires Sorted(s)
    ensures |MapOf(s)| == |s|
  {
    if s != [] {
      var t, z := s[..|s| - 1], s[|s| - 1];
      PrefixSorted(t, [z]);
      assert t + [z] == s;
      MapOfSize(t);
      MapOfMember(t, z.key);
      assert z.key !in MapOf(t);
    }
  }

  // ----- searching -----

  /** All keys before the hole are below key and all keys after it are above. */
  ghost predicate Brackets(c: Ctx<Node>, key: int) {
    AllBelow(Before(c), key) && AllAbove(After(c), key)
  }

  /** In a sorted sequence the nodes on either side of x are on either side of its key. */
  lemma SortedSides(a: seq<Node>, x: Node, b: seq<Node>)
    requires Sorted(a + [x] + b)
    ensures AllBelow(a, x.key) && AllAbove(b, x.key)
  {
    var t := a + [x] + b;
    assert t[|a|] == x;
    forall n | n in a ensures n.key < x.key { var i :| 0 <= i < |a| && a[i] == n; assert t[i] == n; }
    forall n | n in b ensures x.key < n.key { var i :| 0 <= i < |b| && b[i] == n;
      assert t[|a| + 1 + i] == n; }
  }

  /** Going down on the side of the key keeps the bracket. */
  lemma DescendBrackets(c: Ctx<Node>, t: Tree<Node>, key: int)
    requires t.Br? && Sorted(Inorder(Plug(c, t))) && Brackets(c, key)
    ensures t.elem.key < key ==> Brackets(Rgt(t.left, t.elem, c), key)
    ensures key < t.elem.key ==> Brackets(Lft(t.elem, t.right, c), key)
    ensures AllBelow(Before(c), t.elem.key)
  {
    hide Sorted, AllBelow, AllAbove, Plug;
    var x, l, r := t.elem, Inorder(t.left), Inorder(t.right);
    PlugSides(c, t);
    SortedSides(Before(c) + l, x, r + After(c));
    BelowParts(Before(c), l, x, key);
    AboveParts(r, After(c), x, key);
  }

  /** The in-order sequence around the element at the hole. */
  lemma PlugSides(c: Ctx<Node>, t: Tree<Node>)
    requires t.Br?
    ensures Inorder(Plug(c, t)) == (Before(c) + Inorder(t.left)) + [t.elem] + (Inorder(t.right) + After(c))
  {
    hide Before, After, Plug;
    PlugInorder(c, t);
    Regroup(Before(c), Inorder(t.left), [t.elem], Inorder(t.right), After(c));
  }

  lemma BelowParts(a: seq<Node>, b: seq<Node>, x: Node, key: int)
    requires AllBelow(a + b, x.key)
    ensures x.key < key ==> AllBelow(a + b + [x], key)
    ensures AllBelow(a, x.key)
  {
    forall n | n in a ensures n.key < x.key { assert n in a + b; }
    forall n | n in a + b + [x] ensures x.key < key ==> n.key < key { assert n in a + b || n == x; }
  }

  lemma AboveParts(a: seq<Node>, b: seq<Node>, x: Node, key: int)
    requires AllAbove(a + b, x.key)
    ensures key < x.key ==> AllAbove([x] + a + b, key)
  {
    forall n | n in [x] + a + b ensures key < x.key ==> key < n.key { assert n in a + b || n == x; }
  }

  /** The search ends at a node exactly when the key is there. */
  lemma SearchFound(c: Ctx<Node>, t: Tree<Node>, key: int)
    requires Sorted(Inorder(Plug(c, t))) && Brackets(c, key)
    ensures t == Leaf ==> key !in MapOf(Inorder(Plug(c, t)))
    ensures t.Br? && t.elem.key == key ==>
        key in MapOf(Inorder(Plug(c, t)))
        && MapOf(Inorder(Plug(c, t)))[key] == t.elem.record
  {
    hide Plug, Before, After;
    var s := Inorder(Plug(c, t));
    PlugInorder(c, t);
    if t == Leaf {
      assert s == Before(c) + After(c);
      MapOfMember(s, key);
      forall i | 0 <= i < |s| ensures s[i].key != key { assert s[i] in Before(c) || s[i] in After(c); }
    } else if t.elem.key == key {
      assert s[|Before(c)| + |Inorder(t.left)|] == t.elem;
      MapOfAt(s, |Before(c)| + |Inorder(t.left)|);
    }
  }

  /** r is the record of the largest key that is at most `key`; 0 if there is none. */
  ghost predicate IsNearest(m: map<int, nat>, key: int, r: nat) {
    && ((forall k :: k in m ==> key < k) ==> r == 0)
    && (forall k :: k in m && k <= key && (forall j :: j in m && j <= key ==> j <= k) ==> r == m[k])
  }

  function LastRecord(s: seq<Node>): nat {
    if s == [] then 0 else s[|s| - 1].record
  }

  /** n is the last node of s, or NULL if s is empty. */
  predicate IsLast(n: Node?, s: seq<Node>) {
    if s == [] then n == null else n == s[|s| - 1]
  }

  lemma LastBelow(n: Node?, s: seq<Node>, key: int)
    requires IsLast(n, s) && AllBelow(s, key)
    ensures n == null || n.key < key
    ensures LastRecord(s) == if n == null then 0 else n.record
  {
  }

  /** A key of a sequence in two parts belongs to a node of one of them. */
  lemma KeyIn(a: seq<Node>, b: seq<Node>, k: int)
    requires k in MapOf(a + b)
    ensures exists n :: (n in a || n in b) && n.key == k
  {
    MapOfMember(a + b, k);
    var i :| 0 <= i < |a + b| && (a + b)[i].key == k;
    assert (a + b)[i] in a || (a + b)[i] in b;
  }

  /** In a sorted sequence no node comes after the last in key order. */
  lemma LastIsLargest(a: seq<Node>, n: Node)
    requires Sorted(a) && n in a
    ensures n.key <= a[|a| - 1].key
  {
  }

  /** An unsuccessful search ends just after the largest smaller key. */
  lemma NearestBefore(c: Ctx<Node>, key: int)
    requires Sorted(Before(c) + After(c)) && Brackets(c, key)
    ensures IsNearest(MapOf(Before(c) + After(c)), key, LastRecord(Before(c)))
  {
    hide MapOf, Before, After;
    var a, b, m := Before(c), After(c), MapOf(Before(c) + After(c));
    if a != [] {
      assert (a + b)[|a| - 1] == a[|a| - 1];
      MapOfAt(a + b, |a| - 1);
      PrefixSorted(a, b);
    }
    hide Sorted;
    forall k | k in m && k <= key ensures a != [] && k <= a[|a| - 1].key {
      KeyIn(a, b, k);
      var n :| (n in a || n in b) && n.key == k;
      LastIsLargest(a, n);
    }
  }

  lemma PrefixSorted(a: seq<Node>, b: seq<Node>)
    requires Sorted(a + b)
    ensures Sorted(a)
  {
    forall i, j | 0 <= i < j < |a| ensures a[i].key < a[j].key {
      assert (a + b)[i] == a[i] && (a + b)[j] == a[j];
    }
  }
}
