/** The splay tree with parent pointers. Keys are kept in search-tree order; records are opaque
    addresses, 0 standing for NULL. */
module SplayTree {
  import opened Basics
  import opened Trees
  import opened TreePotential
  import opened TreeLinks
  import opened SplayNodes
  import opened KeyOrder

  function Opt(n: Node?): Option<Node> {
    if n == null then None else var m: Node := n; Some(m)
  }

  class Splay {
    var root: Node?
    var nodeCount: nat
    var comparisonCount: nat
    ghost var links: Graph<Node>   // the fields of all nodes in the tree
    ghost var shape: Tree<Node>    // what they spell out
    ghost var rounds: nat          // rounds of the splay loop so far
    ghost var ops: nat             // insertions and removals so far
    ghost var peak: nat            // the largest number of nodes so far

    ghost predicate Matches()
      reads this`links, links.Keys
    {
      forall n :: n in links ==> links[n] == Links(Opt(n.left), Opt(n.right), Opt(n.parent))
    }

    /** Links do not lead out of the tree. */
    ghost predicate Closed()
      reads this`links
    {
      forall n :: n in links ==> LeadsTo(links[n].left) && LeadsTo(links[n].right) && LeadsTo(links[n].parent)
    }

    ghost predicate LeadsTo(n: Option<Node>)
      reads this`links
    {
      n.Some? ==> n.value in links
    }

    /** The fields of all nodes spell out t inside c, and root is the top of the whole. */
    ghost predicate At(c: Ctx<Node>, t: Tree<Node>)
      reads this`root, this`links, links.Keys
    {
      && Matches() && Spells(links, c, t) && links.Keys == CtxElems(c) + Elems(t)
      && Opt(root) == RootAbove(c, RootOf(t))
    }

    lemma AtClosed(c: Ctx<Node>, t: Tree<Node>)
      requires At(c, t)
      ensures Closed()
    {
      forall n | n in links ensures LeadsTo(links[n].left) && LeadsTo(links[n].right) && LeadsTo(links[n].parent) {
        SpellsClosed(links, c, t, n);
      }
    }

    // ----- single pointer writes -----

    lemma Read(n: Node)
      requires Matches() && n in links
      ensures links[n] == Links(Opt(n.left), Opt(n.right), Opt(n.parent))
    {
    }

    method SetLeft(n: Node, v: Node?)
      requires Matches() && n in links
      modifies n`left, this`links
      ensures Matches() && n in old(links) && links == old(links)[n := old(links)[n].(left := Opt(v))]
    {
      n.left := v;
      links := links[n := links[n].(left := Opt(v))];
    }

    method SetRight(n: Node, v: Node?)
      requires Matches() && n in links
      modifies n`right, this`links
      ensures Matches() && n in old(links) && links == old(links)[n := old(links)[n].(right := Opt(v))]
    {
      n.right := v;
      links := links[n := links[n].(right := Opt(v))];
    }

    method SetUp(n: Node, v: Node?)
      requires Matches() && n in links
      modifies n`parent, this`links
      ensures Matches() && n in old(links) && links == old(links)[n := old(links)[n].(parent := Opt(v))]
    {
      n.parent := v;
      links := links[n := links[n].(parent := Opt(v))];
    }

    /** The pointer that leads to x from above is redirected to y. */
    method RelinkChild(x: Node, y: Node?)
      requires Matches() && x in links && LeadsTo(links[x].parent)
      modifies this`root, this`links, links.Keys
      ensures Matches() && x in old(links) && links == SetChild(old(links), old(links)[x].parent, x, Opt(y))
      ensures root == if old(links)[x].parent.None? then y else old(root)
    {
      Read(x);
      if x.parent == null {
        root := y;
      } else {
        Read(x.parent);
        if x == x.parent.left {
          SetLeft(x.parent, y);
        } else {
          SetRight(x.parent, y);
        }
      }
    }

    lemma LeadsOn(n: Node)
      requires Closed() && n in links
      ensures LeadsTo(links[n].left) && LeadsTo(links[n].right) && LeadsTo(links[n].parent)
    {
    }

    // ----- rotations -----

    /** x takes over the left child of y, its right child, and y gets the parent of x. */
    method ReleaseLeft(x: Node, y: Node)
      requires Matches() && Closed() && x in links && y in links && links[x].right == Some(y) && x != y
          && links[y].left != Some(x)
      modifies this`links, links.Keys
      ensures Matches() && x in old(links) && y in old(links) && x in links && links[x].parent == old(links)[x].parent
      ensures links == (var G := old(links);
                        var G1 := SetParent(G[x := G[x].(right := G[y].left)], G[y].left, Some(x));
                        SetParent(G1, Some(y), G1[x].parent))
    {
      hide Matches, Closed;
      Read(y);
      LeadsOn(y);
      SetRight(x, y.left);
      Read(y);
      if y.left != null {
        SetUp(y.left, x);
      }
      Read(x);
      SetUp(y, x.parent);
    }

    method LeftRotate(x: Node)
      requires Matches() && Closed() && x in links && links[x].right.Some? && links[x].right != Some(x)
      requires links[x].right.value in links && links[links[x].right.value].left != Some(x)
      modifies this`root, this`links, links.Keys
      ensures Matches()
      ensures var G := old(links);
          x in G && G[x].right.Some? && G[x].right.value in G && G[x].right.value != x
          && links == LeftRotated(G, x)
      ensures Opt(root) == if old(links)[x].parent.None? then old(links)[x].right else Opt(old(root))
    {
      hide Matches, Closed, SetParent, SetChild;
      Read(x);
      var y := x.right;
      LeadsOn(x);
      if y != null {
        ReleaseLeft(x, y);
      }
      RelinkChild(x, y);
      if y != null {
        SetLeft(y, x);
      }
      SetUp(x, y);
    }

    /** x takes over the right child of y, its left child, and y gets the parent of x. */
    method ReleaseRight(x: Node, y: Node)
      requires Matches() && Closed() && x in links && y in links && links[x].left == Some(y) && x != y
          && links[y].right != Some(x)
      modifies this`links, links.Keys
      ensures Matches() && x in old(links) && y in old(links) && x in links && links[x].parent == old(links)[x].parent
      ensures links == (var G := old(links);
                        var G1 := SetParent(G[x := G[x].(left := G[y].right)], G[y].right, Some(x));
                        SetParent(G1, Some(y), G1[x].parent))
    {
      hide Matches, Closed;
      Read(y);
      LeadsOn(y);
      SetLeft(x, y.right);
      Read(y);
      if y.right != null {
        SetUp(y.right, x);
      }
      Read(x);
      SetUp(y, x.parent);
    }

    method RightRotate(x: Node)
      requires Matches() && Closed() && x in links && links[x].left.Some? && links[x].left != Some(x)
      requires links[x].left.value in links && links[links[x].left.value].right != Some(x)
      modifies this`root, this`links, links.Keys
      ensures Matches()
      ensures var G := old(links);
          x in G && G[x].left.Some? && G[x].left.value in G && G[x].left.value != x
          && links == RightRotated(G, x)
      ensures Opt(root) == if old(links)[x].parent.None? then old(links)[x].left else Opt(old(root))
    {
      hide Matches, Closed, SetParent, SetChild;
      Read(x);
      var y := x.left;
      LeadsOn(x);
      if y != null {
        ReleaseRight(x, y);
      }
      RelinkChild(x, y);
      if y != null {
        SetRight(y, x);
      }
      SetUp(x, y);
    }

    /** LeftRotate seen on shapes. */
    method LeftRotateAt(x: Node, ghost c: Ctx<Node>, ghost t: Tree<Node>)
      requires At(c, t) && t.Br? && t.elem == x && t.right.Br?
      modifies this`root, this`links, links.Keys
      ensures At(c, RotLeft(t)) && links.Keys == old(links).Keys
    {
      AtClosed(c, t);
      LeftRotatedParts(links, c, t);
      LeftRotatedSpells(links, c, t);
      RotSame(t);
      hide Spells, Matches, Closed, LeftRotated;
      assert RootAbove(c, Some(x)) == if c == Top then Some(x) else RootAbove(c.up, Some(c.elem));
      LeftRotate(x);
    }

    /** RightRotate seen on shapes. */
    method RightRotateAt(x: Node, ghost c: Ctx<Node>, ghost t: Tree<Node>)
      requires At(c, t) && t.Br? && t.elem == x && t.left.Br?
      modifies this`root, this`links, links.Keys
      ensures At(c, RotRight(t)) && links.Keys == old(links).Keys
    {
      AtClosed(c, t);
      RightRotatedParts(links, c, t);
      RightRotatedSpells(links, c, t);
      RotSame(t);
      hide Spells, Matches, Closed, RightRotated;
      assert RootAbove(c, Some(x)) == if c == Top then Some(x) else RootAbove(c.up, Some(c.elem));
      RightRotate(x);
    }

    /** What the fields say about the root of t and about the node above it, and the same facts one
        step further up. */
    lemma AtUp(c: Ctx<Node>, t: Tree<Node>)
      requires At(c, t) && c != Top && t.Br?
      ensures t.elem.parent == c.elem && Opt(c.elem.parent) == ParentOf(c.up)
      ensures c.Lft? ==> c.elem.left == t.elem && c.elem.right != t.elem && At(c.up, Br(t, c.elem, c.right))
      ensures c.Rgt? ==> c.elem.right == t.elem && c.elem.left != t.elem && At(c.up, Br(c.left, c.elem, t))
    {
      SpellsUp2(links, c, t);
      Read(t.elem);
      Read(c.elem);
    }

    lemma AtRoot(c: Ctx<Node>, t: Tree<Node>)
      requires At(c, t) && t.Br?
      ensures Opt(t.elem.parent) == ParentOf(c) && Opt(t.elem.left) == RootOf(t.left)
          && Opt(t.elem.right) == RootOf(t.right)
      ensures t.left.Br? ==> t.left.elem.parent == t.elem
      ensures t.right.Br? ==> t.right.elem.parent == t.elem
    {
      Read(t.elem);
      assert Rep(links, t.left, Some(t.elem)) && Rep(links, t.right, Some(t.elem));
      if t.left.Br? { Read(t.left.elem); }
      if t.right.Br? { Read(t.right.elem); }
    }

    // ----- splay -----

    /** Brings x, at the root of t inside c, to the root of the whole tree. */
    method SplayUp(x: Node, ghost c0: Ctx<Node>, ghost t0: Tree<Node>) returns (ghost rounds: nat)
      requires At(c0, t0) && t0.Br? && t0.elem == x
      modifies this`root, this`links, links.Keys
      ensures At(Top, Splayed(c0, t0)) && links.Keys == old(links).Keys && root == x
      ensures rounds == Rounds(c0)
    {
      rounds := 0;
      ghost var c, t := c0, t0;
      while x.parent != null
        invariant At(c, t) && t.Br? && t.elem == x && links.Keys == old(links).Keys
        invariant Splayed(c, t) == Splayed(c0, t0) && rounds + Rounds(c) == Rounds(c0)
        decreases c
      {
        SplayRound(x, c, t);
        c, t := StepCtx(c), StepTree(c, t);
        rounds := rounds + 1;
      }
    }

    /** The body of the splay loop. */
    method SplayRound(x: Node, ghost c: Ctx<Node>, ghost t: Tree<Node>)
      requires At(c, t) && t.Br? && t.elem == x && c != Top
      modifies this`root, this`links, links.Keys
      ensures At(StepCtx(c), StepTree(c, t)) && links.Keys == old(links).Keys
      ensures StepTree(c, t).Br? && StepTree(c, t).elem == x
    {
      AtUp(c, t);
      if c.up != Top { AtUp(c.up, if c.Lft? then Br(t, c.elem, c.right) else Br(c.left, c.elem, t)); }
      StepKeeps(c, t);
      hide At, Spells, Matches;
      if x.parent.parent == null {
        if x.parent.left == x {
          RightRotateAt(x.parent, c.up, Br(t, c.elem, c.right));
        } else {
          LeftRotateAt(x.parent, c.up, Br(c.left, c.elem, t));
        }
      } else if x.parent.left == x && x.parent.parent.left == x.parent {
        ghost var u := Br(Br(t, c.elem, c.right), c.up.elem, c.up.right);
        RightRotateAt(x.parent.parent, c.up.up, u);
        AtRoot(c.up.up, RotRight(u));
        RightRotateAt(x.parent, c.up.up, RotRight(u));
      } else if x.parent.right == x && x.parent.parent.right == x.parent {
        ghost var u := Br(c.up.left, c.up.elem, Br(c.left, c.elem, t));
        LeftRotateAt(x.parent.parent, c.up.up, u);
        AtRoot(c.up.up, RotLeft(u));
        LeftRotateAt(x.parent, c.up.up, RotLeft(u));
      } else if x.parent.left == x && x.parent.parent.right == x.parent {
        ghost var u := Br(t, c.elem, c.right);
        RightRotateAt(x.parent, c.up, u);
        AtUp(c.up, RotRight(u));
        LeftRotateAt(x.parent, c.up.up, Br(c.up.left, c.up.elem, RotRight(u)));
      } else {
        ghost var u := Br(c.left, c.elem, t);
        LeftRotateAt(x.parent, c.up, u);
        AtUp(c.up, RotLeft(u));
        RightRotateAt(x.parent, c.up.up, Br(RotLeft(u), c.up.elem, c.up.right));
      }
    }

    // ----- the tree between operations -----

    /** The fields spell out a search tree, and the potential pays for the rounds made so far. */
    ghost predicate Valid()
      reads this`root, this`nodeCount, this`links, this`shape, this`rounds, this`ops, this`peak, links.Keys
    {
      && At(Top, shape) && Sorted(Inorder(shape)) && nodeCount == Size(shape)
      && Size(shape) <= peak && Affordable(rounds + Phi(shape), ops, peak)
    }

    /** The finite map that the tree stands for. */
    ghost function Contents(): map<int, nat>
      reads this`shape
    {
      MapOf(Inorder(shape))
    }

    /** node_count is the size of the map. */
    lemma CountIsSize()
      requires Valid()
      ensures nodeCount == |Contents()|
    {
      InorderSize(shape);
      MapOfSize(Inorder(shape));
    }

    /** Over any run from an empty tree, the rounds of all splay loops together stay within
        4 log2(p) + 1 for every insertion and removal, p being the largest number of nodes. */
    lemma RoundsBounded()
      requires Valid()
      ensures 0 < peak && nodeCount <= peak && rounds <= ops * (4 * Log2(peak) + 1)
    {
    }

    constructor ()
      ensures Valid() && Contents() == map[] && nodeCount == 0 && ops == 0 && rounds == 0 && peak == 1 && links == map[]
    {
      root := null;
      nodeCount, comparisonCount := 0, 0;
      links, shape := map[], Leaf;
      rounds, ops, peak := 0, 0, 1;
    }

    // ----- searching -----

    /** The subtree t inside c is where the search for key has got to in the tree S with links G. */
    static ghost predicate Reached(G: Graph<Node>, S: Tree<Node>, key: int, c: Ctx<Node>, t: Tree<Node>) {
      Spells(G, c, t) && Plug(c, t) == S && Brackets(c, key)
    }

    lemma SearchStart(key: int)
      requires Valid()
      ensures Reached(links, shape, key, Top, shape) && Matches() && Opt(root) == RootOf(shape)
      ensures Sorted(Inorder(shape)) && Contents() == MapOf(Inorder(shape)) && nodeCount <= peak
    {
    }

    /** One step down the tree on the side of the key. */
    lemma Descend(key: int, S: Tree<Node>, c: Ctx<Node>, t: Tree<Node>, z: Node)
      requires Matches() && Reached(links, S, key, c, t) && Sorted(Inorder(S)) && RootOf(t) == Some(z)
      ensures t.Br? && t.elem == z && Opt(z.left) == RootOf(t.left) && Opt(z.right) == RootOf(t.right)
      ensures z.key < key ==> Reached(links, S, key, Rgt(t.left, z, c), t.right)
      ensures key < z.key ==> Reached(links, S, key, Lft(z, t.right, c), t.left)
      ensures key == z.key ==> key in MapOf(Inorder(S)) && MapOf(Inorder(S))[key] == z.record
      ensures AllBelow(Before(c), z.key)
    {
      DescendBrackets(c, t, key);
      SearchFound(c, t, key);
      SpellsUp(links, Lft(z, t.right, c), t.left);
      SpellsUp(links, Rgt(t.left, z, c), t.right);
      Read(z);
    }

    /** The part of the search loops that moves on from z, which does not hold the key. */
    method StepDown(key: int, z: Node, ghost c: Ctx<Node>, ghost t: Tree<Node>)
      returns (next: Node?, ghost c1: Ctx<Node>, ghost t1: Tree<Node>)
      requires Matches() && Reached(links, shape, key, c, t) && Sorted(Inorder(shape)) && RootOf(t) == Some(z)
          && key != z.key
      modifies this`comparisonCount
      ensures Matches() && Reached(links, shape, key, c1, t1) && Opt(next) == RootOf(t1)
      ensures t.Br? && (t1 == t.left || t1 == t.right) && comparisonCount == old(comparisonCount) + 1
          && ParentOf(c1) == Some(z)
      ensures if key > z.key then IsLast(z, Before(c1)) else Before(c1) == Before(c)
    {
      hide Reached, Matches, Sorted;
      Descend(key, shape, c, t, z);
      comparisonCount := comparisonCount + 1;
      if key > z.key {
        next, c1, t1 := z.right, Rgt(t.left, z, c), t.right;
      } else {
        next, c1, t1 := z.left, Lft(z, t.right, c), t.left;
      }
    }

    method Find(key: int) returns (r: nat)
      requires Valid()
      modifies this`comparisonCount
      ensures Valid()
      ensures r == if key in Contents() then Contents()[key] else 0
    {
      var z := root;
      ghost var c, t := Top, shape;
      hide Valid, Matches, Sorted, Reached, Contents, MapOf, Inorder;
      SearchStart(key);
      while z != null
        invariant Matches() && Reached(links, shape, key, c, t) && Opt(z) == RootOf(t)
        decreases t
      {
        comparisonCount := comparisonCount + 1;
        if key == z.key {
          Descend(key, shape, c, t, z);
          return z.record;
        }
        z, c, t := StepDown(key, z, c, t);
      }
      SearchMissed(links, shape, key, c, t);
      return 0;
    }

    /** A search that ends at a leaf: the key is absent, and what precedes the leaf is what is smaller. */
    static lemma SearchMissed(G: Graph<Node>, S: Tree<Node>, key: int, c: Ctx<Node>, t: Tree<Node>)
      requires Reached(G, S, key, c, t) && Sorted(Inorder(S)) && RootOf(t) == None
      ensures key !in MapOf(Inorder(S)) && Inorder(S) == Before(c) + After(c) && t == Leaf && Brackets(c, key)
      ensures IsNearest(MapOf(Inorder(S)), key, LastRecord(Before(c)))
    {
      PlugInorder(c, t);
      assert Inorder(S) == Before(c) + After(c);
      SearchFound(c, t, key);
      NearestBefore(c, key);
    }

    method FindNearest(key: int) returns (r: nat)
      requires Valid()
      modifies this`comparisonCount
      ensures Valid() && IsNearest(Contents(), key, r)
    {
      var z := root;
      var n: Node? := null;
      ghost var c, t := Top, shape;
      hide Valid, Matches, Sorted, Reached, IsLast, Before, IsNearest, AllBelow, Contents, MapOf, Inorder;
      SearchStart(key);
      NoneBefore();
      while z != null
        invariant Matches() && Reached(links, shape, key, c, t) && Opt(z) == RootOf(t) && IsLast(n, Before(c))
        decreases t
      {
        comparisonCount := comparisonCount + 1;
        Descend(key, shape, c, t, z);
        if key == z.key {
          NearestHere(key);
          return z.record;
        }
        LastBelow(n, Before(c), z.key);
        if key > z.key && (n == null || n.key < z.key) {
          n := z;
        }
        z, c, t := StepDown(key, z, c, t);
      }
      SearchMissed(links, shape, key, c, t);
      LastBelow(n, Before(c), key);
      return if n != null then n.record else 0;
    }

    static lemma NoneBefore()
      ensures IsLast(null, Before<Node>(Top))
    {
    }

    lemma NearestHere(key: int)
      requires key in Contents()
      ensures IsNearest(Contents(), key, Contents()[key])
    {
    }

    // ----- insertion -----

    static function Max(a: nat, b: nat): nat {
      if a < b then b else a
    }

    lemma LeafHung(G: Graph<Node>, c: Ctx<Node>, z: Node)
      requires Spells(G, c, Leaf) && z !in G && z !in CtxElems(c) && links == WithLeaf(G, c, z) && Matches()
      requires G.Keys == CtxElems(c) && Opt(root) == RootAbove(c, Some(z))
      ensures At(c, Br(Leaf, z, Leaf)) && links.Keys == G.Keys + {z}
    {
      WithLeafSpells(G, c, z);
      assert c.Lft? || c.Rgt? ==> c.elem in G;
    }

    /** The new node below p, on the side of its key. */
    method HangLeaf(z: Node, p: Node?, ghost c: Ctx<Node>)
      requires At(c, Leaf) && Opt(p) == ParentOf(c) && z !in links
      requires z.left == null && z.right == null && z.parent == p
      requires c.Lft? ==> z.key < c.elem.key
      requires c.Rgt? ==> c.elem.key < z.key
      modifies this`root, this`links, links.Keys
      ensures At(c, Br(Leaf, z, Leaf)) && links.Keys == old(links).Keys + {z}
    {
      ghost var G := links;
      assert p != null ==> p in G;
      links := links[z := Links(None, None, Opt(p))];
      assert Matches();
      hide Matches, Spells, RepCtx;
      if p == null {
        root := z;
      } else if p.key < z.key {
        SetRight(p, z);
      } else {
        SetLeft(p, z);
      }
      assert links == WithLeaf(G, c, z);
      LeafHung(G, c, z);
    }

    /** What an insertion at the end of path c does to the sequence of keys. */
    static lemma InsertedContents(S: Tree<Node>, c: Ctx<Node>, z: Node)
      requires Plug(c, Leaf) == S && Sorted(Inorder(S)) && Brackets(c, z.key)
      ensures var T := Splayed(c, Br(Leaf, z, Leaf));
              && Sorted(Inorder(T)) && z.key !in MapOf(Inorder(S))
                 && MapOf(Inorder(T)) == MapOf(Inorder(S))[z.key := z.record]
    {
      var s := Br(Leaf, z, Leaf);
      SplayedSame(c, s);
      PlugInorder(c, Leaf);
      PlugInorder(c, s);
      assert Inorder(S) == Before(c) + After(c);
      assert Inorder(s) == [z];
      MapOfInsert(Before(c), z, After(c));
    }

    /** The node above the hole is on the right side of the key. */
    static lemma BracketParent(c: Ctx<Node>, key: int)
      requires Brackets(c, key)
      ensures c.Lft? ==> key < c.elem.key
      ensures c.Rgt? ==> c.elem.key < key
    {
      if c.Lft? { assert c.elem in After(c); }
      if c.Rgt? { assert c.elem in Before(c); }
    }

    /** An operation that leaves the tree as it is still earns its share of the budget. */
    ghost method CountOp()
      requires Valid()
      modifies this`ops
      ensures Valid() && ops == old(ops) + 1
    {
      assert nodeCount <= peak;
      Budget(rounds + Phi(shape), rounds + Phi(shape), ops, peak, peak, peak);
      ops := ops + 1;
    }

    /** The tree after a new node has been hung and splayed: its contents and what it cost. */
    static lemma AttachOutcome(S: Tree<Node>, c: Ctx<Node>, z: Node, spent: nat, ops: nat, peak: nat)
      requires Plug(c, Leaf) == S && Sorted(Inorder(S)) && Brackets(c, z.key)
      requires Affordable(spent + Phi(S), ops, peak)
      ensures var T := Splayed(c, Br(Leaf, z, Leaf));
              && Sorted(Inorder(T)) && z.key !in MapOf(Inorder(S))
                 && MapOf(Inorder(T)) == MapOf(Inorder(S))[z.key := z.record]
              && Size(T) == Size(S) + 1 <= Max(peak, Size(S) + 1)
              && Affordable(spent + Rounds(c) + Phi(T), ops + 1, Max(peak, Size(S) + 1))
    {
      hide Inorder, Splayed, Phi, Size, Rounds, MapOf, Affordable, Allowance, Sorted, Plug, Log2, Brackets;
      InsertedContents(S, c, z);
      InsertBound(c, z);
      var n := Size(S) + 1;
      Budget(spent + Phi(S), spent + Rounds(c) + Phi(Splayed(c, Br(Leaf, z, Leaf))), ops, peak, Max(peak, n), n);
    }

    lemma AttachReady(key: int, c: Ctx<Node>)
      requires Valid() && Reached(links, shape, key, c, Leaf)
      ensures At(c, Leaf) && Plug(c, Leaf) == shape && Brackets(c, key)
      ensures nodeCount == Size(shape) <= peak && Affordable(rounds + Phi(shape), ops, peak)
      ensures Sorted(Inorder(shape)) && Contents() == MapOf(Inorder(shape))
      ensures c.Lft? ==> key < c.elem.key
      ensures c.Rgt? ==> c.elem.key < key
    {
      BracketParent(c, key);
      SpellsAll(links, c, Leaf);
      PlugElems<Node>(c, Leaf);
    }

    /** The ghost bookkeeping at the end of an operation that has produced the tree T. */
    ghost method Commit(T: Tree<Node>, n: nat, q: nat)
      requires At(Top, T) && Sorted(Inorder(T)) && nodeCount == Size(T) <= q
          && Affordable(rounds + n + Phi(T), ops + 1, q)
      modifies this`shape, this`rounds, this`ops, this`peak
      ensures Valid() && Contents() == MapOf(Inorder(T)) && rounds == old(rounds) + n && ops == old(ops) + 1
          && peak == q && shape == T
    {
      shape, rounds, ops, peak := T, rounds + n, ops + 1, q;
    }

    /** A new node at the end of path c, splayed to the root. */
    method HangAndSplay(key: int, record: nat, p: Node?, ghost c: Ctx<Node>) returns (z: Node, ghost n: nat)
      requires At(c, Leaf) && Opt(p) == ParentOf(c)
      requires c.Lft? ==> key < c.elem.key
      requires c.Rgt? ==> c.elem.key < key
      modifies this`root, this`links, links.Keys
      ensures At(Top, Splayed(c, Br(Leaf, z, Leaf))) && fresh(z) && z.key == key && z.record == record
      ensures links.Keys == old(links).Keys + {z} && root == z && n == Rounds(c)
    {
      hide At, Splayed, Rounds;
      z := new Node(key, record, p);
      HangLeaf(z, p, c);
      n := SplayUp(z, c, Br(Leaf, z, Leaf));
    }

    /** The part of tree_insert after the search: a new node at the end of path c. */
    method Attach(key: int, record: nat, p: Node?, ghost c: Ctx<Node>)
      requires Valid() && Reached(links, shape, key, c, Leaf) && Opt(p) == ParentOf(c)
      modifies this`root, this`nodeCount, this`links, this`shape, this`rounds, this`ops, this`peak, links.Keys
      ensures Valid() && fresh(links.Keys - old(links).Keys)
      ensures key !in old(Contents()) && Contents() == old(Contents())[key := record]
      ensures nodeCount == old(nodeCount) + 1 && root != null && root.key == key
      ensures ops == old(ops) + 1 && peak == Max(old(peak), nodeCount)
      ensures Plug(c, Leaf) == old(shape) && shape == Splayed(c, Br(Leaf, root, Leaf))
      ensures rounds == old(rounds) + Rounds(c)
    {
      hide *;
      AttachReady(key, c);
      ghost var S := shape;
      var z, n := HangAndSplay(key, record, p, c);
      nodeCount := nodeCount + 1;
      AttachOutcome(S, c, z, rounds, ops, peak);
      Commit(Splayed(c, Br(Leaf, z, Leaf)), n, Max(peak, nodeCount));
    }

    /** Inserts the key unless it is there already; the new node is splayed to the root. */
    method Insert(key: int, record: nat) returns (inserted: bool)
      requires Valid()
      modifies this, links.Keys
      ensures Valid() && fresh(links.Keys - old(links).Keys)
      ensures inserted <==> key !in old(Contents())
      ensures Contents() == if inserted then old(Contents())[key := record] else old(Contents())
      ensures nodeCount == old(nodeCount) + if inserted then 1 else 0
      ensures inserted ==> root != null && root.key == key
      ensures !inserted ==> shape == old(shape) && root == old(root) && rounds == old(rounds)
      ensures inserted ==> exists c: Ctx<Node> {:trigger Plug(c, Leaf)} ::
                Plug(c, Leaf) == old(shape) && shape == Splayed(c, Br(Leaf, root, Leaf))
                && rounds == old(rounds) + Rounds(c)
      ensures ops == old(ops) + 1 && peak == Max(old(peak), nodeCount)
    {
      var z := root;
      var p: Node? := null;
      ghost var c, t := Top, shape;
      hide Valid, Matches, Sorted, Reached, Contents, MapOf, Inorder;
      SearchStart(key);
      while z != null
        invariant Matches() && Reached(links, shape, key, c, t) && Opt(z) == RootOf(t) && Opt(p) == ParentOf(c)
        invariant ops == old(ops)
        decreases t
        modifies this`comparisonCount, this`ops
      {
        p := z;
        comparisonCount := comparisonCount + 1;
        Descend(key, shape, c, t, z);
        if key == z.key {
          CountOp();
          return false;
        }
        z, c, t := StepDown(key, z, c, t);
      }
      Attach(key, record, p, c);
      return true;
    }

    // ----- removal -----

    method Replace(u: Node, v: Node?)
      requires Matches() && u in links && LeadsTo(links[u].parent) && LeadsTo(Opt(v))
      modifies this`root, this`links, links.Keys
      ensures Matches() && u in old(links) && links == Replaced(old(links), u, Opt(v))
      ensures root == if old(links)[u].parent.None? then v else old(root)
    {
      hide Matches, Closed;
      Read(u);
      RelinkChild(u, v);
      if v != null {
        Read(u);
        SetUp(v, u.parent);
      }
    }

    lemma AtLeft(c: Ctx<Node>, t: Tree<Node>)
      requires At(c, t) && t.Br? && t.left.Br?
      ensures At(Lft(t.elem, t.right, c), t.left)
    {
      SpellsUp(links, Lft(t.elem, t.right, c), t.left);
    }

    lemma AtRight(c: Ctx<Node>, t: Tree<Node>)
      requires At(c, t) && t.Br? && t.right.Br?
      ensures At(Rgt(t.left, t.elem, c), t.right)
    {
      SpellsUp(links, Rgt(t.left, t.elem, c), t.right);
    }

    /** The leftmost node below u, the right child of the root z, and the path up from it. */
    method SubtreeMinimum(u: Node, ghost l: Tree<Node>, ghost z: Node, ghost r: Tree<Node>)
      returns (y: Node, ghost c: Ctx<Node>, ghost s: Tree<Node>)
      requires At(Top, Br(l, z, r)) && r.Br? && r.elem == u
      ensures At(c, s) && LeftPath(c, l, z) && Inner(c, s) == r && y == Leftmost(r)
      ensures s.Br? && s.elem == y && s.left == Leaf && Opt(y.right) == RootOf(s.right) && Opt(y.parent) == ParentOf(c)
    {
      y, c, s := u, Rgt(l, z, Top), r;
      AtRight(Top, Br(l, z, r));
      AtRoot(c, s);
      hide At;
      while y.left != null
        invariant At(c, s) && LeftPath(c, l, z) && Inner(c, s) == r && s.Br? && s.elem == y
        invariant Opt(y.left) == RootOf(s.left) && Opt(y.right) == RootOf(s.right) && Opt(y.parent) == ParentOf(c)
        decreases s
      {
        AtLeft(c, s);
        y, c, s := y.left, Lft(s.elem, s.right, c), s.left;
        AtRoot(c, s);
      }
      InnerMin(c, s);
    }

    /** The links that Detach follows exist, and what its writes add up to. */
    lemma DetachSteps(y: Node, z: Node, c: Ctx<Node>, l: Tree<Node>, s: Tree<Node>)
      requires At(c, Br(Leaf, y, s)) && LeftPath(c, l, z) && c.Lft? && y != z
      ensures Matches() && y in links && z in links && links[y].parent.Some?
      ensures LeadsTo(links[y].right) && LeadsTo(links[y].parent)
      ensures var G1 := Replaced(links, y, links[y].right);
          G1[z].right.Some? && G1[z].right.value in links
          && G1[z].right.value != y
      ensures ReadyToSwap(Detached(links, z, y), l, z, y, Inner(c, s))
    {
      var G := links;
      AtClosed(c, Br(Leaf, y, s));
      ReplacedSpells(G, c, y, s);
      DetachedReady(G, c, l, z, y, s);
      var G1 := Replaced(G, y, RootOf(s));
      LeftPathPlug(c, l, z, s);
      SpellsAll(G1, c, s);
      PlugElems(c, s);
      assert Rep(G, Br(Leaf, y, s), ParentOf(c));
      assert G[y].right == RootOf(s);
      hide At, Matches, Spells, Replaced, LeftPath;
      assert Rep(G1, Plug(c, s), None);
    }

    /** y, the smallest node on the right of the root z but not its child, leaves its place and takes
        over the rest of that subtree. */
    method Detach(y: Node, z: Node, ghost c: Ctx<Node>, ghost l: Tree<Node>, ghost s: Tree<Node>)
      requires At(c, Br(Leaf, y, s)) && LeftPath(c, l, z) && c.Lft? && y != z
      modifies this`root, this`links, links.Keys
      ensures Matches() && links.Keys == old(links).Keys && z in links && y in links
      ensures ReadyToSwap(links, l, z, y, Inner(c, s)) && root == old(root)
    {
      hide At, Matches, Spells, LeftPath, Inner, ReadyToSwap, Replaced, Elems, CtxElems, Closed, Rep, RepCtx;
      ghost var G := links;
      DetachSteps(y, z, c, l, s);
      Read(y);
      ghost var G1 := Replaced(G, y, G[y].right);
      Replace(y, y.right);
      assert links == G1;
      Read(z);
      SetRight(y, z.right);
      Read(y);
      SetUp(y.right, y);
    }

    /** Takes the root z out of its tree: the smallest node on the right takes its place. */
    method TakeRoot(z: Node, ghost t: Tree<Node>)
      requires At(Top, t) && t.Br? && t.elem == z
      modifies this`root, this`links, links.Keys
      ensures Matches() && Spells(links, Top, WithoutRoot(t)) && links.Keys == old(links).Keys
      ensures Opt(root) == RootOf(WithoutRoot(t))
    {
      AtRoot(Top, t);
      assert t == Br(t.left, z, t.right);
      hide At, Matches, Spells, Inner, LeftPath, RepCtx, Rep, Apart;
      if z.left == null {
        ReplaceRoot(z, z.right, t.right, t);
      } else if z.right == null {
        assert t.right == Leaf;
        ReplaceRoot(z, z.left, t.left, t);
      } else {
        var y, c, s := SubtreeMinimum(z.right, t.left, z, t.right);
        SuccessorTakes(z, y, t, c, s);
      }
    }

    /** A root with only one subtree v makes room for it. */
    method ReplaceRoot(z: Node, n: Node?, ghost v: Tree<Node>, ghost t: Tree<Node>)
      requires At(Top, t) && t.Br? && t.elem == z && Opt(n) == RootOf(v)
      requires t == Br(Leaf, z, v) || t == Br(v, z, Leaf)
      modifies this`root, this`links, links.Keys
      ensures Matches() && Spells(links, Top, v) && links.Keys == old(links).Keys && root == n
    {
      AtClosed(Top, t);
      ReplacedSpells(links, Top, z, v);
      assert LeadsTo(Opt(n)) && links[z].parent == None;
      hide Matches, Spells, Replaced;
      Replace(z, n);
    }

    /** The smallest node on the right of the root takes its place. */
    method SuccessorTakes(z: Node, y: Node, ghost t: Tree<Node>, ghost c: Ctx<Node>, ghost s: Tree<Node>)
      requires t.Br? && t.elem == z && t.left.Br? && t.right.Br?
      requires At(c, s) && LeftPath(c, t.left, z) && Inner(c, s) == t.right
      requires s.Br? && s.elem == y && s.left == Leaf && Opt(y.parent) == ParentOf(c)
      modifies this`root, this`links, links.Keys
      ensures Matches() && Spells(links, Top, WithoutRoot(t)) && links.Keys == old(links).Keys
      ensures Opt(root) == RootOf(WithoutRoot(t))
    {
      InnerMin(c, s);
      SuccessorApart(c, s, t.left, z);
      assert WithoutRoot(t) == Br(t.left, y, Inner(c, s.right));
      hide At, Matches, Spells, Inner, WithoutRoot, ReadyToSwap;
      if y.parent != z {
        Detach(y, z, c, t.left, s.right);
      }
      TakePlace(z, y, t.left, Inner(c, s.right));
    }

    /** The smallest node on the right is not the root, and it is the root's child exactly when the
        path to it has no left turn. */
    lemma SuccessorApart(c: Ctx<Node>, s: Tree<Node>, l: Tree<Node>, z: Node)
      requires At(c, s) && LeftPath(c, l, z) && s.Br? && s.left == Leaf
      ensures s.elem != z && (ParentOf(c) == Some(z) <==> !c.Lft?) && ParentOf(c).Some?
      ensures !c.Lft? ==> Matches() && ReadyToSwap(links, l, z, s.elem, Inner(c, s.right))
    {
      PathRoot(c, l, z);
      if !c.Lft? { SpellsUp(links, c, s); }
    }

    static lemma {:induction false} PathRoot(c: Ctx<Node>, l: Tree<Node>, z: Node)
      requires LeftPath(c, l, z)
      ensures z in CtxElems(c)
      ensures c.Lft? && CtxDistinct(c) ==> c.elem != z
      decreases c
    {
      if c.Lft? { PathRoot(c.up, l, z); }
    }

    lemma SwapSteps(l: Tree<Node>, z: Node, y: Node, r: Tree<Node>)
      requires ReadyToSwap(links, l, z, y, r) && l.Br?
      ensures z in links && y in links && links[z].parent == None && l.elem in links && l.elem != y
      ensures Replaced(links, z, Some(y))[z].left == Some(l.elem) && Spells(Swapped(links, z, y), Top, Br(l, y, r))
    {
      SwappedSpells(links, l, z, y, r);
    }

    method TakePlace(z: Node, y: Node, ghost l: Tree<Node>, ghost r: Tree<Node>)
      requires Matches() && ReadyToSwap(links, l, z, y, r) && l.Br?
      modifies this`root, this`links, links.Keys
      ensures Matches() && Spells(links, Top, Br(l, y, r)) && links.Keys == old(links).Keys && root == y
    {
      hide Matches, Spells, ReadyToSwap, Replaced, Rep, RepCtx, Elems;
      ghost var G := links;
      SwapSteps(l, z, y, r);
      ghost var G1 := Replaced(G, z, Some(y));
      Replace(z, y);
      assert links == G1;
      Read(z);
      SetLeft(y, z.left);
      Read(y);
      SetUp(y.left, y);
    }

    /** What splaying and then dropping the root does to the sequence of keys. */
    static lemma RemovedContents(S: Tree<Node>, c: Ctx<Node>, t: Tree<Node>)
      requires Plug(c, t) == S && t.Br? && Sorted(Inorder(S))
      ensures var T, z := Splayed(c, t), t.elem;
              && T.Br? && T.elem == z && Sorted(Inorder(WithoutRoot(T)))
              && z.key in MapOf(Inorder(S)) && MapOf(Inorder(S))[z.key] == z.record
              && MapOf(Inorder(WithoutRoot(T))) == MapOf(Inorder(S)) - {z.key}
    {
      var T := Splayed(c, t);
      SplayedSame(c, t);
      WithoutRootParts(T);
      hide Inorder, Splayed, WithoutRoot, MapOf, Sorted, Plug, Elems, Distinct;
      MapOfRemove(Inorder(T.left), t.elem, Inorder(T.right));
    }

    /** The tree without the root that was splayed up: its contents and what it cost. */
    static lemma RemoveOutcome(S: Tree<Node>, c: Ctx<Node>, t: Tree<Node>, spent: nat, ops: nat, peak: nat)
      requires Plug(c, t) == S && t.Br? && Sorted(Inorder(S)) && Size(S) <= peak
          && Affordable(spent + Phi(S), ops, peak)
      ensures var T, z := Splayed(c, t), t.elem;
              && T.Br? && T.elem == z && Sorted(Inorder(WithoutRoot(T))) && Size(WithoutRoot(T)) == Size(S) - 1
              && z.key in MapOf(Inorder(S)) && MapOf(Inorder(S))[z.key] == z.record
              && MapOf(Inorder(WithoutRoot(T))) == MapOf(Inorder(S)) - {z.key}
              && Affordable(spent + Rounds(c) + Phi(WithoutRoot(T)), ops + 1, peak)
    {
      hide Inorder, Splayed, WithoutRoot, Phi, Size, Rounds, MapOf, Affordable, Allowance, Sorted, Plug, Log2;
      RemovedContents(S, c, t);
      RemoveBound(c, t);
      Budget(spent + Phi(S), spent + Rounds(c) + Phi(WithoutRoot(Splayed(c, t))), ops, peak, peak, Size(S));
    }

    /** The removed node is free again: it belongs to the tree no more. */
    ghost method Forget(z: Node, T: Tree<Node>)
      requires T.Br? && T.elem == z && Matches() && Spells(links, Top, WithoutRoot(T)) && Distinct(T)
          && links.Keys == Elems(T)
      requires Opt(root) == RootOf(WithoutRoot(T))
      modifies this`links
      ensures At(Top, WithoutRoot(T)) && links.Keys == old(links).Keys - {z}
    {
      WithoutRootParts(T);
      SpellsDrop(links, WithoutRoot(T), z);
      hide Elems, WithoutRoot, Spells, Distinct;
      links := links - {z};
    }

    /** The node z at the root of t inside c is splayed up and then taken out. */
    method SplayAndTake(z: Node, ghost c: Ctx<Node>, ghost t: Tree<Node>) returns (ghost n: nat)
      requires At(c, t) && t.Br? && t.elem == z
      modifies this`root, this`links, links.Keys
      ensures Splayed(c, t).Br? && At(Top, WithoutRoot(Splayed(c, t))) && links.Keys == old(links).Keys - {z}
          && n == Rounds(c)
    {
      SplayedSame(c, t);
      hide At, Splayed, Rounds;
      n := SplayUp(z, c, t);
      WholeTree(Splayed(c, t));
      TakeRoot(z, Splayed(c, t));
      Forget(z, Splayed(c, t));
    }

    lemma WholeTree(T: Tree<Node>)
      requires At(Top, T)
      ensures Distinct(T) && links.Keys == Elems(T)
    {
    }

    lemma RemoveReady(key: int, c: Ctx<Node>, t: Tree<Node>)
      requires Valid() && Reached(links, shape, key, c, t)
      ensures At(c, t) && Plug(c, t) == shape
      ensures nodeCount == Size(shape) <= peak && Affordable(rounds + Phi(shape), ops, peak)
      ensures Sorted(Inorder(shape)) && Contents() == MapOf(Inorder(shape))
    {
      SpellsAll(links, c, t);
      PlugElems<Node>(c, t);
    }

    /** The part of tree_remove after a successful search. */
    method TakeOut(z: Node, key: int, ghost c: Ctx<Node>, ghost t: Tree<Node>) returns (r: nat)
      requires Valid() && Reached(links, shape, key, c, t) && t.Br? && t.elem == z && z.key == key
      modifies this`root, this`nodeCount, this`links, this`shape, this`rounds, this`ops, this`peak, links.Keys
      ensures Valid() && links.Keys == old(links).Keys - {z}
      ensures key in old(Contents()) && r == old(Contents())[key] && Contents() == old(Contents()) - {key}
      ensures nodeCount == old(nodeCount) - 1 && ops == old(ops) + 1 && peak == old(peak)
      ensures Plug(c, t) == old(shape) && Splayed(c, t).Br? && shape == WithoutRoot(Splayed(c, t))
      ensures rounds == old(rounds) + Rounds(c)
    {
      hide *;
      RemoveReady(key, c, t);
      ghost var S := shape;
      ghost var T := Splayed(c, t);
      RemoveOutcome(S, c, t, rounds, ops, peak);
      var n := SplayAndTake(z, c, t);
      r := z.record;
      nodeCount := nodeCount - 1;
      Commit(WithoutRoot(T), n, peak);
    }

    /** Removes the key and returns its record, or returns NULL if the key is not there. */
    method Remove(key: int) returns (r: nat)
      requires Valid()
      modifies this, links.Keys
      ensures Valid() && links.Keys <= old(links).Keys
      ensures r == if key in old(Contents()) then old(Contents())[key] else 0
      ensures Contents() == old(Contents()) - {key}
      ensures nodeCount == old(nodeCount) - if key in old(Contents()) then 1 else 0
      ensures key !in old(Contents()) ==> shape == old(shape) && root == old(root) && rounds == old(rounds)
      ensures key in old(Contents()) ==> exists c: Ctx<Node>, t: Tree<Node> {:trigger Plug(c, t)} ::
                Plug(c, t) == old(shape) && t.Br? && t.elem.key == key && Splayed(c, t).Br?
                && shape == WithoutRoot(Splayed(c, t)) && rounds == old(rounds) + Rounds(c)
      ensures ops == old(ops) + 1 && peak == old(peak)
    {
      var z := root;
      ghost var c, t := Top, shape;
      hide Valid, Matches, Sorted, Reached, Contents, MapOf, Inorder;
      SearchStart(key);
      while z != null && z.key != key
        invariant Matches() && Reached(links, shape, key, c, t) && Opt(z) == RootOf(t)
        decreases t
        modifies this`comparisonCount
      {
        z, c, t := StepDown(key, z, c, t);
      }
      if z == null {
        SearchMissed(links, shape, key, c, t);
        CountOp();
        return 0;
      }
      r := TakeOut(z, key, c, t);
    }
  }
}
