/** The pointers of a linked tree, taken down as a map from nodes to their three links, and what it
    means for such links to spell out a shape. Everything here is about values; SplayTree ties the
    links to the fields of the nodes. */
module TreeLinks {
  import opened Basics
  import opened Trees

  datatype Links<T> = Links(left: Option<T>, right: Option<T>, parent: Option<T>)

  type Graph<T> = map<T, Links<T>>

  function RootOf<T>(t: Tree<T>): Option<T> {
    if t == Leaf then None else Some(t.elem)
  }

  /** The element just above the hole of a path. */
  function ParentOf<T>(c: Ctx<T>): Option<T> {
    if c == Top then None else Some(c.elem)
  }

  /** Below parent p, the links spell out t. */
  ghost predicate Rep<T>(G: Graph<T>, t: Tree<T>, p: Option<T>) {
    match t
    case Leaf => true
    case Br(l, x, r) => x in G && G[x] == Links(RootOf(l), RootOf(r), p) && Rep(G, l, Some(x)) && Rep(G, r, Some(x))
  }

  /** Above the hole, filled with n, the links spell out c. */
  ghost predicate RepCtx<T>(G: Graph<T>, c: Ctx<T>, n: Option<T>)
    decreases c
  {
    match c
    case Top => true
    case Lft(x, r, up) => x in G && G[x] == Links(n, RootOf(r), ParentOf(up)) && Rep(G, r, Some(x))
        && RepCtx(G, up, Some(x))
    case Rgt(l, x, up) =>
        x in G && G[x] == Links(RootOf(l), n, ParentOf(up)) && Rep(G, l, Some(x))
        && RepCtx(G, up, Some(x))
  }

  /** The root once the hole of c is filled with n. */
  function RootAbove<T>(c: Ctx<T>, n: Option<T>): Option<T>
    decreases c
  {
    if c == Top then n else RootAbove(c.up, Some(c.elem))
  }

  /** The links spell out t inside c, and nothing occurs twice. */
  ghost predicate Spells<T>(G: Graph<T>, c: Ctx<T>, t: Tree<T>) {
    Apart(c, t) && Rep(G, t, ParentOf(c)) && RepCtx(G, c, RootOf(t))
  }

  // ----- what does not change -----

  lemma {:induction false} RepFrame<T>(G: Graph<T>, H: Graph<T>, t: Tree<T>, p: Option<T>)
    requires Rep(G, t, p)
    requires forall x :: x in Elems(t) && x in G ==> x in H && H[x] == G[x]
    ensures Rep(H, t, p)
  {
    if t.Br? {
      RepFrame(G, H, t.left, Some(t.elem));
      RepFrame(G, H, t.right, Some(t.elem));
    }
  }

  lemma {:induction false} RepCtxFrame<T>(G: Graph<T>, H: Graph<T>, c: Ctx<T>, n: Option<T>)
    requires RepCtx(G, c, n)
    requires forall x :: x in CtxElems(c) && x in G ==> x in H && H[x] == G[x]
    ensures RepCtx(H, c, n)
    decreases c
  {
    match c
    case Top =>
    case Lft(x, r, up) =>
      RepFrame(G, H, r, Some(x));
      RepCtxFrame(G, H, up, Some(x));
    case Rgt(l, x, up) =>
      RepFrame(G, H, l, Some(x));
      RepCtxFrame(G, H, up, Some(x));
  }

  /** Moving the hole up by one node. */
  lemma SpellsUp<T>(G: Graph<T>, c: Ctx<T>, t: Tree<T>)
    requires c != Top
    ensures Spells(G, c, t) <==> Spells(G, c.up, if c.Lft? then Br(t, c.elem, c.right) else Br(c.left, c.elem, t))
  {
  }

  lemma {:induction false} SpellsAll<T>(G: Graph<T>, c: Ctx<T>, t: Tree<T>)
    ensures Spells(G, c, t) <==> Spells(G, Top, Plug(c, t))
    ensures RootOf(Plug(c, t)) == RootAbove(c, RootOf(t))
    decreases c
  {
    if c != Top {
      SpellsUp(G, c, t);
      SpellsAll(G, c.up, if c.Lft? then Br(t, c.elem, c.right) else Br(c.left, c.elem, t));
    }
  }

  // ----- relinking -----

  function SetParent<T>(G: Graph<T>, n: Option<T>, p: Option<T>): (H: Graph<T>)
    ensures H.Keys == G.Keys
  {
    if n.Some? && n.value in G then G[n.value := G[n.value].(parent := p)] else G
  }

  /** The child link of p that leads to x, or the root, leads to n instead. */
  function SetChild<T>(G: Graph<T>, p: Option<T>, x: T, n: Option<T>): (H: Graph<T>)
    ensures H.Keys == G.Keys
  {
    if p.None? || p.value !in G then G
    else if G[p.value].left == Some(x) then G[p.value := G[p.value].(left := n)]
    else G[p.value := G[p.value].(right := n)]
  }

  /** A subtree gets a new parent. */
  lemma SetParentRep<T>(G: Graph<T>, t: Tree<T>, p: Option<T>, q: Option<T>)
    requires Distinct(t) && Rep(G, t, p)
    ensures Rep(SetParent(G, RootOf(t), q), t, q)
  {
    if t.Br? {
      RepFrame(G, SetParent(G, RootOf(t), q), t.left, Some(t.elem));
      RepFrame(G, SetParent(G, RootOf(t), q), t.right, Some(t.elem));
    }
  }

  /** The hole of a path gets a new filling. */
  lemma SetChildRepCtx<T>(G: Graph<T>, c: Ctx<T>, x: T, n: Option<T>)
    requires CtxDistinct(c) && x !in CtxElems(c) && RepCtx(G, c, Some(x))
    ensures RepCtx(SetChild(G, ParentOf(c), x, n), c, n)
  {
    var H := SetChild(G, ParentOf(c), x, n);
    match c
    case Top =>
    case Lft(y, r, up) =>
      RepFrame(G, H, r, Some(y));
      RepCtxFrame(G, H, up, Some(y));
    case Rgt(l, y, up) =>
      RepFrame(G, H, l, Some(y));
      RepCtxFrame(G, H, up, Some(y));
  }

  // ----- rotations -----

  /** The links after a left rotation at x, in the order the code writes them. */
  function LeftRotated<T>(G: Graph<T>, x: T): (H: Graph<T>)
    requires x in G && G[x].right.Some? && G[x].right.value in G && G[x].right.value != x
    ensures H.Keys == G.Keys
  {
    var y := G[x].right.value;
    var b := G[y].left;
    var G1 := SetParent(G[x := G[x].(right := b)], b, Some(x));
    var G2 := SetParent(G1, Some(y), G1[x].parent);
    var G3 := SetChild(G2, G2[x].parent, x, Some(y));
    var G4 := G3[y := G3[y].(left := Some(x))];
    G4[x := G4[x].(parent := Some(y))]
  }

  function RightRotated<T>(G: Graph<T>, x: T): (H: Graph<T>)
    requires x in G && G[x].left.Some? && G[x].left.value in G && G[x].left.value != x
    ensures H.Keys == G.Keys
  {
    var y := G[x].left.value;
    var b := G[y].right;
    var G1 := SetParent(G[x := G[x].(left := b)], b, Some(x));
    var G2 := SetParent(G1, Some(y), G1[x].parent);
    var G3 := SetChild(G2, G2[x].parent, x, Some(y));
    var G4 := G3[y := G3[y].(right := Some(x))];
    G4[x := G4[x].(parent := Some(y))]
  }

  lemma LeftRotatedParts<T>(G: Graph<T>, c: Ctx<T>, t: Tree<T>)
    requires t.Br? && t.right.Br? && Spells(G, c, t)
    ensures var x, y, a, b, d := t.elem, t.right.elem, t.left, t.right.left, t.right.right;
            && x in G && y in G && x != y && {x, y} !! Elems(a) && {x, y} !! Elems(b) && {x, y} !! Elems(d)
               && {x, y} !! CtxElems(c)
            && Elems(b) !! Elems(a) && Elems(b) !! Elems(d) && (Elems(a) + Elems(b) + Elems(d)) !! CtxElems(c)
            && G[x].left == RootOf(a) && G[x].right == Some(y) && G[x].parent == ParentOf(c)
            && G[y].left == RootOf(b) && G[y].right == RootOf(d) && G[y].parent == Some(x)
            && Rep(G, a, Some(x)) && Rep(G, b, Some(y)) && Rep(G, d, Some(y)) && Distinct(b)
  {
    assert Distinct(t.right) && Rep(G, t.right, Some(t.elem));
  }

  lemma LeftRotatedSpells<T>(G: Graph<T>, c: Ctx<T>, t: Tree<T>)
    requires t.Br? && t.right.Br? && Spells(G, c, t)
    ensures t.elem in G && G[t.elem].right.Some? && G[t.elem].right.value in G && G[t.elem].right.value != t.elem
    ensures Spells(LeftRotated(G, t.elem), c, RotLeft(t)) && LeftRotated(G, t.elem).Keys == G.Keys
  {
    LeftRotatedParts(G, c, t);
    var Br(a, x, Br(b, y, d)) := t;
    var H := LeftRotated(G, x);
    RotSame(t);
    LeftRotatedBelow(G, c, t);
    LeftRotatedAbove(G, c, t);
  }

  lemma LeftRotatedBelow<T>(G: Graph<T>, c: Ctx<T>, t: Tree<T>)
    requires t.Br? && t.right.Br? && Spells(G, c, t) && t.elem in G && t.right.elem in G
        && G[t.elem].right == Some(t.right.elem)
    requires t.elem != t.right.elem
    ensures var H, x, y := LeftRotated(G, t.elem), t.elem, t.right.elem;
            Rep(H, t.left, Some(x)) && Rep(H, t.right.left, Some(x)) && Rep(H, t.right.right, Some(y))
  {
    LeftRotatedParts(G, c, t);
    var Br(a, x, Br(b, y, d)) := t;
    hide Elems, CtxElems, Rep, RepCtx, Distinct, CtxDistinct;
    var H := LeftRotated(G, x);
    var G0 := G[x := G[x].(right := RootOf(b))];
    RepFrame(G, H, a, Some(x));
    RepFrame(G, H, d, Some(y));
    RepFrame(G, G0, b, Some(y));
    SetParentRep(G0, b, Some(y), Some(x));
    RepFrame(SetParent(G0, RootOf(b), Some(x)), H, b, Some(x));
  }

  lemma LeftRotatedAbove<T>(G: Graph<T>, c: Ctx<T>, t: Tree<T>)
    requires t.Br? && t.right.Br? && Spells(G, c, t) && t.elem in G && t.right.elem in G
        && G[t.elem].right == Some(t.right.elem)
    requires t.elem != t.right.elem
    ensures RepCtx(LeftRotated(G, t.elem), c, Some(t.right.elem))
  {
    LeftRotatedParts(G, c, t);
    var Br(a, x, Br(b, y, d)) := t;
    assert b.Br? ==> b.elem in Elems(b);
    hide Elems, CtxElems, Rep, RepCtx, Distinct, CtxDistinct;
    var H := LeftRotated(G, x);
    var G2 := SetParent(SetParent(G[x := G[x].(right := RootOf(b))], RootOf(b), Some(x)), Some(y), ParentOf(c));
    RepCtxFrame(G, G2, c, Some(x));
    SetChildRepCtx(G2, c, x, Some(y));
    RepCtxFrame(SetChild(G2, ParentOf(c), x, Some(y)), H, c, Some(y));
  }

  lemma RightRotatedParts<T>(G: Graph<T>, c: Ctx<T>, t: Tree<T>)
    requires t.Br? && t.left.Br? && Spells(G, c, t)
    ensures var x, y, a, b, d := t.elem, t.left.elem, t.right, t.left.right, t.left.left;
            && x in G && y in G && x != y && {x, y} !! Elems(a) && {x, y} !! Elems(b) && {x, y} !! Elems(d)
               && {x, y} !! CtxElems(c)
            && Elems(b) !! Elems(a) && Elems(b) !! Elems(d) && (Elems(a) + Elems(b) + Elems(d)) !! CtxElems(c)
            && G[x].right == RootOf(a) && G[x].left == Some(y) && G[x].parent == ParentOf(c)
            && G[y].right == RootOf(b) && G[y].left == RootOf(d) && G[y].parent == Some(x)
            && Rep(G, a, Some(x)) && Rep(G, b, Some(y)) && Rep(G, d, Some(y)) && Distinct(b)
  {
    assert Distinct(t.left) && Rep(G, t.left, Some(t.elem));
  }

  lemma RightRotatedSpells<T>(G: Graph<T>, c: Ctx<T>, t: Tree<T>)
    requires t.Br? && t.left.Br? && Spells(G, c, t)
    ensures t.elem in G && G[t.elem].left.Some? && G[t.elem].left.value in G && G[t.elem].left.value != t.elem
    ensures Spells(RightRotated(G, t.elem), c, RotRight(t)) && RightRotated(G, t.elem).Keys == G.Keys
  {
    RightRotatedParts(G, c, t);
    var Br(Br(d, y, b), x, a) := t;
    var H := RightRotated(G, x);
    RotSame(t);
    RightRotatedBelow(G, c, t);
    RightRotatedAbove(G, c, t);
  }

  lemma RightRotatedBelow<T>(G: Graph<T>, c: Ctx<T>, t: Tree<T>)
    requires t.Br? && t.left.Br? && Spells(G, c, t) && t.elem in G && t.left.elem in G
        && G[t.elem].left == Some(t.left.elem)
    requires t.elem != t.left.elem
    ensures var H, x, y := RightRotated(G, t.elem), t.elem, t.left.elem;
            Rep(H, t.right, Some(x)) && Rep(H, t.left.right, Some(x)) && Rep(H, t.left.left, Some(y))
  {
    RightRotatedParts(G, c, t);
    var Br(Br(d, y, b), x, a) := t;
    hide Elems, CtxElems, Rep, RepCtx, Distinct, CtxDistinct;
    var H := RightRotated(G, x);
    var G0 := G[x := G[x].(left := RootOf(b))];
    RepFrame(G, H, a, Some(x));
    RepFrame(G, H, d, Some(y));
    RepFrame(G, G0, b, Some(y));
    SetParentRep(G0, b, Some(y), Some(x));
    RepFrame(SetParent(G0, RootOf(b), Some(x)), H, b, Some(x));
  }

  lemma RightRotatedAbove<T>(G: Graph<T>, c: Ctx<T>, t: Tree<T>)
    requires t.Br? && t.left.Br? && Spells(G, c, t) && t.elem in G && t.left.elem in G
        && G[t.elem].left == Some(t.left.elem)
    requires t.elem != t.left.elem
    ensures RepCtx(RightRotated(G, t.elem), c, Some(t.left.elem))
  {
    RightRotatedParts(G, c, t);
    var Br(Br(d, y, b), x, a) := t;
    assert b.Br? ==> b.elem in Elems(b);
    hide Elems, CtxElems, Rep, RepCtx, Distinct, CtxDistinct;
    var H := RightRotated(G, x);
    var G2 := SetParent(SetParent(G[x := G[x].(left := RootOf(b))], RootOf(b), Some(x)), Some(y), ParentOf(c));
    RepCtxFrame(G, G2, c, Some(x));
    SetChildRepCtx(G2, c, x, Some(y));
    RepCtxFrame(SetChild(G2, ParentOf(c), x, Some(y)), H, c, Some(y));
  }

  // ----- the links of a whole tree -----

  lemma {:induction false} RepClosed<T>(G: Graph<T>, t: Tree<T>, p: Option<T>, x: T)
    requires Rep(G, t, p) && x in Elems(t)
    ensures x in G
    ensures G[x].left.Some? ==> G[x].left.value in Elems(t)
    ensures G[x].right.Some? ==> G[x].right.value in Elems(t)
    ensures G[x].parent == p || (G[x].parent.Some? && G[x].parent.value in Elems(t))
  {
    if x in Elems(t.left) {
      RepClosed(G, t.left, Some(t.elem), x);
    } else if x in Elems(t.right) {
      RepClosed(G, t.right, Some(t.elem), x);
    }
  }

  /** In a whole tree all elements have links, and no link leads outside. */
  lemma SpellsClosed<T>(G: Graph<T>, c: Ctx<T>, t: Tree<T>, x: T)
    requires Spells(G, c, t) && x in CtxElems(c) + Elems(t)
    ensures var S := CtxElems(c) + Elems(t);
            && x in G
            && (G[x].left.Some? ==> G[x].left.value in S)
            && (G[x].right.Some? ==> G[x].right.value in S)
            && (G[x].parent.Some? ==> G[x].parent.value in S)
  {
    SpellsAll(G, c, t);
    PlugElems(c, t);
    RepClosed(G, Plug(c, t), None, x);
  }

  /** A round of the splay loop on links: the outer rotation first on the same side, the inner one
      first on opposite sides. */
  lemma SpellsUp2<T>(G: Graph<T>, c: Ctx<T>, t: Tree<T>)
    requires c != Top && Spells(G, c, t)
    ensures Spells(G, c.up, if c.Lft? then Br(t, c.elem, c.right) else Br(c.left, c.elem, t))
    ensures c.elem in G && G[c.elem].left == (if c.Lft? then RootOf(t) else RootOf(c.left))
        && G[c.elem].right == (if c.Lft? then RootOf(c.right) else RootOf(t))
    ensures G[c.elem].parent == ParentOf(c.up)
    ensures c.Rgt? && t.Br? ==> RootOf(c.left) != RootOf(t)
    ensures c.Lft? && t.Br? ==> RootOf(c.right) != RootOf(t)
    ensures CtxElems(c) + Elems(t) == CtxElems(c.up) + Elems(if c.Lft? then Br(t, c.elem, c.right)
        else Br(c.left, c.elem, t))
    ensures RootAbove(c, RootOf(t)) == RootAbove(c.up, Some(c.elem))
  {
    SpellsUp(G, c, t);
  }

  /** A new leaf z in an empty hole. */
  function WithLeaf<T>(G: Graph<T>, c: Ctx<T>, z: T): Graph<T> {
    var H := G[z := Links(None, None, ParentOf(c))];
    match c
    case Top => H
    case Lft(p, _, _) => if p in H then H[p := H[p].(left := Some(z))] else H
    case Rgt(_, p, _) => if p in H then H[p := H[p].(right := Some(z))] else H
  }

  lemma WithLeafSpells<T>(G: Graph<T>, c: Ctx<T>, z: T)
    requires Spells(G, c, Leaf) && z !in G && z !in CtxElems(c)
    ensures Spells(WithLeaf(G, c, z), c, Br(Leaf, z, Leaf))
  {
    var H := WithLeaf(G, c, z);
    match c
    case Top =>
    case Lft(p, r, up) =>
      RepFrame(G, H, r, Some(p));
      RepCtxFrame(G, H, up, Some(p));
    case Rgt(l, p, up) =>
      RepFrame(G, H, l, Some(p));
      RepCtxFrame(G, H, up, Some(p));
  }

  // ----- deleting -----

  /** The links after replace(u, v): what leads to u leads to v, and v has the parent of u. */
  function Replaced<T>(G: Graph<T>, u: T, v: Option<T>): (H: Graph<T>)
    requires u in G
    ensures H.Keys == G.Keys
  {
    SetParent(SetChild(G, G[u].parent, u, v), v, G[u].parent)
  }

  /** A node with at most one child can be replaced by that child. */
  lemma ReplacedSpells<T>(G: Graph<T>, c: Ctx<T>, u: T, v: Tree<T>)
    requires Spells(G, c, Br(Leaf, u, v)) || Spells(G, c, Br(v, u, Leaf))
    ensures u in G && Spells(Replaced(G, u, RootOf(v)), c, v) && Replaced(G, u, RootOf(v))[u] == G[u]
    ensures u !in CtxElems(c) + Elems(v)
  {
    var H1 := SetChild(G, ParentOf(c), u, RootOf(v));
    var H := SetParent(H1, RootOf(v), ParentOf(c));
    assert v.Br? ==> v.elem in Elems(v);
    assert c != Top ==> c.elem in CtxElems(c);
    SetChildRepCtx(G, c, u, RootOf(v));
    RepCtxFrame(H1, H, c, RootOf(v));
    RepFrame(G, H1, v, Some(u));
    SetParentRep(H1, v, Some(u), ParentOf(c));
  }

  /** z still has its left subtree l; y, already outside it, has the right subtree r. */
  ghost predicate ReadyToSwap<T>(G: Graph<T>, l: Tree<T>, z: T, y: T, r: Tree<T>) {
    && z in G && y in G && z != y && {z, y} !! Elems(l) && {z, y} !! Elems(r) && Elems(l) !! Elems(r)
    && Distinct(l) && Distinct(r) && Rep(G, l, Some(z)) && Rep(G, r, Some(y))
    && G[z].left == RootOf(l) && G[z].parent == None && G[y].right == RootOf(r)
  }

  /** The links after y has taken the place of z at the root. */
  function Swapped<T>(G: Graph<T>, z: T, y: T): Graph<T>
    requires z in G && y in G
  {
    var G1 := Replaced(G, z, Some(y));
    var G2 := G1[y := G1[y].(left := G1[z].left)];
    SetParent(G2, G2[y].left, Some(y))
  }

  lemma SwappedSpells<T>(G: Graph<T>, l: Tree<T>, z: T, y: T, r: Tree<T>)
    requires ReadyToSwap(G, l, z, y, r)
    ensures Spells(Swapped(G, z, y), Top, Br(l, y, r))
  {
    var G1 := Replaced(G, z, Some(y));
    var G2 := G1[y := G1[y].(left := G1[z].left)];
    var H := SetParent(G2, G2[y].left, Some(y));
    assert l.Br? ==> l.elem in Elems(l);
    RepFrame(G, H, r, Some(y));
    RepFrame(G, G2, l, Some(z));
    SetParentRep(G2, l, Some(z), Some(y));
  }

  /** The links after y, the minimum of the right subtree of z, has been replaced by its own right
      child and has taken over what is left of that subtree. */
  function Detached<T>(G: Graph<T>, z: T, y: T): Graph<T>
    requires z in G && y in G
  {
    var G1 := Replaced(G, y, G[y].right);
    var G2 := G1[y := G1[y].(right := G1[z].right)];
    SetParent(G2, G2[y].right, Some(y))
  }

  lemma DetachedReady<T>(G: Graph<T>, c: Ctx<T>, l: Tree<T>, z: T, y: T, yr: Tree<T>)
    requires Spells(G, c, Br(Leaf, y, yr)) && LeftPath(c, l, z) && c.Lft?
    ensures z in G && y in G && ReadyToSwap(Detached(G, z, y), l, z, y, Inner(c, yr))
  {
    ReplacedSpells(G, c, y, yr);
    var G1 := Replaced(G, y, RootOf(yr));
    assert G[y].right == RootOf(yr);
    LeftPathPlug(c, l, z, yr);
    SpellsAll(G1, c, yr);
    PlugElems(c, yr);
    PlugDistinct(c, yr);
    var r := Inner(c, yr);
    var G2 := G1[y := G1[y].(right := G1[z].right)];
    var H := SetParent(G2, G2[y].right, Some(y));
    RepFrame(G1, H, l, Some(z));
    RepFrame(G1, G2, r, Some(z));
    SetParentRep(G2, r, Some(z), Some(y));
  }

  /** Dropping links that are not used. */
  lemma SpellsDrop<T>(G: Graph<T>, t: Tree<T>, z: T)
    requires Spells(G, Top, t) && z !in Elems(t)
    ensures Spells(G - {z}, Top, t)
  {
    RepFrame(G, G - {z}, t, None);
  }
}
