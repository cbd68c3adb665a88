/** Binary trees and paths into them: the shapes that the splay tree's pointers spell out.

    A path (Ctx) is a tree with one subtree missing, recorded from the hole upwards. Splaying is
    described on a subtree and the path above it. */
module Trees {

  datatype Tree<T> = Leaf | Br(left: Tree<T>, elem: T, right: Tree<T>)

  /** Lft: the hole is a left child of elem; Rgt: it is a right child. */
  datatype Ctx<T> = Top | Lft(elem: T, right: Tree<T>, up: Ctx<T>) | Rgt(left: Tree<T>, elem: T, up: Ctx<T>)

  ghost function Elems<T>(t: Tree<T>): set<T> {
    match t
    case Leaf => {}
    case Br(l, x, r) => Elems(l) + {x} + Elems(r)
  }

  ghost function CtxElems<T>(c: Ctx<T>): set<T> {
    match c
    case Top => {}
    case Lft(x, r, up) => {x} + Elems(r) + CtxElems(up)
    case Rgt(l, x, up) => Elems(l) + {x} + CtxElems(up)
  }

  function Inorder<T>(t: Tree<T>): seq<T> {
    match t
    case Leaf => []
    case Br(l, x, r) => Inorder(l) + [x] + Inorder(r)
  }

  /** What comes before, and after, the hole of a path. */
  function Before<T>(c: Ctx<T>): seq<T> {
    match c
    case Top => []
    case Lft(_, _, up) => Before(up)
    case Rgt(l, x, up) => Before(up) + Inorder(l) + [x]
  }

  function After<T>(c: Ctx<T>): seq<T> {
    match c
    case Top => []
    case Lft(x, r, up) => [x] + Inorder(r) + After(up)
    case Rgt(_, _, up) => After(up)
  }

  function Plug<T>(c: Ctx<T>, t: Tree<T>): Tree<T>
    decreases c
  {
    match c
    case Top => t
    case Lft(x, r, up) => Plug(up, Br(t, x, r))
    case Rgt(l, x, up) => Plug(up, Br(l, x, t))
  }

  lemma Regroup<T>(a: seq<T>, b: seq<T>, c: seq<T>, d: seq<T>, e: seq<T>)
    ensures a + (b + c + d) + e == a + b + (c + d + e)
    ensures a + (b + c + d) + e == (a + b + c) + d + e
  {
  }

  lemma {:induction false} PlugInorder<T>(c: Ctx<T>, t: Tree<T>)
    ensures Inorder(Plug(c, t)) == Before(c) + Inorder(t) + After(c)
    decreases c
  {
    match c
    case Top =>
    case Lft(x, r, up) =>
      PlugInorder(up, Br(t, x, r));
      Regroup(Before(up), Inorder(t), [x], Inorder(r), After(up));
    case Rgt(l, x, up) =>
      PlugInorder(up, Br(l, x, t));
      Regroup(Before(up), Inorder(l), [x], Inorder(t), After(up));
  }

  lemma {:induction false} PlugElems<T>(c: Ctx<T>, t: Tree<T>)
    ensures Elems(Plug(c, t)) == CtxElems(c) + Elems(t)
    decreases c
  {
    match c
    case Top =>
    case Lft(x, r, up) => PlugElems(up, Br(t, x, r));
    case Rgt(l, x, up) => PlugElems(up, Br(l, x, t));
  }

  // ----- no element occurs twice -----

  ghost predicate Distinct<T>(t: Tree<T>) {
    match t
    case Leaf => true
    case Br(l, x, r) => Distinct(l) && Distinct(r) && x !in Elems(l) && x !in Elems(r) && Elems(l) !! Elems(r)
  }

  ghost predicate CtxDistinct<T>(c: Ctx<T>) {
    match c
    case Top => true
    case Lft(x, r, up) => Distinct(r) && CtxDistinct(up) && x !in Elems(r) && x !in CtxElems(up)
        && Elems(r) !! CtxElems(up)
    case Rgt(l, x, up) =>
        Distinct(l) && CtxDistinct(up) && x !in Elems(l) && x !in CtxElems(up)
        && Elems(l) !! CtxElems(up)
  }

  /** The subtree and the path above it share nothing. */
  ghost predicate Apart<T>(c: Ctx<T>, t: Tree<T>) {
    Distinct(t) && CtxDistinct(c) && Elems(t) !! CtxElems(c)
  }

  lemma {:induction false} PlugDistinct<T>(c: Ctx<T>, t: Tree<T>)
    ensures Distinct(Plug(c, t)) <==> Apart(c, t)
    decreases c
  {
    match c
    case Top =>
    case Lft(x, r, up) => PlugDistinct(up, Br(t, x, r));
    case Rgt(l, x, up) => PlugDistinct(up, Br(l, x, t));
  }

  // ----- rotations -----

  function RotRight<T>(t: Tree<T>): Tree<T> {
    match t
    case Br(Br(a, y, b), x, c) => Br(a, y, Br(b, x, c))
    case _ => t
  }

  function RotLeft<T>(t: Tree<T>): Tree<T> {
    match t
    case Br(a, x, Br(b, y, c)) => Br(Br(a, x, b), y, c)
    case _ => t
  }

  /** Two trees with the same in-order sequence and the same distinctness. */
  ghost predicate Same<T>(t: Tree<T>, u: Tree<T>) {
    Inorder(t) == Inorder(u) && Elems(t) == Elems(u) && (Distinct(t) <==> Distinct(u))
  }

  lemma RotSame<T>(t: Tree<T>)
    ensures Same(t, RotRight(t)) && Same(t, RotLeft(t))
  {
    match t {
      case Br(Br(a, y, b), x, c) => Rotation(a, y, b, x, c);
      case _ =>
    }
    match t {
      case Br(a, x, Br(b, y, c)) => Rotation(a, x, b, y, c);
      case _ =>
    }
  }

  lemma Rotation<T>(a: Tree<T>, x: T, b: Tree<T>, y: T, c: Tree<T>)
    ensures Same(Br(Br(a, x, b), y, c), Br(a, x, Br(b, y, c)))
  {
    Regroup(Inorder(a), [x], Inorder(b), [y], Inorder(c));
    assert Inorder(Br(Br(a, x, b), y, c)) == Inorder(a) + [x] + Inorder(b) + [y] + Inorder(c);
    assert Inorder(Br(a, x, Br(b, y, c))) == Inorder(a) + [x] + (Inorder(b) + [y] + Inorder(c));
  }

  lemma PlugSame<T>(c: Ctx<T>, t: Tree<T>, u: Tree<T>)
    requires Same(t, u)
    ensures Same(Plug(c, t), Plug(c, u))
  {
    PlugInorder(c, t);
    PlugInorder(c, u);
    PlugElems(c, t);
    PlugElems(c, u);
    PlugDistinct(c, t);
    PlugDistinct(c, u);
  }

  // ----- splaying on shapes -----

  /** The path above the hole after one round of the splay loop. */
  function StepCtx<T>(c: Ctx<T>): Ctx<T>
    requires c != Top
  {
    if c.up == Top then Top else c.up.up
  }

  /** The tree at the hole after one round, as the rotations in the order the loop makes them. */
  function StepTree<T>(c: Ctx<T>, t: Tree<T>): Tree<T>
    requires c != Top
  {
    match c
    case Lft(p, s, Top) => RotRight(Br(t, p, s))
    case Rgt(s, p, Top) => RotLeft(Br(s, p, t))
    case Lft(p, s, Lft(g, d, _)) => RotRight(RotRight(Br(Br(t, p, s), g, d)))
    case Rgt(s, p, Rgt(d, g, _)) => RotLeft(RotLeft(Br(d, g, Br(s, p, t))))
    case Lft(p, s, Rgt(d, g, _)) => RotLeft(Br(d, g, RotRight(Br(t, p, s))))
    case Rgt(s, p, Lft(g, d, _)) => RotRight(Br(RotLeft(Br(s, p, t)), g, d))
  }

  /** The whole loop: the resulting tree, and the number of rounds. */
  function Splayed<T>(c: Ctx<T>, t: Tree<T>): Tree<T>
    decreases c
  {
    if c == Top then t else Splayed(StepCtx(c), StepTree(c, t))
  }

  function Rounds<T>(c: Ctx<T>): nat
    decreases c
  {
    if c == Top then 0 else 1 + Rounds(StepCtx(c))
  }

  /** A round brings the element at the hole up and changes neither the order nor the distinctness. */
  lemma StepKeeps<T>(c: Ctx<T>, t: Tree<T>)
    requires t.Br? && c != Top
    ensures StepTree(c, t).Br? && StepTree(c, t).elem == t.elem
    ensures Same(Plug(c, t), Plug(StepCtx(c), StepTree(c, t)))
  {
    match c
    case Lft(p, s, Top) => RotSame(Br(t, p, s));
    case Rgt(s, p, Top) => RotSame(Br(s, p, t));
    case Lft(p, s, Lft(g, d, up)) =>
      RotSame(Br(Br(t, p, s), g, d));
      RotSame(RotRight(Br(Br(t, p, s), g, d)));
      PlugSame(up, Br(Br(t, p, s), g, d), StepTree(c, t));
    case Rgt(s, p, Rgt(d, g, up)) =>
      RotSame(Br(d, g, Br(s, p, t)));
      RotSame(RotLeft(Br(d, g, Br(s, p, t))));
      PlugSame(up, Br(d, g, Br(s, p, t)), StepTree(c, t));
    case Lft(p, s, Rgt(d, g, up)) =>
      ZigZag(c, t);
      PlugSame(up, Br(d, g, Br(t, p, s)), StepTree(c, t));
    case Rgt(s, p, Lft(g, d, up)) =>
      ZigZag(c, t);
      PlugSame(up, Br(Br(s, p, t), g, d), StepTree(c, t));
  }

  lemma ZigZag<T>(c: Ctx<T>, t: Tree<T>)
    requires t.Br?
    ensures match c
            case Lft(p, s, Rgt(d, g, up)) => Same(Br(d, g, Br(t, p, s)), StepTree(c, t))
            case Rgt(s, p, Lft(g, d, up)) => Same(Br(Br(s, p, t), g, d), StepTree(c, t))
            case _ => true
  {
    match c
    case Lft(p, s, Rgt(d, g, up)) =>
      RotSame(Br(t, p, s));
      PlugSame(Rgt(d, g, Top), Br(t, p, s), RotRight(Br(t, p, s)));
      RotSame(Br(d, g, RotRight(Br(t, p, s))));
    case Rgt(s, p, Lft(g, d, up)) =>
      RotSame(Br(s, p, t));
      PlugSame(Lft(g, d, Top), Br(s, p, t), RotLeft(Br(s, p, t)));
      RotSame(Br(RotLeft(Br(s, p, t)), g, d));
    case _ =>
  }

  /** Splaying brings the element to the root and keeps the in-order sequence. */
  lemma {:induction false} SplayedSame<T>(c: Ctx<T>, t: Tree<T>)
    requires t.Br?
    ensures Splayed(c, t).Br? && Splayed(c, t).elem == t.elem && Same(Plug(c, t), Splayed(c, t))
    decreases c
  {
    if c != Top {
      StepKeeps(c, t);
      SplayedSame(StepCtx(c), StepTree(c, t));
    }
  }

  // ----- deleting the root -----

  function Leftmost<T>(t: Tree<T>): T
    requires t.Br?
  {
    if t.left == Leaf then t.elem else Leftmost(t.left)
  }

  function WithoutMin<T>(t: Tree<T>): Tree<T>
    requires t.Br?
  {
    if t.left == Leaf then t.right else Br(WithoutMin(t.left), t.elem, t.right)
  }

  /** The tree without its root: the smallest element on the right takes its place. */
  function WithoutRoot<T>(t: Tree<T>): Tree<T>
    requires t.Br?
  {
    if t.left == Leaf then t.right
    else if t.right == Leaf then t.left
    else Br(t.left, Leftmost(t.right), WithoutMin(t.right))
  }

  lemma {:induction false} WithoutMinParts<T>(t: Tree<T>)
    requires t.Br?
    ensures Inorder(t) == [Leftmost(t)] + Inorder(WithoutMin(t))
    ensures Elems(t) == {Leftmost(t)} + Elems(WithoutMin(t))
    ensures Distinct(t) ==> Distinct(WithoutMin(t)) && Leftmost(t) !in Elems(WithoutMin(t))
  {
    if t.left.Br? {
      WithoutMinParts(t.left);
      assert Inorder(t) == [Leftmost(t.left)] + Inorder(WithoutMin(t.left)) + [t.elem] + Inorder(t.right);
    } else {
      assert Inorder(t) == [t.elem] + Inorder(t.right);
    }
  }

  /** Only the root leaves the in-order sequence. */
  lemma WithoutRootParts<T>(t: Tree<T>)
    requires t.Br?
    ensures Inorder(t) == Inorder(t.left) + [t.elem] + Inorder(t.right)
    ensures Inorder(WithoutRoot(t)) == Inorder(t.left) + Inorder(t.right)
    ensures Distinct(t) ==> Distinct(WithoutRoot(t)) && Elems(WithoutRoot(t)) == Elems(t) - {t.elem}
  {
    if t.left.Br? && t.right.Br? {
      WithoutMinParts(t.right);
      var y, r := Leftmost(t.right), WithoutMin(t.right);
      assert WithoutRoot(t) == Br(t.left, y, r);
      hide Inorder, Elems, Distinct, Leftmost, WithoutMin, WithoutRoot;
      InorderBr(t.left, t.elem, t.right);
      InorderBr(t.left, y, r);
    }
  }

  lemma InorderBr<T>(l: Tree<T>, x: T, r: Tree<T>)
    ensures Inorder(Br(l, x, r)) == Inorder(l) + [x] + Inorder(r) == Inorder(l) + ([x] + Inorder(r))
    ensures Elems(Br(l, x, r)) == Elems(l) + {x} + Elems(r)
    ensures Distinct(Br(l, x, r)) <==>
        Distinct(l) && Distinct(r) && x !in Elems(l) && x !in Elems(r)
        && Elems(l) !! Elems(r)
  {
  }

  /** Is c the path from the hole up along left links to the right child of z, whose left subtree is l? */
  ghost predicate LeftPath<T>(c: Ctx<T>, l: Tree<T>, z: T)
    decreases c
  {
    c == Rgt(l, z, Top) || (c.Lft? && LeftPath(c.up, l, z))
  }

  /** The right subtree of z once the hole of such a path is filled with t. */
  function Inner<T>(c: Ctx<T>, t: Tree<T>): Tree<T>
    decreases c
  {
    if c.Lft? then Inner(c.up, Br(t, c.elem, c.right)) else t
  }

  lemma {:induction false} LeftPathPlug<T>(c: Ctx<T>, l: Tree<T>, z: T, t: Tree<T>)
    requires LeftPath(c, l, z)
    ensures Plug(c, t) == Br(l, z, Inner(c, t))
    ensures c.Lft? ==> Inner(c, t).Br?
    decreases c
  {
    if c.Lft? { LeftPathPlug(c.up, l, z, Br(t, c.elem, c.right)); }
  }

  /** The smallest element at the hole is the smallest of the whole right subtree. */
  lemma {:induction false} InnerMin<T>(c: Ctx<T>, t: Tree<T>)
    requires t.Br?
    ensures Inner(c, t).Br? && Leftmost(Inner(c, t)) == Leftmost(t)
        && WithoutMin(Inner(c, t)) == Inner(c, WithoutMin(t))
    decreases c
  {
    if c.Lft? { InnerMin(c.up, Br(t, c.elem, c.right)); }
  }
}
