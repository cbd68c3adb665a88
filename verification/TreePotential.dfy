/** The potential argument for splaying: with the rank of a subtree the integer logarithm of its size
    and the potential of a tree the sum of all ranks, a splay is paid for by the gain in rank. */
module TreePotential {
  import opened Trees

  function Log2(n: nat): nat
    requires 0 < n
  {
    if n == 1 then 0 else 1 + Log2(n / 2)
  }

  lemma {:induction false} Log2Monotone(m: nat, n: nat)
    requires 0 < m <= n
    ensures Log2(m) <= Log2(n)
  {
    if 1 < m { Log2Monotone(m / 2, n / 2); }
  }

  /** Two sizes that fit into n together cannot both have the rank of n. */
  lemma {:induction false} Log2Sum(a: nat, b: nat, n: nat)
    requires 0 < a && 0 < b && a + b <= n
    ensures Log2(a) + Log2(b) + 1 <= 2 * Log2(n)
  {
    if a == 1 {
      Log2Monotone(b, n);
    } else if b == 1 {
      Log2Monotone(a, n);
    } else {
      Log2Sum(a / 2, b / 2, n / 2);
    }
  }

  function Size<T>(t: Tree<T>): nat {
    if t == Leaf then 0 else Size(t.left) + 1 + Size(t.right)
  }

  function Rank<T>(t: Tree<T>): nat {
    if t == Leaf then 0 else Log2(Size(t))
  }

  function Phi<T>(t: Tree<T>): nat {
    if t == Leaf then 0 else Phi(t.left) + Rank(t) + Phi(t.right)
  }

  /** The number of elements once the hole of c is filled with n elements, and the potential of the
      part outside the hole. */
  function CtxSize<T>(c: Ctx<T>, n: nat): nat {
    match c
    case Top => n
    case Lft(_, r, up) => CtxSize(up, n + 1 + Size(r))
    case Rgt(l, _, up) => CtxSize(up, Size(l) + 1 + n)
  }

  function CtxPhi<T>(c: Ctx<T>, n: nat): nat {
    match c
    case Top => 0
    case Lft(_, r, up) => Log2(n + 1 + Size(r)) + Phi(r) + CtxPhi(up, n + 1 + Size(r))
    case Rgt(l, _, up) => Log2(Size(l) + 1 + n) + Phi(l) + CtxPhi(up, Size(l) + 1 + n)
  }

  lemma Unfold<T>(l: Tree<T>, x: T, r: Tree<T>)
    ensures var n := Size(l) + 1 + Size(r);
            Size(Br(l, x, r)) == n && Rank(Br(l, x, r)) == Log2(n) && Phi(Br(l, x, r)) == Phi(l) + Log2(n) + Phi(r)
  {
  }

  lemma {:induction false} PlugPhi<T>(c: Ctx<T>, t: Tree<T>)
    ensures Phi(Plug(c, t)) == Phi(t) + CtxPhi(c, Size(t))
    ensures Size(Plug(c, t)) == CtxSize(c, Size(t)) && Size(t) <= CtxSize(c, Size(t))
    decreases c
  {
    hide Size, Phi, Rank, Log2;
    match c
    case Top =>
    case Lft(x, r, up) =>
      Unfold(t, x, r);
      PlugPhi(up, Br(t, x, r));
    case Rgt(l, x, up) =>
      Unfold(l, x, t);
      PlugPhi(up, Br(l, x, t));
  }

  lemma {:induction false} InorderSize<T>(t: Tree<T>)
    ensures |Inorder(t)| == Size(t)
  {
    if t.Br? {
      InorderSize(t.left);
      InorderSize(t.right);
    }
  }

  // ----- one round -----

  /** A round that ends the loop may cost one more than the gain in rank pays for. */
  ghost predicate Paid<T>(old_: Tree<T>, t: Tree<T>, new_: Tree<T>, extra: nat) {
    Size(new_) == Size(old_) && 1 + Phi(new_) <= Phi(old_) + 3 * (Rank(new_) - Rank(t)) + extra
  }

  /** A single rotation at the root. */
  lemma ZigPhi<T>(a: Tree<T>, x: T, b: Tree<T>, s: Tree<T>, p: T)
    ensures var t := Br(a, x, b);
            Paid(Br(t, p, s), t, Br(a, x, Br(b, p, s)), 1) && Paid(Br(s, p, t), t, Br(Br(s, p, a), x, b), 1)
  {
    var t := Br(a, x, b);
    Unfold(a, x, b);
    Unfold(t, p, s);
    Unfold(b, p, s);
    Unfold(a, x, Br(b, p, s));
    Unfold(s, p, t);
    Unfold(s, p, a);
    Unfold(Br(s, p, a), x, b);
    hide Size, Rank, Phi, Log2;
    var n := Size(a) + Size(b) + Size(s) + 2;
    Log2Monotone(Size(b) + 1 + Size(s), n);
    Log2Monotone(Size(s) + 1 + Size(a), n);
    Log2Monotone(Size(a) + 1 + Size(b), n);
  }

  /** x below p below g on the same side. The rotation at g comes first: that is what makes the rank
      of g count against the rank that x gains. */
  lemma ZigZigPhi<T>(a: Tree<T>, x: T, b: Tree<T>, s: Tree<T>, p: T, d: Tree<T>, g: T)
    ensures var t := Br(a, x, b);
            && Paid(Br(Br(t, p, s), g, d), t, Br(a, x, Br(b, p, Br(s, g, d))), 0)
            && Paid(Br(d, g, Br(s, p, t)), t, Br(Br(Br(d, g, s), p, a), x, b), 0)
  {
    ZigZigRight(a, x, b, s, p, d, g);
    ZigZigLeft(a, x, b, s, p, d, g);
  }

  lemma ZigZigRight<T>(a: Tree<T>, x: T, b: Tree<T>, s: Tree<T>, p: T, d: Tree<T>, g: T)
    ensures var t := Br(a, x, b); Paid(Br(Br(t, p, s), g, d), t, Br(a, x, Br(b, p, Br(s, g, d))), 0)
  {
    var t := Br(a, x, b);
    Unfold(a, x, b);
    Unfold(t, p, s);
    Unfold(Br(t, p, s), g, d);
    Unfold(s, g, d);
    Unfold(b, p, Br(s, g, d));
    Unfold(a, x, Br(b, p, Br(s, g, d)));
    hide Size, Rank, Phi, Log2;
    var st, sp, sg := Size(t), Size(Br(t, p, s)), Size(Br(Br(t, p, s), g, d));
    Log2Sum(st, Size(Br(s, g, d)), sg);
    Log2Monotone(Size(Br(b, p, Br(s, g, d))), sg);
    Log2Monotone(st, sp);
  }

  lemma ZigZigLeft<T>(a: Tree<T>, x: T, b: Tree<T>, s: Tree<T>, p: T, d: Tree<T>, g: T)
    ensures var t := Br(a, x, b); Paid(Br(d, g, Br(s, p, t)), t, Br(Br(Br(d, g, s), p, a), x, b), 0)
  {
    var t := Br(a, x, b);
    Unfold(a, x, b);
    Unfold(s, p, t);
    Unfold(d, g, Br(s, p, t));
    Unfold(d, g, s);
    Unfold(Br(d, g, s), p, a);
    Unfold(Br(Br(d, g, s), p, a), x, b);
    hide Size, Rank, Phi, Log2;
    var st, sp, sg := Size(t), Size(Br(s, p, t)), Size(Br(d, g, Br(s, p, t)));
    Log2Sum(st, Size(Br(d, g, s)), sg);
    Log2Monotone(Size(Br(Br(d, g, s), p, a)), sg);
    Log2Monotone(st, sp);
  }

  /** x below p below g on opposite sides. */
  lemma ZigZagPhi<T>(a: Tree<T>, x: T, b: Tree<T>, s: Tree<T>, p: T, d: Tree<T>, g: T)
    ensures var t := Br(a, x, b); Paid(Br(d, g, Br(t, p, s)), t, Br(Br(d, g, a), x, Br(b, p, s)), 0)
    ensures var t := Br(b, x, a); Paid(Br(Br(s, p, t), g, d), t, Br(Br(s, p, b), x, Br(a, g, d)), 0)
  {
    hide Paid;
    RightZigZag(a, x, b, s, p, d, g);
    LeftZigZag(a, x, b, s, p, d, g);
  }

  lemma RightZigZag<T>(a: Tree<T>, x: T, b: Tree<T>, s: Tree<T>, p: T, d: Tree<T>, g: T)
    ensures var t := Br(a, x, b); Paid(Br(d, g, Br(t, p, s)), t, Br(Br(d, g, a), x, Br(b, p, s)), 0)
  {
    Unfold(a, x, b);
    Unfold(Br(a, x, b), p, s);
    Unfold(d, g, Br(Br(a, x, b), p, s));
    Unfold(d, g, a);
    Unfold(b, p, s);
    Unfold(Br(d, g, a), x, Br(b, p, s));
    ZigZagRanks(Size(a), Size(b), Size(s), Size(d));
    hide Size, Rank, Phi, Log2;
  }

  lemma LeftZigZag<T>(a: Tree<T>, x: T, b: Tree<T>, s: Tree<T>, p: T, d: Tree<T>, g: T)
    ensures var t := Br(b, x, a); Paid(Br(Br(s, p, t), g, d), t, Br(Br(s, p, b), x, Br(a, g, d)), 0)
  {
    Unfold(b, x, a);
    Unfold(s, p, Br(b, x, a));
    Unfold(Br(s, p, Br(b, x, a)), g, d);
    Unfold(s, p, b);
    Unfold(a, g, d);
    Unfold(Br(s, p, b), x, Br(a, g, d));
    ZigZagRanks(Size(a), Size(b), Size(s), Size(d));
    hide Size, Rank, Phi, Log2;
  }

  lemma ZigZagRanks(a: nat, b: nat, s: nat, d: nat)
    ensures var st, sp := a + 1 + b, a + 1 + b + 1 + s;
            var sg := sp + 1 + d;
            && Log2(d + 1 + a) + Log2(b + 1 + s) + 1 <= 2 * Log2(sg) && Log2(st) <= Log2(sp) && Log2(st) <= Log2(sg)
  {
    hide Log2;
    var st, sp := a + 1 + b, a + 1 + b + 1 + s;
    var sg := sp + 1 + d;
    Log2Sum(d + 1 + a, b + 1 + s, sg);
    Log2Monotone(st, sp);
    Log2Monotone(st, sg);
  }

  /** One round of the loop, anywhere in the tree. */
  lemma StepPhi<T>(c: Ctx<T>, t: Tree<T>)
    requires t.Br? && c != Top
    ensures var c', t' := StepCtx(c), StepTree(c, t);
            && t'.Br? && Size(Plug(c', t')) == Size(Plug(c, t))
            && 1 + Phi(Plug(c', t')) <= Phi(Plug(c, t)) + 3 * (Rank(t') - Rank(t)) + (if c' == Top then 1 else 0)
  {
    hide Size, Rank, Phi;
    var Br(a, x, b) := t;
    match c
    case Lft(p, s, Top) => ZigPhi(a, x, b, s, p);
    case Rgt(s, p, Top) => ZigPhi(a, x, b, s, p);
    case Lft(p, s, Lft(g, d, up)) =>
      ZigZigPhi(a, x, b, s, p, d, g);
      PaidInside(up, Br(Br(t, p, s), g, d), t, StepTree(c, t));
    case Rgt(s, p, Rgt(d, g, up)) =>
      ZigZigPhi(a, x, b, s, p, d, g);
      PaidInside(up, Br(d, g, Br(s, p, t)), t, StepTree(c, t));
    case Lft(p, s, Rgt(d, g, up)) =>
      ZigZagPhi(a, x, b, s, p, d, g);
      PaidInside(up, Br(d, g, Br(t, p, s)), t, StepTree(c, t));
    case Rgt(s, p, Lft(g, d, up)) =>
      ZigZagPhi(b, x, a, s, p, d, g);
      PaidInside(up, Br(Br(s, p, t), g, d), t, StepTree(c, t));
  }

  lemma PaidInside<T>(up: Ctx<T>, old_: Tree<T>, t: Tree<T>, new_: Tree<T>)
    requires Paid(old_, t, new_, 0)
    ensures Size(Plug(up, new_)) == Size(Plug(up, old_))
    ensures 1 + Phi(Plug(up, new_)) <= Phi(Plug(up, old_)) + 3 * (Rank(new_) - Rank(t))
  {
    PlugPhi(up, old_);
    PlugPhi(up, new_);
  }

  // ----- the whole loop -----

  /** The access bound: rounds plus change in potential is at most three times the gain in rank, plus one. */
  lemma {:induction false} AccessBound<T>(c: Ctx<T>, t: Tree<T>)
    requires t.Br?
    ensures Rounds(c) + Phi(Splayed(c, t)) <= Phi(Plug(c, t)) + 3 * (Rank(Plug(c, t)) - Rank(t)) + 1
    ensures Size(Splayed(c, t)) == Size(Plug(c, t))
    decreases c
  {
    if c != Top {
      StepPhi(c, t);
      var c', t' := StepCtx(c), StepTree(c, t);
      AccessBound(c', t');
      PlugPhi(c, t);
      Log2Monotone(Size(t), Size(Plug(c, t)));
      if c' == Top {
        assert Rank(Plug(c', t')) == Rank(t');
      }
      SameRank(Plug(c, t), Plug(c', t'));
    }
  }

  lemma SameRank<T>(t: Tree<T>, u: Tree<T>)
    requires Size(t) == Size(u)
    ensures Rank(t) == Rank(u)
  {
  }

  // ----- growing and shrinking -----

  /** Filling a hole with one more element raises the potential at most by a logarithm. */
  lemma {:induction false} GrowPhi<T>(c: Ctx<T>, n: nat)
    ensures CtxPhi(c, n + 1) + Log2(n + 1) <= CtxPhi(c, n) + Log2(CtxSize(c, n) + 1)
    ensures CtxSize(c, n + 1) == CtxSize(c, n) + 1
    decreases c
  {
    hide Log2, Size, Phi;
    match c
    case Top =>
    case Lft(x, r, up) =>
      GrowPhi(up, n + 1 + Size(r));
      Log2Monotone(n + 1, n + 1 + Size(r));
    case Rgt(l, x, up) =>
      GrowPhi(up, Size(l) + 1 + n);
      Log2Monotone(n + 1, Size(l) + 1 + n);
  }

  /** Inserting a leaf and splaying it: rounds plus change in potential is logarithmic. */
  lemma InsertBound<T>(c: Ctx<T>, z: T)
    ensures var s := Br(Leaf, z, Leaf);
            && Size(Splayed(c, s)) == Size(Plug(c, Leaf)) + 1
            && Rounds(c) + Phi(Splayed(c, s)) <= Phi(Plug(c, Leaf)) + 4 * Log2(Size(Plug(c, Leaf)) + 1) + 1
  {
    var s := Br(Leaf, z, Leaf);
    LeafPhi(z);
    hide Size, Phi, Rank, Log2, CtxPhi, CtxSize;
    AccessBound(c, s);
    PlugPhi(c, s);
    PlugPhi(c, Leaf);
    GrowPhi(c, 0);
    RankIs(Plug(c, s));
  }

  lemma LeafPhi<T>(z: T)
    ensures var s := Br(Leaf, z, Leaf);
            Size<T>(Leaf) == 0 && Phi<T>(Leaf) == 0 && Size(s) == 1 && Phi(s) == 0 && Rank(s) == 0
  {
  }

  lemma RankIs<T>(t: Tree<T>)
    requires Size(t) > 0
    ensures Rank(t) == Log2(Size(t))
  {
  }

  lemma {:induction false} WithoutMinPhi<T>(t: Tree<T>)
    requires t.Br?
    ensures Size(WithoutMin(t)) == Size(t) - 1 && Phi(WithoutMin(t)) <= Phi(t)
  {
    if t.left.Br? {
      WithoutMinPhi(t.left);
      Log2Monotone(Size(t) - 1, Size(t));
    }
  }

  /** Taking the root out of a tree does not raise the potential. */
  lemma WithoutRootPhi<T>(t: Tree<T>)
    requires t.Br?
    ensures Size(WithoutRoot(t)) == Size(t) - 1 && Phi(WithoutRoot(t)) <= Phi(t)
  {
    Unfold(t.left, t.elem, t.right);
    if t.left.Br? && t.right.Br? {
      hide WithoutMin, Leftmost, Phi, Size, Rank, Log2;
      WithoutMinPhi(t.right);
      var u := Br(t.left, Leftmost(t.right), WithoutMin(t.right));
      Unfold(u.left, u.elem, u.right);
      Log2Monotone(Size(u), Size(t));
    }
  }

  /** Splaying an element and taking it out: rounds plus change in potential is logarithmic. */
  lemma RemoveBound<T>(c: Ctx<T>, t: Tree<T>)
    requires t.Br?
    ensures Splayed(c, t).Br? && Size(WithoutRoot(Splayed(c, t))) == Size(Plug(c, t)) - 1 && 0 < Size(Plug(c, t))
    ensures Rounds(c) + Phi(WithoutRoot(Splayed(c, t))) <= Phi(Plug(c, t)) + 3 * Log2(Size(Plug(c, t))) + 1
  {
    AccessBound(c, t);
    SplayedSame(c, t);
    WithoutRootPhi(Splayed(c, t));
  }

  lemma MulMonotone(k: nat, a: nat, b: nat)
    requires a <= b
    ensures k * a <= k * b && (k + 1) * b == k * b + b
  {
  }

  /** The budget: every operation on trees of at most `peak` elements contributes 4 log2(peak) + 1. */
  function Allowance(ops: nat, peak: nat): nat {
    if peak == 0 then 0 else ops * (4 * Log2(peak) + 1)
  }

  ghost predicate Affordable(spent: nat, ops: nat, peak: nat) {
    0 < peak && spent <= Allowance(ops, peak)
  }

  /** One more operation, on a tree that may have grown to n elements. */
  lemma Budget(before: nat, after: nat, ops: nat, p: nat, q: nat, n: nat)
    requires Affordable(before, ops, p) && p <= q && 0 < n <= q
    requires after <= before + 4 * Log2(n) + 1
    ensures Affordable(after, ops + 1, q)
  {
    hide Log2;
    Log2Monotone(p, q);
    Log2Monotone(n, q);
    MulMonotone(ops, 4 * Log2(p) + 1, 4 * Log2(q) + 1);
  }
}
