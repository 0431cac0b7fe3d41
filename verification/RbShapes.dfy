/** The trees of rbtree.c between the steps of its rebalancing loops, without memory: which rule may
    be broken where, and why each rotation and recolouring repairs it and keeps the order. */
module RbShapes {
  import opened RbHeap

  /** `t` turned towards side `s`: its child on the other side becomes the root. */
  function Rotated(s: Side, t: Tree): Tree
    requires t.Node? && t.Kid(s.Other()).Node?
  {
    var y := t.Kid(s.Other());
    Join(s, Join(s, t.Kid(s), t.id, t.color, y.Kid(s)), y.id, y.color, y.Kid(s.Other()))
  }

  function Painted(t: Tree, col: Color): Tree {
    if t.Leaf? then Leaf else t.(color := col)
  }

  function NephewPainted(t: Tree, d: Side, col: Color): Tree
    requires t.Node?
  {
    Join(d, Painted(t.Kid(d), col), t.id, t.color, t.Kid(d.Other()))
  }

  lemma RotatedInorder(s: Side, t: Tree)
    requires t.Node? && t.Kid(s.Other()).Node?
    ensures Inorder(Rotated(s, t)) == Inorder(t)
  {
  }

  // ----- Insertion: the trees between the iterations -----

  /** The only rule `t`, a red node, may break is the one against a red parent (or a red root). */
  ghost predicate InsertInv(c: Ctx, t: Tree) {
    IsRed(t) && Balanced(t) && CtxOk(c, BlackHeight(t))
  }

  ghost function Recolored(c: Ctx, t: Tree): Tree
    requires c.In? && c.up.In?
  {
    Join(c.up.side, Join(c.side, t, c.id, Black, c.sib), c.up.id, Red, Painted(c.up.sib, Black))
  }

  lemma InsertRecolor(c: Ctx, t: Tree)
    requires InsertInv(c, t) && CtxRed(c) && IsRed(c.up.sib)
    ensures InsertInv(c.up.up, Recolored(c, t))
  {
    var k, g, tp := BlackHeight(t), c.up, Join(c.side, t, c.id, Black, c.sib);
    assert CtxOk(g, k) && CtxOk(g.up, k + 1);
    assert Balanced(Painted(g.sib, Black)) && BlackHeight(Painted(g.sib, Black)) == k + 1;
    JoinBalanced(c.side, t, c.id, Black, c.sib);
    JoinBalanced(g.side, tp, g.id, Red, Painted(g.sib, Black));
  }

  lemma RecolorFlat(c: Ctx, t: Tree)
    requires c.In? && c.up.In?
    ensures Flat(c.up.up, Recolored(c, t)) == Flat(c, t)
  {
    var g, tp := c.up, Join(c.side, t, c.id, Black, c.sib);
    FlatUp(c.(color := Black), t);
    FlatUp(In(g.up, g.side, g.id, Red, Painted(g.sib, Black)), tp);
  }

  ghost function InnerCtx(c: Ctx, t: Tree): Ctx
    requires c.In? && t.Node?
  {
    In(c.up, c.side.Other(), t.id, Red, t.Kid(c.side))
  }

  ghost function InnerTree(c: Ctx, t: Tree): Tree
    requires c.In? && t.Node?
  {
    Join(c.side.Other(), c.sib, c.id, Red, t.Kid(c.side.Other()))
  }

  lemma InsertInner(c: Ctx, t: Tree)
    requires InsertInv(c, t) && CtxRed(c)
    ensures InsertInv(InnerCtx(c, t), InnerTree(c, t))
  {
  }

  lemma InnerFlat(c: Ctx, t: Tree)
    requires c.In? && t.Node?
    ensures Flat(InnerCtx(c, t), InnerTree(c, t)) == Flat(c, t)
  {
  }

  ghost function OuterCtx(c: Ctx): Ctx
    requires c.In? && c.up.In?
  {
    In(c.up.up, c.side, c.id, Black, Join(c.side, c.sib, c.up.id, Red, c.up.sib))
  }

  lemma InsertOuter(c: Ctx, t: Tree)
    requires InsertInv(c, t) && CtxRed(c) && c.side == c.up.side && !IsRed(c.up.sib)
    ensures InsertInv(OuterCtx(c), t)
  {
    var k, g := BlackHeight(t), c.up;
    assert CtxOk(g, k) && CtxOk(g.up, k + 1);
    JoinBalanced(c.side, c.sib, g.id, Red, g.sib);
  }

  lemma OuterFlat(c: Ctx, t: Tree)
    requires c.In? && c.up.In? && c.side == c.up.side
    ensures Flat(OuterCtx(c), t) == Flat(c, t)
  {
    var g, tp := c.up, Join(c.side, t, c.id, c.color, c.sib);
    FlatUp(c, t);
    FlatUp(g, tp);
    FlatUp(OuterCtx(c), t);
    RotatedInorder(c.side.Other(), Join(g.side, Painted(tp, Black), g.id, Red, g.sib));
  }

  lemma InsertDone(c: Ctx, t: Tree)
    requires InsertInv(c, t) && !CtxRed(c)
    ensures RedBlack(Painted(Zip(c, t), Black))
    ensures Inorder(Painted(Zip(c, t), Black)) == Inorder(Zip(c, t))
  {
    ZipRedBlack(c, t);
  }

  // ----- Deletion: the trees between the iterations -----

  /** `t` is one black node short of what its context expects; its root may be red. */
  ghost predicate EraseInv(c: Ctx, t: Tree) {
    CtxOk(c, BlackHeight(t) + 1) && Balanced(Painted(t, Black))
  }

  ghost function RaisedCtx(c: Ctx): Ctx
    requires c.In? && c.sib.Node?
  {
    In(In(c.up, c.side, c.sib.id, Black, c.sib.Kid(c.side.Other())), c.side, c.id, Red, c.sib.Kid(c.side))
  }

  ghost function TurnedCtx(c: Ctx): Ctx
    requires c.In? && c.sib.Node? && c.sib.Kid(c.side).Node?
  {
    var s, n := c.side, c.sib.Kid(c.side);
    c.(sib := Join(s, n.Kid(s), n.id, Black, Join(s, n.Kid(s.Other()), c.sib.id, Red, c.sib.Kid(s.Other()))))
  }

  ghost function Settled(c: Ctx, t: Tree): Tree
    requires c.In? && c.sib.Node?
  {
    var s := c.side;
    Join(s, Join(s, t, c.id, Black, c.sib.Kid(s)), c.sib.id, c.color, Painted(c.sib.Kid(s.Other()), Black))
  }

  lemma RaiseInv(c: Ctx, t: Tree)
    requires EraseInv(c, t) && c.In? && IsRed(c.sib)
    ensures EraseInv(RaisedCtx(c), t) && !IsRed(RaisedCtx(c).sib)
  {
  }

  lemma RaiseFlat(c: Ctx, t: Tree)
    requires c.In? && c.sib.Node?
    ensures Flat(RaisedCtx(c), t) == Flat(c, t)
  {
    FlatUp(c, t);
    FlatUp(RaisedCtx(c), t);
    FlatUp(RaisedCtx(c).up, Join(c.side, t, c.id, Red, c.sib.Kid(c.side)));
    RotatedInorder(c.side, Join(c.side, t, c.id, Red, Painted(c.sib, Black)));
  }

  ghost function Absorbed(c: Ctx, t: Tree): Tree
    requires c.In?
  {
    Join(c.side, t, c.id, c.color, Painted(c.sib, Red))
  }

  lemma AbsorbInv(c: Ctx, t: Tree)
    requires EraseInv(c, t) && !IsRed(t) && c.In? && !IsRed(c.sib)
    requires c.sib.Node? && !IsRed(c.sib.left) && !IsRed(c.sib.right)
    ensures EraseInv(c.up, Absorbed(c, t))
  {
  }

  lemma AbsorbFlat(c: Ctx, t: Tree)
    requires c.In?
    ensures Flat(c.up, Absorbed(c, t)) == Flat(c, t)
  {
    FlatUp(c.(sib := Painted(c.sib, Red)), t);
  }

  lemma TurnInv(c: Ctx, t: Tree)
    requires EraseInv(c, t) && c.In? && c.sib.Node? && !IsRed(c.sib) && IsRed(c.sib.Kid(c.side))
    requires !IsRed(c.sib.Kid(c.side.Other()))
    ensures EraseInv(TurnedCtx(c), t) && !IsRed(TurnedCtx(c).sib)
    ensures IsRed(TurnedCtx(c).sib.Kid(c.side.Other()))
  {
    var s, n, f := c.side, c.sib.Kid(c.side), c.sib.Kid(c.side.Other());
    JoinBalanced(s, n, c.sib.id, Black, f);
    JoinBalanced(s, n.Kid(s), n.id, Red, n.Kid(s.Other()));
    JoinBalanced(s, n.Kid(s.Other()), c.sib.id, Red, f);
    JoinBalanced(s, n.Kid(s), n.id, Black, Join(s, n.Kid(s.Other()), c.sib.id, Red, f));
  }

  lemma NephewInorder(t: Tree, d: Side, col: Color, col': Color)
    requires t.Node?
    ensures Inorder(Painted(NephewPainted(t, d, col), col')) == Inorder(t)
  {
  }

  lemma TurnFlat(c: Ctx, t: Tree)
    requires c.In? && c.sib.Node? && c.sib.Kid(c.side).Node?
    ensures Flat(TurnedCtx(c), t) == Flat(c, t)
  {
    var s := c.side;
    NephewInorder(c.sib, s, Black, Red);
    RotatedInorder(s.Other(), Painted(NephewPainted(c.sib, s, Black), Red));
  }

  lemma SettleInv(c: Ctx, t: Tree)
    requires EraseInv(c, t) && !IsRed(t) && c.In? && !IsRed(c.sib) && c.sib.Node? && IsRed(c.sib.Kid(c.side.Other()))
    ensures CtxOk(c.up, BlackHeight(Settled(c, t))) && Balanced(Settled(c, t)) && Fits(c.up, Settled(c, t))
  {
    var s, n, f := c.side, c.sib.Kid(c.side), c.sib.Kid(c.side.Other());
    JoinBalanced(s, n, c.sib.id, Black, f);
    JoinBalanced(s, t, c.id, Black, n);
    JoinBalanced(s, Join(s, t, c.id, Black, n), c.sib.id, c.color, Painted(f, Black));
  }

  lemma SettleFlat(c: Ctx, t: Tree)
    requires c.In? && c.sib.Node?
    ensures Flat(c.up, Settled(c, t)) == Flat(c, t)
  {
    var s, m := c.side, Painted(NephewPainted(c.sib, c.side.Other(), Black), c.color);
    NephewInorder(c.sib, s.Other(), Black, c.color);
    FlatUp(c.(sib := m), t);
    JoinInorder(s, t, c.id, Black, m);
    JoinInorder(s, t, c.id, c.color, m);
    RotatedInorder(s, Join(s, t, c.id, Black, m));
  }

  lemma EraseDone(c: Ctx, t: Tree)
    requires (EraseInv(c, t) && IsRed(t)) || (c.Top? && Balanced(Painted(t, Black)))
    ensures RedBlack(Zip(c, Painted(t, Black)))
    ensures Inorder(Painted(t, Black)) == Inorder(t)
  {
    ZipRedBlack(c, Painted(t, Black));
  }

  // ----- Taking a node out -----

  /** `k` is the only child of the root of `t`. */
  predicate OnlyChild(t: Tree, k: Tree) {
    t.Node? && ((t.left.Leaf? && k == t.right) || (t.right.Leaf? && k == t.left))
  }

  /** Every step of `d` goes to side `s`. */
  predicate Spine(s: Side, d: Ctx) { d.Top? || (d.side == s && Spine(s, d.up)) }

  // ----- The tree a deletion leaves for rebalancing -----

  lemma Shift(b: seq<Ptr>, l: seq<Ptr>, m: seq<Ptr>, r: seq<Ptr>, a: seq<Ptr>)
    ensures b + (l + m + r) + a == (b + l) + m + (r + a)
  {
  }

  /** What removing a node of colour `col` leaves: one black node short, or nothing to repair. */
  ghost predicate Leftover(c: Ctx, k: Tree, col: Color) {
    if col.Black? then EraseInv(c, k) else CtxOk(c, BlackHeight(k)) && Balanced(k) && !IsRed(k)
  }

  lemma SpliceOk(c: Ctx, t: Tree, k: Tree)
    requires OnlyChild(t, k) && CtxOk(c, BlackHeight(t)) && Balanced(t)
    ensures Leftover(c, k, t.color)
    ensures t.left.Leaf? ==> Inorder(k) == Inorder(t.left) + Inorder(t.right)
    ensures t.right.Leaf? ==> Inorder(k) == Inorder(t.left) + Inorder(t.right)
  {
  }

  lemma {:induction false} ZipAppend(c: Ctx, d: Ctx, t: Tree)
    ensures Zip(Append(c, d), t) == Zip(d, Zip(c, t))
    decreases c
  {
    if c.In? {
      ZipAppend(c.up, d, Join(c.side, t, c.id, c.color, c.sib));
    }
  }

  /** Which node stands at a position does not matter to the invariants. */
  lemma {:induction false} Renamed(c: Ctx, d: Ctx, y: Ptr, k: nat)
    requires d.In? && CtxOk(Append(c, d), k)
    ensures CtxOk(Append(c, d.(id := y)), k)
    decreases c
  {
    if c.In? {
      Renamed(c.up, d, y, k + Weight(c.color));
    }
  }

  lemma SuccessorOk(c: Ctx, t: Tree, d: Ctx, u: Tree)
    requires t.Node? && u.Node? && u.left.Leaf? && Zip(d, u) == t.right
    requires CtxOk(c, BlackHeight(t)) && Balanced(t) && Fits(c, t)
    ensures Leftover(Append(d, In(c, Right, u.id, t.color, t.left)), u.right, u.color)
  {
    var e := In(c, Right, t.id, t.color, t.left);
    ZipRedBlack(c, t);
    ZipAppend(d, e, u);
    ZipRedBlack(Append(d, e), u);
    Renamed(d, e, u.id, BlackHeight(u));
    assert OnlyChild(u, u.right);
    SpliceOk(Append(d, e.(id := u.id)), u, u.right);
  }

  lemma {:induction false} SpineEnd(s: Side, d: Ctx)
    requires Spine(s, d)
    ensures s.Left? ==> Before(d) == []
    ensures s.Right? ==> After(d) == []
    decreases d
  {
    if d.In? {
      SpineEnd(s, d.up);
    }
  }

  lemma SuccessorFlat(c: Ctx, t: Tree, d: Ctx, u: Tree)
    requires t.Node? && u.Node? && u.left.Leaf? && Zip(d, u) == t.right && Spine(Left, d)
    ensures var c' := Append(d, In(c, Right, u.id, t.color, t.left));
      Flat(c', u.right) == (Before(c) + Inorder(t.left)) + (Inorder(t.right) + After(c))
  {
    var e := In(c, Right, u.id, t.color, t.left);
    ZipAppend(d, e, u.right);
    ZipInorder(Append(d, e), u.right);
    ZipInorder(c, Node(t.left, u.id, t.color, Zip(d, u.right)));
    SwapInorder(t, d, u);
    Shift(Before(c), Inorder(t.left), [], Inorder(t.right), After(c));
  }

  lemma SwapInorder(t: Tree, d: Ctx, u: Tree)
    requires t.Node? && u.Node? && u.left.Leaf? && Zip(d, u) == t.right && Spine(Left, d)
    ensures Inorder(Node(t.left, u.id, t.color, Zip(d, u.right))) == Inorder(t.left) + Inorder(t.right)
  {
    SpineSplit(d, u);
    var a, b := Inorder(t.left), Inorder(Zip(d, u.right));
    assert a + [u.id] + b == a + ([u.id] + b);
  }

  lemma SpineSplit(d: Ctx, u: Tree)
    requires u.Node? && u.left.Leaf? && Spine(Left, d)
    ensures Inorder(Zip(d, u)) == [u.id] + Inorder(Zip(d, u.right))
  {
    SpineEnd(Left, d);
    ZipInorder(d, u);
    ZipInorder(d, u.right);
    assert Inorder(u) == [u.id] + Inorder(u.right);
    Regroup([], u.id, Inorder(u.right), After(d));
  }

  lemma Regroup(a: seq<Ptr>, y: Ptr, b: seq<Ptr>, c: seq<Ptr>)
    ensures a + [y] + b + c == a + ([y] + b) + c == a + ([y] + (b + c))
  {
  }

  // ----- Stepping -----

  /** What follows (`Right`) or precedes (`Left`) place `i` of the order `o`. */
  function Adjacent(s: Side, o: seq<Ptr>, i: nat): Ptr
    requires i < |o|
  {
    if s.Right? then if i + 1 < |o| then o[i + 1] else NULL
    else if i > 0 then o[i - 1] else NULL
  }

  /** The node next to the hole of `c` on side `s`. */
  ghost function Beyond(s: Side, c: Ctx): Ptr {
    if s.Right? then if After(c) == [] then NULL else After(c)[0]
    else if Before(c) == [] then NULL else Before(c)[|Before(c)| - 1]
  }

  lemma SlideEnd(s: Side, d: Ctx, u: Tree)
    requires u.Node? && u.Kid(s).Leaf? && Spine(s, d)
    ensures var o := Inorder(Zip(d, u));
      && o != [] && u.id == if s.Left? then o[0] else o[|o| - 1]
  {
    SpineEnd(s, d);
    ZipInorder(d, u);
    var v := Inorder(u);
    assert Inorder(u.Kid(s)) == [];
    assert v != [] && u.id == if s.Left? then v[0] else v[|v| - 1];
  }

  lemma AdjacentAt(s: Side, c: Ctx, t: Tree)
    requires t.Node?
    ensures var i, k := |Before(c)| + |Inorder(t.left)|, Inorder(t.Kid(s));
      && i < |Flat(c, t)| && Flat(c, t)[i] == t.id
      && Adjacent(s, Flat(c, t), i) ==
           if k == [] then Beyond(s, c) else if s.Right? then k[0] else k[|k| - 1]
  {
  }
}
