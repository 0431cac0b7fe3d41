/** The node memory of rbtree.c and the trees it stores.

    Memory is a map from addresses to `RbNode` records; address 0 is the null pointer. A value of
    type `Tree` is the shape that a part of memory holds, and a `Ctx` is the rest of the tree seen
    from one position in it (a zipper): the path from that position up to the root. `View` says
    that memory holds the tree obtained by putting `t` in the hole of `c`, parent links included.
    The two mirror images in rbtree.c are covered by one `Side` parameter. */
module RbHeap {

  type Ptr = nat
  const NULL: Ptr := 0

  datatype Side = Left | Right {
    function Other(): Side { if Left? then Right else Left }
  }

  datatype Color = Red | Black

  datatype RbNode = RbNode(parent: Ptr, color: Color, left: Ptr, right: Ptr) {
    function Kid(s: Side): Ptr { if s.Left? then left else right }
    function WithKid(s: Side, p: Ptr): RbNode { if s.Left? then this.(left := p) else this.(right := p) }
  }

  type Mem = map<Ptr, RbNode>

  datatype Tree = Leaf | Node(left: Tree, id: Ptr, color: Color, right: Tree) {
    function Kid(s: Side): Tree
      requires Node?
    {
      if s.Left? then left else right
    }
  }

  datatype Ctx = Top | In(up: Ctx, side: Side, id: Ptr, color: Color, sib: Tree)

  /** The node `x` whose child on side `s` is `near` and whose other child is `far`. */
  function Join(s: Side, near: Tree, x: Ptr, c: Color, far: Tree): Tree {
    if s.Left? then Node(near, x, c, far) else Node(far, x, c, near)
  }

  /** The pointer that leads to `t`. */
  function Root(t: Tree): Ptr { if t.Leaf? then NULL else t.id }

  /** The parent pointer of whatever stands in the hole of `c`. */
  function Up(c: Ctx, base: Ptr): Ptr { if c.Top? then base else c.id }

  function Rec(par: Ptr, c: Color, s: Side, near: Ptr, far: Ptr): RbNode {
    if s.Left? then RbNode(par, c, near, far) else RbNode(par, c, far, near)
  }

  ghost function Ids(t: Tree): set<Ptr> {
    if t.Leaf? then {} else Ids(t.left) + {t.id} + Ids(t.right)
  }

  ghost function CtxIds(c: Ctx): set<Ptr> {
    if c.Top? then {} else CtxIds(c.up) + {c.id} + Ids(c.sib)
  }

  /** Memory holds `t`, its root's parent link being `par`, and no node is shared. */
  ghost predicate Is(h: Mem, par: Ptr, t: Tree)
    decreases t
  {
    t.Leaf? ||
    (&& t.id != NULL && t.id in h
     && h[t.id] == RbNode(par, t.color, Root(t.left), Root(t.right))
     && t.id !in Ids(t.left) && t.id !in Ids(t.right) && Ids(t.left) !! Ids(t.right)
     && Is(h, t.id, t.left) && Is(h, t.id, t.right))
  }

  /** Memory holds the context `c` with pointer `p` in its hole; `root` leads to the whole. */
  ghost predicate Around(h: Mem, base: Ptr, root: Ptr, c: Ctx, p: Ptr)
    decreases c
  {
    if c.Top? then root == p else
      && c.id != NULL && c.id in h
      && h[c.id] == Rec(Up(c.up, base), c.color, c.side, p, Root(c.sib))
      && c.id !in Ids(c.sib) && c.id !in CtxIds(c.up) && Ids(c.sib) !! CtxIds(c.up)
      && Is(h, c.id, c.sib) && Around(h, base, root, c.up, c.id)
  }

  ghost predicate View(h: Mem, base: Ptr, root: Ptr, c: Ctx, t: Tree) {
    && Is(h, Up(c, base), t)
    && Around(h, base, root, c, Root(t))
    && Ids(t) !! CtxIds(c)
    && NULL !in h
  }

  /** Put `t` in the hole of `c`. */
  ghost function Zip(c: Ctx, t: Tree): Tree {
    if c.Top? then t else Zip(c.up, Join(c.side, t, c.id, c.color, c.sib))
  }

  /** `c` placed in the hole of `d`. */
  ghost function Append(c: Ctx, d: Ctx): Ctx {
    if c.Top? then d else In(Append(c.up, d), c.side, c.id, c.color, c.sib)
  }

  // ----- Framing -----

  ghost predicate Same(h: Mem, h': Mem, ids: set<Ptr>) {
    forall x :: x in ids && x in h ==> x in h' && h'[x] == h[x]
  }

  ghost predicate SameBut(h: Mem, h': Mem, ids: set<Ptr>) {
    h'.Keys == h.Keys && forall x :: x in h && x !in ids ==> h'[x] == h[x]
  }

  lemma {:induction false} IsFrame(h: Mem, h': Mem, par: Ptr, t: Tree)
    requires Is(h, par, t)
    requires Same(h, h', Ids(t))
    ensures Is(h', par, t)
    decreases t
  {
    if t.Node? {
      IsFrame(h, h', t.id, t.left);
      IsFrame(h, h', t.id, t.right);
    }
  }

  /** Rewriting the parent link of the root of `t` hangs `t` under another node. */
  lemma Reparent(h: Mem, h': Mem, par: Ptr, par': Ptr, t: Tree)
    requires Is(h, par, t)
    requires Same(h, h', Ids(t) - {Root(t)})
    requires t.Node? ==> t.id in h' && h'[t.id] == h[t.id].(parent := par')
    ensures Is(h', par', t)
  {
    if t.Node? {
      IsFrame(h, h', t.id, t.left);
      IsFrame(h, h', t.id, t.right);
    }
  }

  lemma {:induction false} AroundFrame(h: Mem, h': Mem, base: Ptr, root: Ptr, c: Ctx, p: Ptr)
    requires Around(h, base, root, c, p)
    requires Same(h, h', CtxIds(c))
    ensures Around(h', base, root, c, p)
    decreases c
  {
    if c.In? {
      IsFrame(h, h', c.id, c.sib);
      AroundFrame(h, h', base, root, c.up, c.id);
    }
  }

  /** Redirecting the one pointer that leads into the hole of `c`. */
  lemma AroundRelink(h: Mem, h': Mem, base: Ptr, root: Ptr, root': Ptr, c: Ctx, p: Ptr, p': Ptr)
    requires Around(h, base, root, c, p)
    requires Same(h, h', CtxIds(c) - {Up(c, base)})
    requires c.In? ==> root' == root && c.id in h' && h'[c.id] == h[c.id].WithKid(c.side, p')
    requires c.Top? ==> root' == p'
    ensures Around(h', base, root', c, p')
  {
    if c.In? {
      IsFrame(h, h', c.id, c.sib);
      AroundFrame(h, h', base, root, c.up, c.id);
    }
  }

  /** What `Is` says of a node, told by side. */
  lemma Open(h: Mem, par: Ptr, t: Tree, s: Side)
    requires t.Node?
    ensures Ids(t) == Ids(t.Kid(s)) + {t.id} + Ids(t.Kid(s.Other()))
    ensures Is(h, par, t) <==>
              && t.id != NULL && t.id in h
              && h[t.id] == Rec(par, t.color, s, Root(t.Kid(s)), Root(t.Kid(s.Other())))
              && t.id !in Ids(t.Kid(s)) && t.id !in Ids(t.Kid(s.Other())) && Ids(t.Kid(s)) !! Ids(t.Kid(s.Other()))
              && Is(h, t.id, t.Kid(s)) && Is(h, t.id, t.Kid(s.Other()))
  {
  }

  // ----- Moving the focus -----

  lemma ViewUp(h: Mem, base: Ptr, root: Ptr, c: Ctx, t: Tree)
    requires c.In?
    ensures View(h, base, root, c, t) <==> View(h, base, root, c.up, Join(c.side, t, c.id, c.color, c.sib))
  {
  }

  /** The context of the sibling of the hole. */
  function Across(c: Ctx, t: Tree): Ctx
    requires c.In?
  {
    In(c.up, c.side.Other(), c.id, c.color, t)
  }

  lemma ViewAcross(h: Mem, base: Ptr, root: Ptr, c: Ctx, t: Tree)
    requires c.In?
    ensures View(h, base, root, c, t) <==> View(h, base, root, Across(c, t), c.sib)
  {
  }

  lemma {:induction false} ViewZip(h: Mem, base: Ptr, root: Ptr, c: Ctx, d: Ctx, t: Tree)
    ensures View(h, base, root, Append(c, d), t) <==> View(h, base, root, d, Zip(c, t))
    decreases c
  {
    if c.In? {
      ViewUp(h, base, root, Append(c, d), t);
      ViewZip(h, base, root, c.up, d, Join(c.side, t, c.id, c.color, c.sib));
    }
  }

  lemma {:induction false} ViewWhole(h: Mem, base: Ptr, root: Ptr, c: Ctx, t: Tree)
    ensures View(h, base, root, c, t) <==> View(h, base, root, Top, Zip(c, t))
    decreases c
  {
    if c.In? {
      ViewUp(h, base, root, c, t);
      ViewWhole(h, base, root, c.up, Join(c.side, t, c.id, c.color, c.sib));
    }
  }

  lemma {:induction false} ZipIds(c: Ctx, t: Tree)
    ensures Ids(Zip(c, t)) == CtxIds(c) + Ids(t)
    decreases c
  {
    if c.In? {
      ZipIds(c.up, Join(c.side, t, c.id, c.color, c.sib));
    }
  }

  lemma {:induction false} NotNull(h: Mem, par: Ptr, t: Tree)
    requires Is(h, par, t)
    ensures NULL !in Ids(t)
    decreases t
  {
    if t.Node? {
      NotNull(h, t.id, t.left);
      NotNull(h, t.id, t.right);
    }
  }

  /** Below a proper context, the root pointer belongs to the context. */
  lemma {:induction false} RootOfCtx(h: Mem, base: Ptr, root: Ptr, c: Ctx, p: Ptr)
    requires Around(h, base, root, c, p) && c.In?
    ensures root in CtxIds(c) && root != NULL
    decreases c
  {
    if c.up.In? {
      RootOfCtx(h, base, root, c.up, c.id);
    }
  }

  // ----- Order -----

  ghost function Inorder(t: Tree): seq<Ptr> {
    if t.Leaf? then [] else Inorder(t.left) + [t.id] + Inorder(t.right)
  }

  /** The nodes that precede, and that follow, the hole of `c` in order. */
  ghost function Before(c: Ctx): seq<Ptr> {
    if c.Top? then [] else if c.side.Left? then Before(c.up) else Before(c.up) + Inorder(c.sib) + [c.id]
  }

  ghost function After(c: Ctx): seq<Ptr> {
    if c.Top? then [] else if c.side.Left? then [c.id] + Inorder(c.sib) + After(c.up) else After(c.up)
  }

  ghost function Flat(c: Ctx, t: Tree): seq<Ptr> {
    Before(c) + Inorder(t) + After(c)
  }

  lemma JoinInorder(s: Side, near: Tree, x: Ptr, c: Color, far: Tree)
    ensures Inorder(Join(s, near, x, c, far)) ==
              if s.Left? then Inorder(near) + [x] + Inorder(far) else Inorder(far) + [x] + Inorder(near)
  {
  }

  lemma FlatUp(c: Ctx, t: Tree)
    requires c.In?
    ensures Flat(c, t) == Flat(c.up, Join(c.side, t, c.id, c.color, c.sib))
  {
  }

  lemma {:induction false} ZipInorder(c: Ctx, t: Tree)
    ensures Inorder(Zip(c, t)) == Flat(c, t)
    decreases c
  {
    if c.In? {
      var t' := Join(c.side, t, c.id, c.color, c.sib);
      ZipInorder(c.up, t');
      FlatUp(c, t);
    }
  }

  lemma {:induction false} InorderIds(t: Tree)
    ensures forall x :: x in Inorder(t) <==> x in Ids(t)
    decreases t
  {
    if t.Node? {
      InorderIds(t.left);
      InorderIds(t.right);
    }
  }

  lemma MemberIds(t: Tree, x: Ptr)
    ensures x in Inorder(t) <==> x in Ids(t)
  {
    InorderIds(t);
  }

  // ----- Locating a node -----

  /** The context and the subtree at node `x` of `t`, when `t` stands in the hole of `c`. */
  ghost function Locate(c: Ctx, t: Tree, x: Ptr): (r: (Ctx, Tree))
    requires x in Ids(t)
    ensures r.1.Node? && r.1.id == x && Zip(r.0, r.1) == Zip(c, t)
    decreases t
  {
    if t.id == x then (c, t)
    else if x in Ids(t.left) then Locate(In(c, Left, t.id, t.color, t.right), t.left, x)
    else Locate(In(c, Right, t.id, t.color, t.left), t.right, x)
  }

  /** The same for the node at place `i` of the order. */
  ghost function LocateAt(c: Ctx, t: Tree, i: nat): (r: (Ctx, Tree))
    requires i < |Inorder(t)|
    ensures r.1.Node? && Zip(r.0, r.1) == Zip(c, t)
    ensures |Before(r.0)| + |Inorder(r.1.left)| == |Before(c)| + i
    decreases t
  {
    var k := |Inorder(t.left)|;
    if i == k then (c, t)
    else if i < k then LocateAt(In(c, Left, t.id, t.color, t.right), t.left, i)
    else LocateAt(In(c, Right, t.id, t.color, t.left), t.right, i - k - 1)
  }

  lemma {:induction false} InorderDistinct(h: Mem, par: Ptr, t: Tree)
    requires Is(h, par, t)
    ensures forall i, j :: 0 <= i < j < |Inorder(t)| ==> Inorder(t)[i] != Inorder(t)[j]
    decreases t
  {
    if t.Node? {
      InorderDistinct(h, t.id, t.left);
      InorderDistinct(h, t.id, t.right);
      InorderIds(t.left);
      InorderIds(t.right);
      assert forall i :: 0 <= i < |Inorder(t.left)| ==> Inorder(t.left)[i] in Ids(t.left);
      assert forall i :: 0 <= i < |Inorder(t.right)| ==> Inorder(t.right)[i] in Ids(t.right);
    }
  }

  // ----- The red-black invariants -----

  predicate IsRed(t: Tree) { t.Node? && t.color.Red? }

  function Weight(c: Color): nat { if c.Black? then 1 else 0 }

  ghost function BlackHeight(t: Tree): nat {
    if t.Leaf? then 0 else BlackHeight(t.left) + Weight(t.color)
  }

  /** Equal black heights and no red node with a red child; the root may be red. */
  ghost predicate Balanced(t: Tree) {
    t.Leaf? ||
    (&& Balanced(t.left) && Balanced(t.right)
     && BlackHeight(t.left) == BlackHeight(t.right)
     && (t.color.Red? ==> !IsRed(t.left) && !IsRed(t.right)))
  }

  lemma JoinBalanced(s: Side, near: Tree, x: Ptr, c: Color, far: Tree)
    ensures Balanced(Join(s, near, x, c, far)) <==>
              && Balanced(near) && Balanced(far) && BlackHeight(near) == BlackHeight(far)
              && (c.Red? ==> !IsRed(near) && !IsRed(far))
    ensures BlackHeight(near) == BlackHeight(far) ==>
              BlackHeight(Join(s, near, x, c, far)) == BlackHeight(near) + Weight(c)
  {
  }

  ghost predicate RedBlack(t: Tree) { Balanced(t) && !IsRed(t) }

  predicate CtxRed(c: Ctx) { c.In? && c.color.Red? }

  /** Putting a balanced tree of black height `k` in the hole of `c` violates nothing but,
      possibly, the colour rule at the hole itself. */
  ghost predicate CtxOk(c: Ctx, k: nat) {
    c.Top? ||
    (&& Balanced(c.sib) && BlackHeight(c.sib) == k
     && (c.color.Red? ==> !IsRed(c.sib) && c.up.In? && !CtxRed(c.up))
     && CtxOk(c.up, k + Weight(c.color)))
  }

  /** A red tree may stand only below a black node. */
  predicate Fits(c: Ctx, t: Tree) { IsRed(t) ==> c.In? && !CtxRed(c) }

  lemma {:induction false} ZipRedBlack(c: Ctx, t: Tree)
    ensures CtxOk(c, BlackHeight(t)) && Balanced(t) && Fits(c, t) <==> RedBlack(Zip(c, t))
    decreases c
  {
    if c.In? {
      var t' := Join(c.side, t, c.id, c.color, c.sib);
      ZipRedBlack(c.up, t');
    }
  }

  // ----- Height -----

  function Pow2(n: nat): nat { if n == 0 then 1 else 2 * Pow2(n - 1) }

  ghost function Height(t: Tree): nat {
    if t.Leaf? then 0 else 1 + if Height(t.left) > Height(t.right) then Height(t.left) else Height(t.right)
  }

  ghost function Depth(c: Ctx): nat { if c.Top? then 0 else 1 + Depth(c.up) }

  lemma {:induction false} PowAdd(a: nat, b: nat)
    ensures Pow2(a + b) == Pow2(a) * Pow2(b)
    decreases a
  {
    if a > 0 {
      PowAdd(a - 1, b);
    }
  }

  lemma {:induction false} BlackHeightBounds(t: Tree)
    requires Balanced(t)
    ensures Pow2(BlackHeight(t)) <= |Inorder(t)| + 1
    ensures Height(t) <= 2 * BlackHeight(t) + if IsRed(t) then 1 else 0
    decreases t
  {
    if t.Node? {
      BlackHeightBounds(t.left);
      BlackHeightBounds(t.right);
    }
  }

  lemma {:induction false} PowMonotone(a: nat, b: nat)
    requires a <= b
    ensures Pow2(a) <= Pow2(b)
    decreases b
  {
    if a < b {
      PowMonotone(a, b - 1);
    }
  }

  /** The height of a red-black tree of n nodes is at most 2 log2(n + 1). */
  lemma HeightBound(t: Tree)
    requires RedBlack(t)
    ensures Pow2(Height(t)) <= (|Inorder(t)| + 1) * (|Inorder(t)| + 1)
  {
    var k, n := BlackHeight(t), |Inorder(t)| + 1;
    BlackHeightBounds(t);
    PowMonotone(Height(t), k + k);
    PowAdd(k, k);
    Square(Pow2(k), n);
  }

  lemma Square(a: nat, b: nat)
    requires a <= b
    ensures a * a <= b * b
  {
  }
}
