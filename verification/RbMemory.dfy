/** What the pointer writes of rbtree.c do to memory: for each group of writes, the tree that memory
    holds before and after it. */
module RbMemory {
  import opened RbHeap
  import opened RbShapes

  /** The nodes a rotation touches are there, and they are distinct. */
  lemma RotateParts(h: Mem, r: Ptr, s: Side, c: Ctx, t: Tree)
    requires View(h, NULL, r, c, t) && t.Node? && t.Kid(s.Other()).Node?
    ensures var y := t.Kid(s.Other()); var b := y.Kid(s); var u := Up(c, NULL);
      && t.id in h && h[t.id] == Rec(u, t.color, s, Root(t.Kid(s)), y.id)
      && y.id in h && h[y.id] == Rec(t.id, y.color, s, Root(b), Root(y.Kid(s.Other())))
      && t.id != y.id && t.id != NULL && y.id != NULL
      && (b.Node? ==> b.id in h && b.id != NULL && b.id !in {t.id, y.id, u})
      && (c.In? ==> u in h && u != NULL && u !in {t.id, y.id})
      && (c.In? ==> h[u].Kid(c.side) == t.id != h[u].Kid(c.side.Other()))
  {
    var y := t.Kid(s.Other());
    Open(h, Up(c, NULL), t, s);
    Open(h, t.id, y, s);
  }

  lemma RotateView(h: Mem, h': Mem, r: Ptr, r': Ptr, s: Side, c: Ctx, t: Tree)
    requires View(h, NULL, r, c, t) && t.Node? && t.Kid(s.Other()).Node?
    requires var y := t.Kid(s.Other()); var b := y.Kid(s); var u := Up(c, NULL);
      && SameBut(h, h', {t.id, y.id, Root(b), u})
      && t.id in h' && h'[t.id] == Rec(y.id, t.color, s, Root(t.Kid(s)), Root(b))
      && y.id in h' && h'[y.id] == Rec(u, y.color, s, t.id, Root(y.Kid(s.Other())))
      && (b.Node? ==> b.id in h && b.id in h' && h'[b.id] == h[b.id].(parent := t.id))
      && (c.In? ==> r' == r && u in h && u in h' && h'[u] == h[u].WithKid(c.side, y.id))
      && (c.Top? ==> r' == y.id)
    ensures View(h', NULL, r', c, Rotated(s, t))
  {
    var y := t.Kid(s.Other());
    RotateParts(h, r, s, c, t);
    Open(h, Up(c, NULL), t, s);
    Open(h, t.id, y, s);
    IsFrame(h, h', t.id, t.Kid(s));
    Reparent(h, h', y.id, t.id, y.Kid(s));
    IsFrame(h, h', y.id, y.Kid(s.Other()));
    AroundRelink(h, h', NULL, r, r', c, t.id, y.id);
    Open(h', y.id, Rotated(s, t).Kid(s), s);
    Open(h', Up(c, NULL), Rotated(s, t), s);
  }

  /** The sibling exists, so comparing the left child tells the side of the hole. */
  lemma SideOfHole(h: Mem, root: Ptr, s: Side, c: Ctx, t: Tree)
    requires View(h, NULL, root, c, t) && EraseInv(c, t) && c.In?
    requires s == if h[c.id].left == Root(t) then Left else Right
    ensures s == c.side && c.sib.Node? && c.sib.id in h && h[c.sib.id].color == c.sib.color
    ensures h[c.id].Kid(s.Other()) == c.sib.id
  {
  }

  lemma OpenSibling(h: Mem, root: Ptr, s: Side, c: Ctx, t: Tree)
    requires View(h, NULL, root, c, t) && c.In? && c.sib.Node?
    ensures var m, n, f := c.sib, c.sib.Kid(s), c.sib.Kid(s.Other());
      && m.id in h && h[m.id].Kid(s) == Root(n) && h[m.id].Kid(s.Other()) == Root(f)
      && (n.Node? ==> n.id != NULL && n.id in h && h[n.id].color == n.color)
      && (f.Node? ==> f.id != NULL && f.id in h && h[f.id].color == f.color)
  {
    Open(h, c.id, c.sib, s);
  }

  lemma SpliceView(h: Mem, h': Mem, base: Ptr, r: Ptr, r': Ptr, c: Ctx, t: Tree, k: Tree)
    requires View(h, base, r, c, t) && OnlyChild(t, k)
    requires SameBut(h, h', {Root(k)} + if c.In? then {c.id} else {})
    requires k.Node? ==> k.id in h && k.id in h' && h'[k.id] == h[k.id].(parent := Up(c, base))
    requires c.In? ==> r' == r && c.id in h && c.id in h' && h'[c.id] == h[c.id].WithKid(c.side, Root(k))
    requires c.Top? ==> r' == Root(k)
    ensures View(h', base, r', c, k)
  {
    Reparent(h, h', t.id, Up(c, base), k);
    AroundRelink(h, h', base, r, r', c, t.id, Root(k));
  }

  /** The nodes that putting `y` in the place of `z` touches are there, and they differ. */
  ghost predicate Movable(h: Mem, c: Ctx, z: Ptr, y: Ptr)
    requires z in h && y in h
  {
    var a, b, k, p := h[z].left, h[z].right, h[y].right, h[y].parent;
    && a in h && b in h && z !in {y, a, b} && a !in {y, b}
    && (k != NULL ==> k in h && k !in {y, z, a, p} && h[k].parent == y)
    && (p != z ==> p in h && p !in {y, a} && b != y && b != k)
    && h[z].parent == Up(c, NULL) && h[y].left == NULL
    && (c.In? ==> c.id in h && c.id !in {NULL, z, y, a, b, k, p})
    && (c.In? ==> h[c.id].Kid(c.side) == z != h[c.id].Kid(c.side.Other()))
  }

  lemma SuccessorParts(h: Mem, r: Ptr, c: Ctx, t: Tree, d: Ctx, u: Tree)
    requires View(h, NULL, r, c, t) && t.Node? && t.left.Node? && t.right.Node?
    requires View(h, t.id, t.right.id, d, u) && Zip(d, u) == t.right
    requires u.Node? && u.left.Leaf?
    ensures t.id in h && u.id in h && Movable(h, c, t.id, u.id)
    ensures h[t.id] == RbNode(Up(c, NULL), t.color, t.left.id, t.right.id)
    ensures h[u.id] == RbNode(Up(d, t.id), u.color, NULL, Root(u.right))
    ensures Ids(t.right) == CtxIds(d) + Ids(u) && u.right.Node? == (Root(u.right) != NULL)
    ensures d.In? ==> d.id in h && d.id != t.id && t.right.id in CtxIds(d)
  {
    ZipIds(d, u);
    assert Is(h, t.id, t.left) && Is(h, t.id, t.right) && Is(h, u.id, u.right);
    if d.In? {
      RootOfCtx(h, t.id, t.right.id, d, u.id);
    }
  }

  /** Memory after the successor, below `p`, has been replaced by its right child `k`. */
  function Unlinked(h: Mem, p: Ptr, k: Ptr): Mem
    requires p in h && (k != NULL ==> k in h)
  {
    var h1 := if k != NULL then h[k := h[k].(parent := p)] else h;
    h1[p := h1[p].WithKid(Left, k)]
  }

  /** Memory without the successor `y` of `z` in the right subtree of `z`, and that subtree. */
  ghost function Remaining(h: Mem, z: Ptr, y: Ptr): Mem
    requires z in h && y in h && (h[y].parent != z ==> h[y].parent in h && (h[y].right != NULL ==> h[y].right in h))
  {
    if h[y].parent == z then h else Unlinked(h, h[y].parent, h[y].right)
  }

  ghost function RightPart(h: Mem, z: Ptr, y: Ptr): Ptr
    requires z in h && y in h
  {
    if h[y].parent == z then h[y].right else h[z].right
  }

  lemma UnlinkedView(h: Mem, r: Ptr, c: Ctx, t: Tree, d: Ctx, u: Tree)
    requires View(h, NULL, r, c, t) && t.Node? && t.left.Node? && t.right.Node?
    requires View(h, t.id, t.right.id, d, u) && Zip(d, u) == t.right
    requires u.Node? && u.left.Leaf? && d.In? && Spine(Left, d)
    requires d.id in h && (Root(u.right) != NULL ==> Root(u.right) in h)
    ensures var h1, v := Unlinked(h, d.id, Root(u.right)), Zip(d, u.right);
      && h1.Keys == h.Keys && Is(h1, t.id, v) && v.Node? && v.id == t.right.id && Ids(v) == Ids(t.right) - {u.id}
      && Is(h1, t.id, t.left) && Around(h1, NULL, r, c, t.id)
  {
    var h1, v := Unlinked(h, d.id, Root(u.right)), Zip(d, u.right);
    SuccessorParts(h, r, c, t, d, u);
    UnlinkedRight(h, t.id, t.right.id, d, u);
    assert SameBut(h, h1, Ids(t.right));
    IsFrame(h, h1, t.id, t.left);
    AroundFrame(h, h1, NULL, r, c, t.id);
  }

  /** The right subtree of `z`, rooted at `r`, without its first node. */
  lemma UnlinkedRight(h: Mem, z: Ptr, r: Ptr, d: Ctx, u: Tree)
    requires View(h, z, r, d, u) && u.Node? && u.left.Leaf? && d.In? && Spine(Left, d)
    requires d.id in h && (Root(u.right) != NULL ==> Root(u.right) in h)
    ensures var h1, v := Unlinked(h, d.id, Root(u.right)), Zip(d, u.right);
      && h1.Keys == h.Keys && Is(h1, z, v) && v.Node? && v.id == r && Ids(v) == CtxIds(d) + Ids(u.right)
  {
    var h1 := Unlinked(h, d.id, Root(u.right));
    assert OnlyChild(u, u.right) && Is(h, u.id, u.right) && d.side.Left?;
    assert u.right.Node? ==> u.right.id in Ids(u) && u.right.id != d.id;
    SpliceView(h, h1, z, r, r, d, u, u.right);
    ViewWhole(h1, z, r, d, u.right);
    ZipIds(d, u.right);
    RootOfCtx(h1, z, r, d, Root(u.right));
  }

  /** `h'` is `h` with `y` put in the place of `z`, above the subtree of `z` on the left and the
      subtree at `b` on the right. */
  ghost predicate Moved(h: Mem, h': Mem, r: Ptr, r': Ptr, c: Ctx, z: Ptr, y: Ptr, b: Ptr) {
    && z in h && y in h && h[z].left in h && (b != NULL ==> b in h) && (c.In? ==> c.id in h)
    && SameBut(h, h', {y, h[z].left, b, Up(c, NULL)})
    && h'[y] == RbNode(h[z].parent, h[z].color, h[z].left, b)
    && h'[h[z].left] == h[h[z].left].(parent := y)
    && (b != NULL ==> h'[b] == h[b].(parent := y))
    && (c.In? ==> r' == r && h'[c.id] == h[c.id].WithKid(c.side, y))
    && (c.Top? ==> r' == y)
  }

  lemma SuccessorView(h: Mem, h': Mem, r: Ptr, r': Ptr, c: Ctx, z: Ptr, a: Tree, y: Ptr, w: Ptr, b: Tree)
    requires Around(h, NULL, r, c, z) && Is(h, z, a) && Is(h, w, b) && NULL !in h
    requires Ids(a) !! Ids(b) && Ids(a) !! CtxIds(c) && Ids(b) !! CtxIds(c)
    requires y !in Ids(a) + Ids(b) + CtxIds(c)
    requires Moved(h, h', r, r', c, z, y, Root(b))
    requires a.Node? && h[z].left == a.id && h[z].parent == Up(c, NULL)
    ensures View(h', NULL, r', c, Node(a, y, h[z].color, b))
  {
    Reparent(h, h', z, y, a);
    Reparent(h, h', w, y, b);
    AroundRelink(h, h', NULL, r, r', c, z, y);
  }

  lemma OpenKids(h: Mem, root: Ptr, c: Ctx, t: Tree)
    requires View(h, NULL, root, c, t) && t.Node?
    ensures t.id in h && h[t.id] == RbNode(Up(c, NULL), t.color, Root(t.left), Root(t.right))
    ensures t.left.Node? == (Root(t.left) != NULL) && t.right.Node? == (Root(t.right) != NULL)
  {
    assert Is(h, t.id, t.left) && Is(h, t.id, t.right);
  }

  lemma Located(h: Mem, root: Ptr, whole: Tree, c: Ctx, t: Tree)
    requires View(h, NULL, root, Top, whole) && RedBlack(whole) && Zip(c, t) == whole && t.Node?
    ensures View(h, NULL, root, c, t) && CtxOk(c, BlackHeight(t)) && Balanced(t) && Fits(c, t)
    ensures Inorder(whole) == (Before(c) + Inorder(t.left)) + [t.id] + (Inorder(t.right) + After(c))
  {
    ViewWhole(h, NULL, root, c, t);
    ZipRedBlack(c, t);
    ZipInorder(c, t);
    Shift(Before(c), Inorder(t.left), [t.id], Inorder(t.right), After(c));
  }

  lemma LocatedAt(h: Mem, root: Ptr, whole: Tree, c: Ctx, t: Tree, s: Side)
    requires View(h, NULL, root, Top, whole) && Zip(c, t) == whole && t.Node?
    ensures View(h, NULL, root, c, t)
    ensures var i, o, k := |Before(c)| + |Inorder(t.left)|, Inorder(whole), Inorder(t.Kid(s));
      && i < |o| && o[i] == t.id
      && Adjacent(s, o, i) == if k == [] then Beyond(s, c) else if s.Right? then k[0] else k[|k| - 1]
  {
    ViewWhole(h, NULL, root, c, t);
    ZipInorder(c, t);
    AdjacentAt(s, c, t);
  }
}
