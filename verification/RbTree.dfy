/** rbtree.c: rotations, insertion and deletion rebalancing, and in-order stepping, working in
    place on node memory. */
module RbTree {
  import opened RbHeap
  import opened RbShapes
  import opened RbMemory

  /** A node as memset leaves it. */
  const BLANK := RbNode(NULL, Red, NULL, NULL)

  /** `mem` holds the nodes that have been linked, `idle` those that are initialised and not linked;
      together they are the memory of all nodes. */
  class RbRoot {
    var root: Ptr
    var mem: Mem
    var idle: Mem
    ghost var tree: Tree

    ghost predicate Holds(c: Ctx, t: Tree)
      reads this
    {
      View(mem, NULL, root, c, t)
    }

    /** A black root, no red node below a red one, equal black heights, and consistent links. */
    ghost predicate Valid()
      reads this
    {
      Holds(Top, tree) && RedBlack(tree)
    }

    constructor ()
      ensures Valid() && tree == Leaf && mem == map[] && idle == map[]
    {
      root, mem, idle, tree := NULL, map[], map[], Leaf;
    }

    /** A new node, all zero. */
    method Allot(node: Ptr)
      modifies this`idle
      ensures idle == old(idle)[node := BLANK]
    {
      idle := idle[node := BLANK];
    }

    /** Free a node that is not in the tree. */
    method Free(node: Ptr)
      requires Valid() && node !in Ids(tree)
      modifies this`mem, this`idle
      ensures Valid() && mem == old(mem) - {node} && idle == old(idle) - {node}
    {
      ghost var h := mem;
      mem, idle := mem - {node}, idle - {node};
      IsFrame(h, mem, NULL, tree);
    }

    // ----- Field updates -----

    method SetParent(x: Ptr, p: Ptr)
      requires x in mem
      modifies this`mem
      ensures mem == old(mem)[x := old(mem[x]).(parent := p)]
    {
      mem := mem[x := mem[x].(parent := p)];
    }

    method SetKid(x: Ptr, s: Side, p: Ptr)
      requires x in mem
      modifies this`mem
      ensures mem == old(mem)[x := old(mem[x]).WithKid(s, p)]
    {
      mem := mem[x := mem[x].WithKid(s, p)];
    }

    method SetColor(x: Ptr, col: Color, ghost c: Ctx, ghost t: Tree)
      requires Holds(c, t) && t.Node? && t.id == x
      modifies this`mem
      ensures Holds(c, Painted(t, col))
      ensures mem.Keys == old(mem.Keys)
    {
      ghost var h := mem;
      mem := mem[x := mem[x].(color := col)];
      IsFrame(h, mem, x, t.left);
      IsFrame(h, mem, x, t.right);
      AroundFrame(h, mem, NULL, root, c, x);
    }

    /** Colour the sibling of the hole. */
    method SetSibling(x: Ptr, col: Color, ghost c: Ctx, ghost t: Tree)
      requires Holds(c, t) && c.In? && c.sib.Node? && c.sib.id == x
      modifies this`mem
      ensures Holds(c.(sib := Painted(c.sib, col)), t)
      ensures mem.Keys == old(mem.Keys)
    {
      ViewAcross(mem, NULL, root, c, t);
      SetColor(x, col, Across(c, t), c.sib);
      ViewAcross(mem, NULL, root, c.(sib := Painted(c.sib, col)), t);
    }

    /** Colour the sibling's child on side `d`. */
    method SetNephew(d: Side, x: Ptr, col: Color, ghost c: Ctx, ghost t: Tree)
      requires Holds(c, t) && c.In? && c.sib.Node? && c.sib.Kid(d).Node? && c.sib.Kid(d).id == x
      modifies this`mem
      ensures Holds(c.(sib := NephewPainted(c.sib, d, col)), t)
      ensures mem.Keys == old(mem.Keys)
    {
      ghost var a := In(Across(c, t), d, c.sib.id, c.sib.color, c.sib.Kid(d.Other()));
      ViewAcross(mem, NULL, root, c, t);
      ViewUp(mem, NULL, root, a, c.sib.Kid(d));
      SetColor(x, col, a, c.sib.Kid(d));
      ViewUp(mem, NULL, root, a, Painted(c.sib.Kid(d), col));
      ViewAcross(mem, NULL, root, c.(sib := NephewPainted(c.sib, d, col)), t);
    }

    /** Make the pointer that leads to `was` lead to `now`; `s` is the side tested first. */
    method Redirect(s: Side, parent: Ptr, was: Ptr, now: Ptr, ghost c: Ctx)
      requires parent == Up(c, NULL)
      requires c.In? ==> c.id != NULL && c.id in mem
      requires c.In? ==> mem[c.id].Kid(c.side) == was != mem[c.id].Kid(c.side.Other())
      modifies this`mem, this`root
      ensures mem == if c.Top? then old(mem) else old(mem)[c.id := old(mem[c.id]).WithKid(c.side, now)]
      ensures root == if c.Top? then now else old(root)
    {
      if parent != NULL {
        if was == mem[parent].Kid(s) {
          SetKid(parent, s, now);
        } else {
          SetKid(parent, s.Other(), now);
        }
      } else {
        root := now;
      }
    }

    /** The rotation towards side `s`, in any context. */
    method Rotate(s: Side, node: Ptr, ghost c: Ctx, ghost t: Tree)
      requires Holds(c, t) && t.Node? && t.id == node && t.Kid(s.Other()).Node?
      modifies this`mem, this`root
      ensures Holds(c, Rotated(s, t))
      ensures mem.Keys == old(mem.Keys)
    {
      ghost var h, r := mem, root;
      RotateParts(h, r, s, c, t);
      var right := mem[node].Kid(s.Other());
      var parent := mem[node].parent;
      var inner := mem[right].Kid(s);
      SetKid(node, s.Other(), inner);
      if inner != NULL {
        SetParent(inner, node);
      }
      SetKid(right, s, node);
      SetParent(right, parent);
      Redirect(s, parent, node, right, c);
      SetParent(node, right);
      RotateView(h, mem, r, root, s, c, t);
    }

    // ----- Insertion -----

    /** rb_link_node: a red leaf in the hole of `c`; the node is idle no more. */
    method LinkNode(node: Ptr, parent: Ptr, s: Side, ghost c: Ctx)
      requires Holds(c, Leaf) && node != NULL && node !in CtxIds(c)
      requires parent == Up(c, NULL) && (c.In? ==> s == c.side)
      modifies this`mem, this`idle, this`root
      ensures Holds(c, Node(Leaf, node, Red, Leaf))
      ensures mem.Keys == old(mem.Keys) + {node} && idle == old(idle) - {node}
    {
      ghost var h, r := mem, root;
      idle := idle - {node};
      mem := mem[node := RbNode(parent, Red, NULL, NULL)];
      if parent == NULL {
        root := node;
      } else {
        SetKid(parent, s, node);
      }
      AroundRelink(h, mem, NULL, r, root, c, NULL, node);
      ghost var leaf := Node(Leaf, node, Red, Leaf);
      assert Ids(leaf.left) == {} && Ids(leaf.right) == {};
      assert Ids(leaf) == {node};
      assert Is(mem, parent, leaf);
    }

    /** Red uncle: recolour, and the grandparent becomes the node to look at. */
    method Recolor(s: Side, parent: Ptr, gparent: Ptr, uncle: Ptr, ghost c: Ctx, ghost t: Tree)
      requires Holds(c, t) && c.In? && c.id == parent
      requires c.up.In? && c.up.id == gparent && c.up.side == s && IsRed(c.up.sib) && c.up.sib.id == uncle
      modifies this`mem
      ensures Holds(c.up.up, Recolored(c, t))
      ensures mem.Keys == old(mem.Keys)
    {
      ghost var g, tp := c.up, Join(c.side, t, c.id, c.color, c.sib);
      ViewUp(mem, NULL, root, c, t);
      SetSibling(uncle, Black, g, tp);
      g := g.(sib := Painted(g.sib, Black));
      SetColor(parent, Black, g, tp);
      tp := Painted(tp, Black);
      ViewUp(mem, NULL, root, g, tp);
      SetColor(gparent, Red, g.up, Join(s, tp, g.id, g.color, g.sib));
    }

    /** Node and parent on different sides: turn them onto the parent's side. */
    method TurnInner(s: Side, parent: Ptr, ghost c: Ctx, ghost t: Tree)
      requires Holds(c, t) && CtxRed(c) && c.id == parent && IsRed(t) && c.side == s.Other()
      modifies this`mem, this`root
      ensures Holds(InnerCtx(c, t), InnerTree(c, t))
      ensures mem.Keys == old(mem.Keys)
    {
      ViewUp(mem, NULL, root, c, t);
      Rotate(s, parent, c.up, Join(c.side, t, c.id, c.color, c.sib));
      ViewUp(mem, NULL, root, InnerCtx(c, t), InnerTree(c, t));
    }

    /** Node and parent on the same side: the parent takes the grandparent's place. */
    method TurnOuter(s: Side, parent: Ptr, gparent: Ptr, ghost c: Ctx, ghost t: Tree)
      requires Holds(c, t) && c.In? && c.id == parent && c.side == s
      requires c.up.In? && c.up.id == gparent && c.up.side == s
      modifies this`mem, this`root
      ensures Holds(OuterCtx(c), t)
      ensures mem.Keys == old(mem.Keys)
    {
      ghost var g, tp := c.up, Join(s, t, c.id, c.color, c.sib);
      ViewUp(mem, NULL, root, c, t);
      SetColor(parent, Black, g, tp);
      ViewUp(mem, NULL, root, g, Painted(tp, Black));
      ghost var tg := Join(s, Painted(tp, Black), g.id, g.color, g.sib);
      SetColor(gparent, Red, g.up, tg);
      Rotate(s.Other(), gparent, g.up, Painted(tg, Red));
      ViewUp(mem, NULL, root, OuterCtx(c), t);
    }

    /** One iteration of rb_insert_color, entered because the parent is red. */
    method InsertStep(node: Ptr, parent: Ptr, ghost c: Ctx, ghost t: Tree)
      returns (node': Ptr, ghost c': Ctx, ghost t': Tree)
      requires Holds(c, t) && InsertInv(c, t) && t.id == node && CtxRed(c) && c.id == parent
      modifies this`mem, this`root
      ensures Holds(c', t') && InsertInv(c', t') && t'.id == node'
      ensures Flat(c', t') == Flat(c, t) && Depth(c') < Depth(c)
      ensures mem.Keys == old(mem.Keys)
    {
      var gparent := mem[parent].parent;
      assert Around(mem, NULL, root, c.up, c.id);
      var s := if parent == mem[gparent].left then Left else Right;
      assert c.up.side == s by { ViewUp(mem, NULL, root, c, t); }
      var uncle := mem[gparent].Kid(s.Other());
      if uncle != NULL && mem[uncle].color.Red? {
        InsertRecolor(c, t);
        RecolorFlat(c, t);
        Recolor(s, parent, gparent, uncle, c, t);
        return gparent, c.up.up, Recolored(c, t);
      }
      var parent' := parent;
      node', c', t' := node, c, t;
      if mem[parent].Kid(s.Other()) == node {
        assert c.side == s.Other();
        InsertInner(c, t);
        InnerFlat(c, t);
        TurnInner(s, parent, c, t);
        parent', node', c', t' := node, parent, InnerCtx(c, t), InnerTree(c, t);
      }
      InsertOuter(c', t');
      OuterFlat(c', t');
      TurnOuter(s, parent', gparent, c', t');
      c' := OuterCtx(c');
    }

    /** rb_insert_color: a red leaf `n` has been linked into the hole of `c0`. */
    method InsertColor(n: Ptr, ghost c0: Ctx)
      requires Holds(c0, Node(Leaf, n, Red, Leaf)) && CtxOk(c0, 0)
      modifies this`mem, this`root, this`tree
      ensures Valid()
      ensures Inorder(tree) == Before(c0) + [n] + After(c0)
      ensures mem.Keys == old(mem.Keys)
    {
      var node := n;
      ghost var c, t := c0, Node(Leaf, n, Red, Leaf);
      assert Inorder(t) == [n];
      while mem[node].parent != NULL && mem[mem[node].parent].color.Red?
        invariant Holds(c, t) && InsertInv(c, t) && t.id == node
        invariant Flat(c, t) == Before(c0) + [n] + After(c0)
        invariant mem.Keys == old(mem.Keys)
        decreases Depth(c)
      {
        node, c, t := InsertStep(node, mem[node].parent, c, t);
      }
      tree := Zip(c, t);
      ViewWhole(mem, NULL, root, c, t);
      ZipInorder(c, t);
      InsertDone(c, t);
      SetColor(root, Black, Top, tree);
      tree := Painted(tree, Black);
    }

    // ----- Deletion -----

    /** Red sibling: turn it above the parent, so that the deficient node gets a black sibling. */
    method RaiseRedSibling(s: Side, parent: Ptr, other: Ptr, ghost c: Ctx, ghost t: Tree)
      requires Holds(c, t) && c.In? && c.side == s && c.id == parent && IsRed(c.sib) && c.sib.id == other
      modifies this`mem, this`root
      ensures Holds(RaisedCtx(c), t)
      ensures mem.Keys == old(mem.Keys)
    {
      SetSibling(other, Black, c, t);
      ghost var c1 := c.(sib := Painted(c.sib, Black));
      ghost var tp := Join(s, t, c.id, c.color, c1.sib);
      ViewUp(mem, NULL, root, c1, t);
      SetColor(parent, Red, c.up, tp);
      Rotate(s, parent, c.up, Painted(tp, Red));
      ViewUp(mem, NULL, root, RaisedCtx(c).up, Join(s, t, c.id, Red, c.sib.Kid(s)));
      ViewUp(mem, NULL, root, RaisedCtx(c), t);
    }

    /** Only the near nephew is red: turn it above the sibling. */
    method TurnNephew(s: Side, other: Ptr, near: Ptr, ghost c: Ctx, ghost t: Tree)
      requires Holds(c, t) && c.In? && c.side == s && c.sib.Node? && c.sib.id == other
      requires c.sib.Kid(s).Node? && c.sib.Kid(s).id == near
      modifies this`mem, this`root
      ensures Holds(TurnedCtx(c), t)
      ensures mem.Keys == old(mem.Keys)
    {
      SetNephew(s, near, Black, c, t);
      ghost var c1 := c.(sib := NephewPainted(c.sib, s, Black));
      SetSibling(other, Red, c1, t);
      c1 := c1.(sib := Painted(c1.sib, Red));
      ViewAcross(mem, NULL, root, c1, t);
      Rotate(s.Other(), other, Across(c1, t), c1.sib);
      ViewAcross(mem, NULL, root, TurnedCtx(c), t);
    }

    /** Far nephew red: one rotation makes up for the missing black node. */
    method Settle(s: Side, parent: Ptr, other: Ptr, far: Ptr, ghost c: Ctx, ghost t: Tree)
      requires Holds(c, t) && c.In? && c.side == s && c.id == parent && c.sib.Node? && c.sib.id == other
      requires c.sib.Kid(s.Other()).Node? && c.sib.Kid(s.Other()).id == far
      modifies this`mem, this`root
      ensures Holds(c.up, Settled(c, t))
      ensures mem.Keys == old(mem.Keys)
    {
      SetSibling(other, mem[parent].color, c, t);
      ghost var c1 := c.(sib := Painted(c.sib, c.color));
      ghost var tp := Join(s, t, c.id, c.color, c1.sib);
      ViewUp(mem, NULL, root, c1, t);
      SetColor(parent, Black, c.up, tp);
      c1 := c1.(color := Black);
      ViewUp(mem, NULL, root, c1, t);
      SetNephew(s.Other(), far, Black, c1, t);
      c1 := c1.(sib := NephewPainted(c1.sib, s.Other(), Black));
      ViewUp(mem, NULL, root, c1, t);
      Rotate(s, parent, c.up, Join(s, t, c.id, Black, c1.sib));
    }

    /** The rest of an iteration of __rb_erase_color, once the sibling is black. */
    method EraseStepBlack(s: Side, parent: Ptr, other0: Ptr, ghost c: Ctx, ghost t: Tree)
      returns (settled: bool, ghost c': Ctx, ghost t': Tree)
      requires Holds(c, t) && EraseInv(c, t) && !IsRed(t) && c.In? && c.id == parent && c.side == s
      requires c.sib.Node? && !IsRed(c.sib) && c.sib.id == other0
      modifies this`mem, this`root
      ensures Holds(c', t') && Flat(c', t') == Flat(c, t)
      ensures settled ==> CtxOk(c', BlackHeight(t')) && Balanced(t') && Fits(c', t')
      ensures !settled ==> EraseInv(c', t') && c' == c.up && t' == Absorbed(c, t)
      ensures mem.Keys == old(mem.Keys)
    {
      var other := other0;
      OpenSibling(mem, root, s, c, t);
      var near, far := mem[other].Kid(s), mem[other].Kid(s.Other());
      if (near == NULL || mem[near].color.Black?) && (far == NULL || mem[far].color.Black?) {
        AbsorbInv(c, t);
        AbsorbFlat(c, t);
        SetSibling(other, Red, c, t);
        ViewUp(mem, NULL, root, c.(sib := Painted(c.sib, Red)), t);
        return false, c.up, Absorbed(c, t);
      }
      c' := c;
      if far == NULL || mem[far].color.Black? {
        TurnInv(c, t);
        TurnFlat(c, t);
        TurnNephew(s, other, near, c, t);
        c' := TurnedCtx(c);
        other := mem[parent].Kid(s.Other());
        OpenSibling(mem, root, s, c', t);
      }
      SettleInv(c', t);
      SettleFlat(c', t);
      Settle(s, parent, other, mem[other].Kid(s.Other()), c', t);
      settled, c', t' := true, c'.up, Settled(c', t);
    }

    /** One iteration of __rb_erase_color. `settled` is its `break`. */
    method EraseStep(node: Ptr, parent: Ptr, ghost c: Ctx, ghost t: Tree)
      returns (settled: bool, node': Ptr, parent': Ptr, ghost c': Ctx, ghost t': Tree)
      requires Holds(c, t) && EraseInv(c, t) && !IsRed(t) && Root(t) == node && c.In? && c.id == parent
      modifies this`mem, this`root
      ensures Holds(c', t') && Flat(c', t') == Flat(c, t)
      ensures settled ==> CtxOk(c', BlackHeight(t')) && Balanced(t') && Fits(c', t')
      ensures !settled ==> EraseInv(c', t') && node' == Root(t') && parent' == Up(c', NULL)
      ensures !settled ==> Depth(c') < Depth(c) || (Depth(c') == Depth(c) && IsRed(t'))
      ensures mem.Keys == old(mem.Keys)
    {
      var s := if mem[parent].left == node then Left else Right;
      SideOfHole(mem, root, s, c, t);
      var other := mem[parent].Kid(s.Other());
      ghost var c1 := c;
      if mem[other].color.Red? {
        RaiseInv(c, t);
        RaiseFlat(c, t);
        RaiseRedSibling(s, parent, other, c, t);
        c1 := RaisedCtx(c);
        other := mem[parent].Kid(s.Other());
      }
      settled, c', t' := EraseStepBlack(s, parent, other, c1, t);
      if settled {
        node', parent' := root, NULL;
      } else {
        node' := parent;
        parent' := mem[node'].parent;
      }
    }

    /** __rb_erase_color: the tree `t0` in the hole of `c0` is one black node short. */
    method EraseColor(node0: Ptr, parent0: Ptr, ghost c0: Ctx, ghost t0: Tree)
      requires Holds(c0, t0) && EraseInv(c0, t0) && node0 == Root(t0) && parent0 == Up(c0, NULL)
      modifies this`mem, this`root, this`tree
      ensures Valid()
      ensures Inorder(tree) == Flat(c0, t0)
      ensures mem.Keys == old(mem.Keys)
    {
      var node, parent, settled := node0, parent0, false;
      ghost var c, t := c0, t0;
      while !settled && (node == NULL || mem[node].color.Black?) && node != root
        invariant Holds(c, t) && Flat(c, t) == Flat(c0, t0) && mem.Keys == old(mem.Keys)
        invariant !settled ==> EraseInv(c, t) && node == Root(t) && parent == Up(c, NULL)
        invariant settled ==> CtxOk(c, BlackHeight(t)) && Balanced(t) && Fits(c, t)
        decreases !settled, Depth(c), !IsRed(t)
      {
        settled, node, parent, c, t := EraseStep(node, parent, c, t);
      }
      if settled {
        node := root;
        ViewWhole(mem, NULL, root, c, t);
        ZipRedBlack(c, t);
        ZipInorder(c, t);
        c, t := Top, Zip(c, t);
      } else if c.In? {
        RootOfCtx(mem, NULL, root, c, Root(t));
      }
      EraseDone(c, t);
      if node != NULL {
        SetColor(node, Black, c, t);
      }
      tree := Zip(c, Painted(t, Black));
      ViewWhole(mem, NULL, root, c, Painted(t, Black));
      ZipInorder(c, Painted(t, Black));
    }

    /** Take out a node that has at most one child. */
    method SpliceOut(node: Ptr, child: Ptr, ghost c: Ctx, ghost t: Tree, ghost k: Tree)
      requires Holds(c, t) && OnlyChild(t, k) && t.id == node && Root(k) == child
      modifies this`mem, this`root
      ensures Holds(c, k)
      ensures mem.Keys == old(mem.Keys)
    {
      ghost var h, r := mem, root;
      var parent := mem[node].parent;
      assert Is(mem, node, k);
      if child != NULL {
        SetParent(child, parent);
      }
      Redirect(Left, parent, node, child, c);
      SpliceView(h, mem, NULL, r, root, c, t, k);
    }

    /** Follow the children on side `s` to the end, from the root `n` of `t`. */
    method Slide(s: Side, n: Ptr, ghost base: Ptr, ghost t: Tree) returns (node: Ptr, ghost d: Ctx, ghost u: Tree)
      requires View(mem, base, n, Top, t) && t.Node?
      ensures View(mem, base, n, d, u) && Zip(d, u) == t
      ensures u.Node? && u.Kid(s).Leaf? && u.id == node && Spine(s, d)
    {
      node, d, u := n, Top, t;
      Open(mem, Up(d, base), u, s);
      while mem[node].Kid(s) != NULL
        invariant View(mem, base, n, d, u) && Zip(d, u) == t
        invariant u.Node? && u.id == node && Spine(s, d)
        invariant node in mem && mem[node].Kid(s) == Root(u.Kid(s))
        decreases u
      {
        ghost var d' := In(d, s, u.id, u.color, u.Kid(s.Other()));
        ViewUp(mem, base, n, d', u.Kid(s));
        node, d, u := mem[node].Kid(s), d', u.Kid(s);
        Open(mem, Up(d, base), u, s);
      }
      Open(mem, Up(d, base), u, s);
    }

    /** Let `old_`'s parent lead to the successor, and, unless the successor is a child of
        `old_`, give it `old_`'s right subtree without itself. */
    method Uproot(old_: Ptr, node: Ptr, ghost c: Ctx) returns (child: Ptr, parent: Ptr)
      requires NULL !in mem && old_ in mem && node in mem && Movable(mem, c, old_, node)
      modifies this`mem, this`root
      ensures child == old(mem[node].right)
      ensures parent == if old(mem[node].parent) == old_ then node else old(mem[node].parent)
      ensures var h, b := Remaining(old(mem), old_, node), RightPart(old(mem), old_, node);
        && SameBut(h, mem, {node, b, Up(c, NULL)}) && mem[node].right == b
        && (b != NULL ==> mem[b] == h[b].(parent := node))
        && (c.In? ==> root == old(root) && mem[c.id] == h[c.id].WithKid(c.side, node))
        && (c.Top? ==> root == node)
    {
      Redirect(Left, mem[old_].parent, old_, node, c);
      child := mem[node].right;
      parent := mem[node].parent;
      if parent == old_ {
        parent := node;
      } else {
        Detach(parent, child);
        SetKid(node, Right, mem[old_].right);
        SetParent(mem[old_].right, node);
      }
    }

    /** The pointer writes that put the successor `node` of `old_` in its place. */
    method MoveSuccessor(old_: Ptr, node: Ptr, ghost c: Ctx) returns (child: Ptr, parent: Ptr)
      requires NULL !in mem && old_ in mem && node in mem && Movable(mem, c, old_, node)
      modifies this`mem, this`root
      ensures child == old(mem[node].right)
      ensures parent == if old(mem[node].parent) == old_ then node else old(mem[node].parent)
      ensures Moved(Remaining(old(mem), old_, node), mem, old(root), root, c, old_, node,
                    RightPart(old(mem), old_, node))
    {
      child, parent := Uproot(old_, node, c);
      Inherit(old_, node);
    }

    method Detach(parent: Ptr, child: Ptr)
      requires parent in mem && (child != NULL ==> child in mem)
      modifies this`mem
      ensures mem == Unlinked(old(mem), parent, child)
    {
      if child != NULL {
        SetParent(child, parent);
      }
      SetKid(parent, Left, child);
    }

    method Inherit(old_: Ptr, node: Ptr)
      requires old_ in mem && node in mem && mem[old_].left in mem && node !in {old_, mem[old_].left}
      modifies this`mem
      ensures var z, a := old(mem[old_]), old(mem[old_]).left;
        mem == old(mem)[node := RbNode(z.parent, z.color, a, old(mem[node]).right)][a := old(mem[a]).(parent := node)]
    {
      mem := mem[node := mem[node].(parent := mem[old_].parent, color := mem[old_].color)];
      SetKid(node, Left, mem[old_].left);
      SetParent(mem[old_].left, node);
    }

    method SpliceSuccessor(old_: Ptr, node: Ptr, ghost c: Ctx, ghost t: Tree, ghost d: Ctx, ghost u: Tree)
      returns (child: Ptr, parent: Ptr)
      requires Holds(c, t) && t.Node? && t.id == old_ && t.left.Node? && t.right.Node?
      requires View(mem, old_, t.right.id, d, u) && Zip(d, u) == t.right && Spine(Left, d)
      requires u.Node? && u.left.Leaf? && u.id == node
      modifies this`mem, this`root
      ensures Holds(c, Node(t.left, node, t.color, Zip(d, u.right)))
      ensures child == Root(u.right) && parent == Up(d, node)
      ensures mem.Keys == old(mem.Keys)
    {
      ghost var h, r := mem, root;
      SuccessorParts(h, r, c, t, d, u);
      child, parent := MoveSuccessor(old_, node, c);
      if d.In? {
        UnlinkedView(h, r, c, t, d, u);
        SuccessorView(Unlinked(h, d.id, child), mem, r, root, c, old_, t.left, node, old_, Zip(d, u.right));
      } else {
        SuccessorView(h, mem, r, root, c, old_, t.left, node, node, u.right);
      }
    }

    /** The splicing part of rb_erase, up to the label `color`. */
    method Unhook(node: Ptr, ghost c: Ctx, ghost t: Tree)
      returns (child: Ptr, parent: Ptr, color: Color, ghost c': Ctx, ghost k: Tree)
      requires Holds(c, t) && t.Node? && t.id == node
      requires CtxOk(c, BlackHeight(t)) && Balanced(t) && Fits(c, t)
      modifies this`mem, this`root
      ensures Holds(c', k) && Leftover(c', k, color) && child == Root(k) && parent == Up(c', NULL)
      ensures Flat(c', k) == (Before(c) + Inorder(t.left)) + (Inorder(t.right) + After(c))
      ensures mem.Keys == old(mem.Keys)
    {
      OpenKids(mem, root, c, t);
      if mem[node].left == NULL || mem[node].right == NULL {
        child := if mem[node].left == NULL then mem[node].right else mem[node].left;
        parent := mem[node].parent;
        color := mem[node].color;
        c', k := c, if t.left.Leaf? then t.right else t.left;
        SpliceOut(node, child, c, t, k);
        SpliceOk(c, t, k);
        Shift(Before(c), Inorder(t.left), [], Inorder(t.right), After(c));
      } else {
        var y;
        ghost var d, u;
        y, d, u := Slide(Left, mem[node].right, node, t.right);
        color := mem[y].color;
        child, parent := SpliceSuccessor(node, y, c, t, d, u);
        ghost var e := In(c, Right, y, t.color, t.left);
        c', k := Append(d, e), u.right;
        ViewUp(mem, NULL, root, e, Zip(d, k));
        ViewZip(mem, NULL, root, d, e, k);
        SuccessorOk(c, t, d, u);
        SuccessorFlat(c, t, d, u);
      }
    }

    /** Nothing is left to repair: the ghost tree follows the memory. */
    ghost method Accept(c: Ctx, t: Tree)
      requires Holds(c, t) && CtxOk(c, BlackHeight(t)) && Balanced(t) && Fits(c, t)
      modifies this`tree
      ensures Valid() && Inorder(tree) == Flat(c, t)
    {
      tree := Zip(c, t);
      ViewWhole(mem, NULL, root, c, t);
      ZipInorder(c, t);
      ZipRedBlack(c, t);
    }

    /** rb_erase: the order loses exactly this node. */
    method Erase(node: Ptr) returns (ghost a: seq<Ptr>, ghost b: seq<Ptr>)
      requires Valid() && node in Ids(tree)
      modifies this`mem, this`root, this`tree
      ensures Valid()
      ensures old(Inorder(tree)) == a + [node] + b
      ensures Inorder(tree) == a + b
      ensures mem.Keys == old(mem.Keys)
    {
      ghost var (c, t) := Locate(Top, tree, node);
      Located(mem, root, tree, c, t);
      a, b := Before(c) + Inorder(t.left), Inorder(t.right) + After(c);
      var child, parent, color;
      ghost var c', k;
      child, parent, color, c', k := Unhook(node, c, t);
      if color.Black? {
        EraseColor(child, parent, c', k);
      } else {
        Accept(c', k);
      }
    }

    /** rb_erase on a node that was never linked: it has no children and no parent, so it is taken
        for the root, and the root pointer becomes null. */
    method EraseIdle(node: Ptr)
      requires Valid() && node in idle && idle[node] == BLANK
      modifies this`mem, this`root, this`tree
      ensures Valid() && tree == Leaf && root == NULL && mem == old(mem)
    {
      var n := idle[node];
      var child := if n.left == NULL then n.right else n.left;
      var parent, color := n.parent, n.color;
      assert child == NULL && color.Red?;
      Redirect(Left, parent, node, child, Top);
      tree := Leaf;
    }

    // ----- In-order stepping -----

    /** rb_first (side `Left`) and rb_last (side `Right`). */
    method End(s: Side) returns (n: Ptr)
      requires Valid()
      ensures var o := Inorder(tree); n == if o == [] then NULL else if s.Left? then o[0] else o[|o| - 1]
    {
      n := root;
      if n != NULL {
        ghost var d, u;
        n, d, u := Slide(s, root, NULL, tree);
        SlideEnd(s, d, u);
      }
    }

    /** rb_next (side `Right`) and rb_prev (side `Left`), at place `i` of the order. */
    method Step(s: Side, node0: Ptr, ghost i: nat) returns (n: Ptr)
      requires Valid() && i < |Inorder(tree)| && Inorder(tree)[i] == node0
      ensures n == Adjacent(s, Inorder(tree), i)
    {
      ghost var (c, t) := LocateAt(Top, tree, i);
      LocatedAt(mem, root, tree, c, t, s);
      if mem[node0].parent == node0 {
        return NULL;
      }
      Open(mem, Up(c, NULL), t, s);
      if mem[node0].Kid(s) != NULL {
        ghost var d, u;
        assert t.Kid(s).Node? && View(mem, node0, t.Kid(s).id, Top, t.Kid(s));
        n, d, u := Slide(s.Other(), mem[node0].Kid(s), node0, t.Kid(s));
        SlideEnd(s.Other(), d, u);
        return;
      }
      n := Climb(s, node0, c, t);
    }

    /** Up the tree as long as the node is the child on side `s`, and one step more. */
    method Climb(s: Side, node0: Ptr, ghost c0: Ctx, ghost t0: Tree) returns (n: Ptr)
      requires Holds(c0, t0) && t0.Node? && t0.id == node0
      ensures n == Beyond(s, c0)
    {
      var node := node0;
      ghost var c, t := c0, t0;
      while mem[node].parent != NULL && node == mem[mem[node].parent].Kid(s)
        invariant Holds(c, t) && t.Node? && t.id == node && Beyond(s, c) == Beyond(s, c0)
        decreases Depth(c)
      {
        ViewUp(mem, NULL, root, c, t);
        node, c, t := mem[node].parent, c.up, Join(c.side, t, c.id, c.color, c.sib);
      }
      n := mem[node].parent;
    }

    /** Starting at rb_first and repeating rb_next. */
    method Walk() returns (visited: seq<Ptr>)
      requires Valid()
      ensures visited == Inorder(tree)
      ensures forall i, j :: 0 <= i < j < |visited| ==> visited[i] != visited[j]
    {
      visited := [];
      InorderDistinct(mem, NULL, tree);
      InorderIds(tree);
      NotNull(mem, NULL, tree);
      var n := End(Left);
      while n != NULL
        invariant |visited| <= |Inorder(tree)| && visited == Inorder(tree)[..|visited|]
        invariant n == if |visited| < |Inorder(tree)| then Inorder(tree)[|visited|] else NULL
        decreases |Inorder(tree)| - |visited|
      {
        ghost var i := |visited|;
        visited := visited + [n];
        n := Step(Right, n, i);
      }
    }

    /** rb_prev undoes rb_next wherever rb_next has a result. */
    method ThereAndBack(node: Ptr, ghost i: nat) returns (next: Ptr, back: Ptr)
      requires Valid() && i < |Inorder(tree)| && Inorder(tree)[i] == node
      ensures next != NULL ==> back == node
      ensures next == NULL <==> i + 1 == |Inorder(tree)|
    {
      InorderIds(tree);
      NotNull(mem, NULL, tree);
      back := NULL;
      next := Step(Right, node, i);
      if next != NULL {
        back := Step(Left, next, i + 1);
      }
    }
  }
}
