/** tcb.c: the connection index, a red-black tree searched by `TcbCmp`, against a finite map. */
module TcbIndex {
  import opened RbHeap
  import opened RbTree
  import opened TcbKey

  /** The identifying fields of the control blocks, by address. */
  type Blocks = map<Ptr, Ends>

  function EndsAt(blocks: Blocks, p: Ptr): Ends { if p in blocks then blocks[p] else WILDCARD }

  function KeyAt(blocks: Blocks, p: Ptr): Key { KeyOf(EndsAt(blocks, p)) }

  ghost predicate Sorted(o: seq<Ptr>, blocks: Blocks) {
    forall i, j :: 0 <= i < j < |o| ==> TcbCmp(EndsAt(blocks, o[i]), EndsAt(blocks, o[j])) < 0
  }

  /** `e` lies strictly between what precedes and what follows the hole of `c`. */
  ghost predicate Between(c: Ctx, blocks: Blocks, e: Ends) {
    && (forall i :: 0 <= i < |Before(c)| ==> TcbCmp(EndsAt(blocks, Before(c)[i]), e) < 0)
    && (forall i :: 0 <= i < |After(c)| ==> TcbCmp(e, EndsAt(blocks, After(c)[i])) < 0)
  }

  /** `index` maps exactly the keys of the nodes in `o` to those nodes. */
  ghost predicate Agrees(index: map<Key, Ptr>, o: seq<Ptr>, blocks: Blocks) {
    && (forall k :: k in index ==> index[k] in o && KeyAt(blocks, index[k]) == k)
    && (forall p :: p in o ==> KeyAt(blocks, p) in index && index[KeyAt(blocks, p)] == p)
  }

  /** A search state: the node for `e`, if there is one, is in `t`. */
  ghost predicate Searching(c: Ctx, t: Tree, blocks: Blocks, e: Ends) {
    Sorted(Flat(c, t), blocks) && Between(c, blocks, e)
  }

  /** Turning to side `s` at the root of `t`, as the comparison says, keeps the search on track. */
  lemma SearchDown(s: Side, c: Ctx, t: Tree, blocks: Blocks, e: Ends)
    requires Searching(c, t, blocks, e) && t.Node?
    requires s.Left? ==> TcbCmp(e, EndsAt(blocks, t.id)) < 0
    requires s.Right? ==> TcbCmp(e, EndsAt(blocks, t.id)) > 0
    ensures Searching(In(c, s, t.id, t.color, t.Kid(s.Other())), t.Kid(s), blocks, e)
  {
    FlatUp(In(c, s, t.id, t.color, t.Kid(s.Other())), t.Kid(s));
    if s.Left? {
      GoLeft(c, t, blocks, e);
    } else {
      GoRight(c, t, blocks, e);
    }
  }

  lemma GoLeft(c: Ctx, t: Tree, blocks: Blocks, e: Ends)
    requires Searching(c, t, blocks, e) && t.Node? && TcbCmp(e, EndsAt(blocks, t.id)) < 0
    ensures Between(In(c, Left, t.id, t.color, t.right), blocks, e)
  {
    var o, r, p := Flat(c, t), Inorder(t.right), |Before(c)| + |Inorder(t.left)|;
    assert o[p] == t.id;
    forall i | 0 <= i < |r| ensures TcbCmp(e, EndsAt(blocks, r[i])) < 0 {
      assert o[p + 1 + i] == r[i];
      TotalOrder(e, EndsAt(blocks, t.id), EndsAt(blocks, r[i]));
    }
  }

  lemma GoRight(c: Ctx, t: Tree, blocks: Blocks, e: Ends)
    requires Searching(c, t, blocks, e) && t.Node? && TcbCmp(e, EndsAt(blocks, t.id)) > 0
    ensures Between(In(c, Right, t.id, t.color, t.left), blocks, e)
  {
    var o, l, p := Flat(c, t), Inorder(t.left), |Before(c)| + |Inorder(t.left)|;
    assert o[p] == t.id;
    TotalOrder(EndsAt(blocks, t.id), e, e);
    forall i | 0 <= i < |l| ensures TcbCmp(EndsAt(blocks, l[i]), e) < 0 {
      assert o[|Before(c)| + i] == l[i];
      TotalOrder(EndsAt(blocks, l[i]), EndsAt(blocks, t.id), e);
    }
  }

  /** Where the search ends at a leaf, the key is nowhere in the tree. */
  lemma SearchFails(c: Ctx, blocks: Blocks, e: Ends, p: Ptr)
    requires Searching(c, Leaf, blocks, e) && p in Flat(c, Leaf)
    ensures KeyAt(blocks, p) != KeyOf(e)
  {
    var i :| 0 <= i < |Flat(c, Leaf)| && Flat(c, Leaf)[i] == p;
    TotalOrder(e, EndsAt(blocks, p), e);
    if i < |Before(c)| {
      assert p == Before(c)[i];
    } else {
      assert p == After(c)[i - |Before(c)|];
    }
  }

  class TcbTable {
    const list: RbRoot
    var blocks: Blocks
    ghost var index: map<Key, Ptr>

    ghost predicate Valid()
      reads this, list
    {
      list.Valid() && Sorted(Inorder(list.tree), blocks) && Agrees(index, Inorder(list.tree), blocks)
    }

    constructor ()
      ensures Valid() && fresh(list) && index == map[] && list.mem == map[] && list.idle == map[]
    {
      list := new RbRoot();
      blocks, index := map[], map[];
    }

    /** tcb_find_rb, with the number of nodes it looks at. */
    method FindRb(e: Ends) returns (p: Ptr, ghost visits: nat)
      requires Valid()
      ensures p == if KeyOf(e) in index then index[KeyOf(e)] else NULL
      ensures p != NULL <==> KeyOf(e) in index
      ensures Pow2(visits) <= (|Inorder(list.tree)| + 1) * (|Inorder(list.tree)| + 1)
    {
      p, visits := list.root, 0;
      ghost var c, t := Top, list.tree;
      while p != NULL
        invariant list.Holds(c, t) && p == Root(t) && Zip(c, t) == list.tree
        invariant Searching(c, t, blocks, e)
        invariant visits + Height(t) <= Height(list.tree)
        decreases t
      {
        visits := visits + 1;
        var result := TcbCmp(e, EndsAt(blocks, p));
        if result == 0 {
          Hit(c, t, blocks, e);
          HeightBound(list.tree);
          PowMonotone(visits, Height(list.tree));
          return;
        }
        var s := if result < 0 then Left else Right;
        SearchDown(s, c, t, blocks, e);
        Open(list.mem, Up(c, NULL), t, s);
        ghost var d := In(c, s, t.id, t.color, t.Kid(s.Other()));
        ViewUp(list.mem, NULL, list.root, d, t.Kid(s));
        p, c, t := list.mem[p].Kid(s), d, t.Kid(s);
      }
      Miss(c, t, blocks, e, index);
      HeightBound(list.tree);
      PowMonotone(visits, Height(list.tree));
    }

    /** The part of tcb_new that concerns the tree: a zeroed block with ends `e`, put in if its key is
        not taken. */
    method New(p: Ptr, e: Ends) returns (ok: bool)
      requires Valid() && p != NULL && p !in Inorder(list.tree)
      modifies this, list
      ensures Valid() && blocks == old(blocks)[p := e]
      ensures ok <==> KeyOf(e) !in old(index)
      ensures index == if ok then old(index)[KeyOf(e) := p] else old(index)
      ensures list.idle == if ok then old(list.idle) - {p} else old(list.idle)[p := BLANK]
      ensures list.mem.Keys == if ok then old(list.mem.Keys) + {p} else old(list.mem.Keys)
    {
      Blanked(list.idle, p);
      Allot(p, e);
      ok := Insert(p, e);
    }

    /** The descent of tcb_insert: the empty place where `e` belongs, unless it is there already. */
    method Descend(e: Ends) returns (found: bool, parent: Ptr, s: Side, ghost c: Ctx)
      requires Valid()
      ensures found <==> KeyOf(e) in index
      ensures !found ==> list.Holds(c, Leaf) && Zip(c, Leaf) == list.tree && Searching(c, Leaf, blocks, e)
      ensures !found ==> parent == Up(c, NULL) && (c.In? ==> s == c.side)
    {
      var q := list.root;
      parent, s, c := NULL, Left, Top;
      ghost var t := list.tree;
      while q != NULL
        invariant list.Holds(c, t) && q == Root(t) && Zip(c, t) == list.tree
        invariant parent == Up(c, NULL) && (c.In? ==> s == c.side)
        invariant Searching(c, t, blocks, e)
        decreases t
      {
        var result := TcbCmp(e, EndsAt(blocks, q));
        parent := q;
        if result == 0 {
          Hit(c, t, blocks, e);
          return true, parent, s, c;
        }
        s := if result < 0 then Left else Right;
        SearchDown(s, c, t, blocks, e);
        Open(list.mem, Up(c, NULL), t, s);
        ghost var d := In(c, s, t.id, t.color, t.Kid(s.Other()));
        ViewUp(list.mem, NULL, list.root, d, t.Kid(s));
        q, c, t := list.mem[q].Kid(s), d, t.Kid(s);
      }
      Miss(c, t, blocks, e, index);
      found := false;
    }

    /** The part of tcb_new before tcb_insert: a new control block, all zero but for its ends. */
    method Allot(p: Ptr, e: Ends)
      requires Valid() && p !in Inorder(list.tree)
      modifies this`blocks, list`idle
      ensures Valid() && blocks == old(blocks)[p := e] && list.idle == old(list.idle)[p := BLANK]
    {
      KeysUpdate(index, Inorder(list.tree), blocks, p, e);
      blocks := blocks[p := e];
      list.Allot(p);
    }

    /** tcb_insert of the control block `p` with ends `e`; false if the key is taken. */
    method Insert(p: Ptr, e: Ends) returns (ok: bool)
      requires Valid() && p != NULL && p !in Inorder(list.tree) && EndsAt(blocks, p) == e
      modifies this`index, list
      ensures Valid()
      ensures ok <==> KeyOf(e) !in old(index)
      ensures index == if ok then old(index)[KeyOf(e) := p] else old(index)
      ensures list.idle == if ok then old(list.idle) - {p} else old(list.idle)
      ensures list.mem.Keys == if ok then old(list.mem.Keys) + {p} else old(list.mem.Keys)
    {
      var found, parent, s;
      ghost var c;
      found, parent, s, c := Descend(e);
      if found {
        return false;
      }
      Fresh(c, list.tree, p);
      ZipRedBlack(c, Leaf);
      ZipInorder(c, Leaf);
      InsertedSorted(c, blocks, e, p);
      InsertedAgrees(c, blocks, KeyOf(e), p, index);
      list.LinkNode(p, parent, s, c);
      list.InsertColor(p, c);
      index := index[KeyOf(e) := p];
      ok := true;
    }

    /** tcb_delete of a block that is in the tree. */
    method Delete(p: Ptr)
      requires Valid() && p in Inorder(list.tree)
      modifies this`index, list
      ensures Valid()
      ensures index == old(index) - {KeyAt(blocks, p)}
      ensures KeyAt(blocks, p) in old(index) && old(index)[KeyAt(blocks, p)] == p
      ensures list.mem.Keys == old(list.mem.Keys) - {p} && list.idle == old(list.idle) - {p}
    {
      Unlink(p);
      MemberIds(list.tree, p);
      list.Free(p);
    }

    /** rb_erase of a block that is in the tree. */
    method Unlink(p: Ptr)
      requires Valid() && p in Inorder(list.tree)
      modifies this`index, list`mem, list`root, list`tree
      ensures Valid() && p !in Inorder(list.tree) && list.mem.Keys == old(list.mem.Keys)
      ensures index == old(index) - {KeyAt(blocks, p)}
      ensures KeyAt(blocks, p) in old(index) && old(index)[KeyAt(blocks, p)] == p
    {
      MemberIds(list.tree, p);
      OrderDistinct(list.mem, list.tree);
      ghost var o := Inorder(list.tree);
      ghost var a, b := list.Erase(p);
      ErasedIndex(o, a, p, b, blocks, index);
      index := index - {KeyAt(blocks, p)};
    }

    /** tcb_delete of a block that was never in the tree: the whole index is lost. */
    method DeleteIdle(p: Ptr)
      requires Valid() && p !in list.mem && p in list.idle && list.idle[p] == BLANK
      modifies this`index, list
      ensures Valid() && index == map[]
      ensures list.mem == old(list.mem) && list.idle == old(list.idle) - {p}
    {
      list.EraseIdle(p);
      index := map[];
      list.Free(p);
    }
  }

  lemma Blanked(idle: Mem, p: Ptr)
    ensures idle[p := BLANK] - {p} == idle - {p}
  {
  }

  lemma Hit(c: Ctx, t: Tree, blocks: Blocks, e: Ends)
    requires t.Node? && TcbCmp(e, EndsAt(blocks, t.id)) == 0
    ensures t.id in Inorder(Zip(c, t)) && KeyAt(blocks, t.id) == KeyOf(e)
  {
    ZipInorder(c, t);
    TotalOrder(e, EndsAt(blocks, t.id), e);
    assert Flat(c, t)[|Before(c)| + |Inorder(t.left)|] == t.id;
  }

  lemma Miss(c: Ctx, t: Tree, blocks: Blocks, e: Ends, index: map<Key, Ptr>)
    requires Searching(c, t, blocks, e) && t.Leaf? && Agrees(index, Inorder(Zip(c, t)), blocks)
    ensures KeyOf(e) !in index
  {
    ZipInorder(c, t);
    if KeyOf(e) in index {
      SearchFails(c, blocks, e, index[KeyOf(e)]);
    }
  }

  /** Writing the key of a block that is not in the tree changes nothing there. */
  lemma KeysUpdate(index: map<Key, Ptr>, o: seq<Ptr>, blocks: Blocks, p: Ptr, e: Ends)
    requires p !in o && Sorted(o, blocks) && Agrees(index, o, blocks)
    ensures Sorted(o, blocks[p := e]) && Agrees(index, o, blocks[p := e])
  {
  }

  lemma Fresh(c: Ctx, whole: Tree, p: Ptr)
    requires Zip(c, Leaf) == whole && p !in Inorder(whole)
    ensures p !in CtxIds(c)
  {
    ZipIds(c, Leaf);
    InorderIds(whole);
  }

  lemma InsertedSorted(c: Ctx, blocks: Blocks, e: Ends, p: Ptr)
    requires Searching(c, Leaf, blocks, e) && EndsAt(blocks, p) == e
    ensures Sorted(Before(c) + [p] + After(c), blocks)
  {
    var b, a, f := Before(c), After(c), Flat(c, Leaf);
    assert f == b + a;
    InsertedOrdered(b, p, a, (x: Ptr, y: Ptr) => TcbCmp(EndsAt(blocks, x), EndsAt(blocks, y)) < 0);
  }

  lemma InsertedOrdered(b: seq<Ptr>, p: Ptr, a: seq<Ptr>, lt: (Ptr, Ptr) -> bool)
    requires forall i, j :: 0 <= i < j < |b + a| ==> lt((b + a)[i], (b + a)[j])
    requires (forall i :: 0 <= i < |b| ==> lt(b[i], p)) && (forall i :: 0 <= i < |a| ==> lt(p, a[i]))
    ensures forall i, j :: 0 <= i < j < |b + [p] + a| ==> lt((b + [p] + a)[i], (b + [p] + a)[j])
  {
    var o, f := b + [p] + a, b + a;
    forall i, j | 0 <= i < j < |o| ensures lt(o[i], o[j]) {
      if i == |b| {
        assert o[j] == a[j - |b| - 1];
      } else if j == |b| {
        assert o[i] == b[i];
      } else {
        assert o[i] == f[if i < |b| then i else i - 1] && o[j] == f[if j < |b| then j else j - 1];
      }
    }
  }

  lemma InsertedAgrees(c: Ctx, blocks: Blocks, k: Key, p: Ptr, index: map<Key, Ptr>)
    requires KeyAt(blocks, p) == k && k !in index && Agrees(index, Flat(c, Leaf), blocks)
    ensures Agrees(index[k := p], Before(c) + [p] + After(c), blocks)
  {
  }

  ghost predicate NoRepeats(o: seq<Ptr>) { forall i, j :: 0 <= i < j < |o| ==> o[i] != o[j] }

  lemma OrderDistinct(h: Mem, t: Tree)
    requires Is(h, NULL, t)
    ensures NoRepeats(Inorder(t))
  {
    InorderDistinct(h, NULL, t);
  }

  lemma ErasedIndex(o: seq<Ptr>, a: seq<Ptr>, p: Ptr, b: seq<Ptr>, blocks: Blocks, index: map<Key, Ptr>)
    requires o == a + [p] + b && Sorted(o, blocks) && Agrees(index, o, blocks) && NoRepeats(o)
    ensures Sorted(a + b, blocks) && Agrees(index - {KeyAt(blocks, p)}, a + b, blocks)
    ensures KeyAt(blocks, p) in index && index[KeyAt(blocks, p)] == p && p !in a + b
  {
    ErasedSorted(o, a, p, b, blocks);
    ErasedMembers(o, a, p, b);
    assert o[|a|] == p;
  }

  lemma ErasedSorted(o: seq<Ptr>, a: seq<Ptr>, p: Ptr, b: seq<Ptr>, blocks: Blocks)
    requires o == a + [p] + b && Sorted(o, blocks)
    ensures Sorted(a + b, blocks)
  {
    forall i | 0 <= i < |a + b| ensures (a + b)[i] == o[if i < |a| then i else i + 1] {}
  }

  lemma ErasedMembers(o: seq<Ptr>, a: seq<Ptr>, p: Ptr, b: seq<Ptr>)
    requires o == a + [p] + b && NoRepeats(o)
    ensures p !in a + b && forall q :: q in o <==> q == p || q in a + b
  {
    assert o[|a|] == p;
    forall i | 0 <= i < |a + b| ensures (a + b)[i] == o[if i < |a| then i else i + 1] {}
  }
}
