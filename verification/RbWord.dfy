/** rbtree.h: the word that holds a node's parent pointer and, in its lowest bit, its colour. The bit
    operations of the source on the lowest two bits are written as arithmetic. */
module RbWord {
  import opened RbHeap

  /** rb_parent, rb_color */
  function ParentOf(w: nat): nat { w - w % 4 }

  function ColorOf(w: nat): Color { if w % 2 == 0 then Red else Black }

  function Bit(c: Color): nat { if c.Red? then 0 else 1 }

  /** rb_set_parent: the two low bits stay. */
  function SetParent(w: nat, p: nat): nat
    requires p % 4 == 0
  {
    w % 4 + p
  }

  /** rb_set_color; rb_set_red and rb_set_black are its two cases. */
  function SetColor(w: nat, c: Color): nat { w - w % 2 + Bit(c) }

  /** The word for parent `p` and colour `c`. */
  function Packed(p: nat, c: Color): nat { p + Bit(c) }

  /** On words packed from aligned addresses every accessor acts on its own field, so the word
      behaves like the two fields of `RbNode`. The bare parent pointer that rb_link_node stores is
      a red node's word, and copying the word copies both fields. */
  lemma TwoFields(p: nat, c: Color, p': nat, c': Color)
    requires p % 4 == 0 && p' % 4 == 0
    ensures ParentOf(Packed(p, c)) == p && ColorOf(Packed(p, c)) == c
    ensures SetParent(Packed(p, c), p') == Packed(p', c)
    ensures SetColor(Packed(p, c), c') == Packed(p, c')
    ensures p == Packed(p, Red)
  {
    LowBits(p, c);
  }

  lemma LowBits(p: nat, c: Color)
    requires p % 4 == 0
    ensures Packed(p, c) % 4 == Packed(p, c) % 2 == Bit(c)
  {
    var q := p / 4;
    assert p == 4 * q == 2 * (2 * q);
  }
}
