/** make_cksum of util.c and the headers it goes into, against the one's complement sum of RFC 1071
    over the pseudo-header of section 8.1 of RFC 8200. */
module Checksum {
  import opened Basics

  type Word = x: int | 0 <= x < 65536

  /** GET_16 and GET_32 */
  function Get16(p: seq<Byte>, i: nat): Word
    requires i + 1 < |p|
  {
    p[i] as int * 256 + p[i + 1]
  }

  function Get32(p: seq<Byte>, i: nat): nat
    requires i + 3 < |p|
  {
    Get16(p, i) * 65536 + Get16(p, i + 2)
  }

  /** PUT_16 and PUT_32: the low bytes of the value, which may be negative. */
  function Put16(v: int): (r: seq<Byte>)
    ensures |r| == 2
  {
    [v / 256 % 256, v % 256]
  }

  function Put32(v: int): (r: seq<Byte>)
    ensures |r| == 4
  {
    Put16(v / 65536) + Put16(v)
  }

  lemma PutGet16(v: int)
    ensures Get16(Put16(v), 0) == v % 65536
  {
  }

  lemma PutGet32(v: int)
    ensures Get32(Put32(v), 0) == v % 0x1_0000_0000
  {
    PutGet16(v / 65536);
    PutGet16(v);
    var b := Put32(v);
    assert Get16(b, 0) == v / 65536 % 65536 && Get16(b, 2) == v % 65536;
  }

  // ----- The sum -----

  /** The bytes from `i` to `len`, those at even offsets counted as high bytes. */
  function SumFrom(p: seq<Byte>, i: nat, len: nat): nat
    requires len <= |p|
    decreases len - i
  {
    if i >= len then 0 else (if i % 2 == 1 then p[i] else p[i] as int * 256) + SumFrom(p, i + 1, len)
  }

  /** Payload length, next header, and everything from the source address on. */
  function Sum(p: seq<Byte>, len: nat): nat
    requires 8 <= len <= |p|
  {
    Get16(p, 4) + p[6] + SumFrom(p, 8, len)
  }

  /** The folding loop. */
  function Fold(c: nat): nat
    decreases c
  {
    if c <= 0xffff then c else Fold(c / 65536 + c % 65536)
  }

  /** make_cksum */
  method MakeCksum(p: seq<Byte>, len: nat) returns (c: nat)
    requires 8 <= len <= |p|
    ensures c == Fold(Sum(p, len))
  {
    c := Get16(p, 4) + p[6];
    var i := 8;
    while i < len
      invariant 8 <= i <= len
      invariant c + SumFrom(p, i, len) == Sum(p, len)
    {
      c := c + if i % 2 == 1 then p[i] else p[i] as int * 256;
      i := i + 1;
    }
    ghost var total := c;
    while c > 0xffff
      invariant Fold(c) == Fold(total)
      decreases c
    {
      c := c / 65536 + c % 65536;
    }
  }

  /** What folding yields: the residue mod 65535, with 65535 for 0 unless the sum is 0 itself. */
  lemma {:induction false} FoldResidue(c: nat)
    ensures Fold(c) == if c == 0 then 0 else if c % 65535 == 0 then 65535 else c % 65535
    decreases c
  {
    if c > 0xffff {
      var d := c / 65536 + c % 65536;
      assert c == d + (c / 65536) * 65535;
      ModShift(d, c / 65536);
      FoldResidue(d);
    }
  }

  lemma ModShift(z: int, k: int)
    ensures (z + k * 65535) % 65535 == z % 65535
  {
  }

  // ----- The one's complement sum -----

  /** Addition with end-around carry. */
  function OnesAdd(a: Word, b: Word): Word {
    if a + b > 0xffff then a + b - 0xffff else a + b
  }

  /** The 16-bit words from `i` on, an odd last byte padded with zero. */
  function WordsFrom(p: seq<Byte>, i: nat, len: nat): seq<Word>
    requires len <= |p|
    decreases len - i
  {
    if i >= len then []
    else [if i + 1 < len then Get16(p, i) else p[i] as int * 256] + WordsFrom(p, i + 2, len)
  }

  /** Pseudo-header and payload as words: addresses and payload are contiguous from offset 8. */
  function Words(p: seq<Byte>, len: nat): seq<Word>
    requires 8 <= len <= |p|
  {
    [Get16(p, 4), p[6]] + WordsFrom(p, 8, len)
  }

  function OnesSum(a: Word, ws: seq<Word>): Word
    decreases |ws|
  {
    if ws == [] then a else OnesSum(OnesAdd(a, ws[0]), ws[1..])
  }

  function Total(ws: seq<Word>): nat
    decreases |ws|
  {
    if ws == [] then 0 else ws[0] + Total(ws[1..])
  }

  /** Deferred folding computes the end-around-carry sum. */
  lemma {:induction false} FoldIsOnesSum(a: Word, ws: seq<Word>)
    ensures Fold(a + Total(ws)) == OnesSum(a, ws)
    decreases |ws|
  {
    if ws != [] {
      var b, t := OnesAdd(a, ws[0]), Total(ws[1..]);
      FoldIsOnesSum(b, ws[1..]);
      FoldResidue(a + Total(ws));
      FoldResidue(b + t);
      if a + ws[0] > 0xffff {
        ModShift(b + t, 1);
      }
    }
  }

  lemma {:induction false} SumOfWords(p: seq<Byte>, i: nat, len: nat)
    requires len <= |p| && i % 2 == 0
    ensures SumFrom(p, i, len) == Total(WordsFrom(p, i, len))
    decreases len - i
  {
    if i < len {
      SumOfWords(p, i + 2, len);
      assert WordsFrom(p, i, len)[1..] == WordsFrom(p, i + 2, len);
      assert SumFrom(p, i + 1, len) == if i + 1 < len then p[i + 1] + SumFrom(p, i + 2, len) else 0;
    }
  }

  /** make_cksum computes the one's complement sum of the pseudo-header and the payload, for even
      and for odd lengths. */
  lemma CksumIsOnesSum(p: seq<Byte>, len: nat)
    requires 8 <= len <= |p|
    ensures Fold(Sum(p, len)) == OnesSum(0, Words(p, len))
  {
    SumOfWords(p, 8, len);
    var ws := Words(p, len);
    assert ws[1..][1..] == WordsFrom(p, 8, len);
    assert Total(ws) == Sum(p, len);
    FoldIsOnesSum(0, ws);
  }

  /** The int of the source does not overflow up to 65000 bytes. */
  lemma {:induction false} SumFits(p: seq<Byte>, i: nat, len: nat)
    requires len <= |p| && i % 2 == 0 && i <= len
    ensures SumFrom(p, i, len) <= 65535 * ((len - i + 1) / 2)
    decreases len - i
  {
    if i + 1 < len {
      SumFits(p, i + 2, len);
    }
  }

  lemma NoOverflow(p: seq<Byte>, len: nat)
    requires 8 <= len <= |p| && len <= 65000
    ensures Sum(p, len) < 0x8000_0000
  {
    SumFits(p, 8, len);
  }

  // ----- Filling in the field -----

  /** `p` with the complement of `c` stored at `off`, as PUT_16 (p + off, ~c) does. */
  function Filled(p: seq<Byte>, off: nat, c: int): seq<Byte>
    requires off + 2 <= |p|
  {
    p[..off] + Put16(-c - 1) + p[off + 2..]
  }

  lemma ComplementWord(c: int)
    requires 0 <= c <= 0xffff
    ensures Get16(Put16(-c - 1), 0) == 0xffff - c
  {
  }

  /** Replacing the word at an even offset changes the sum by the difference. */
  lemma {:induction false} SumReplaced(p: seq<Byte>, q: seq<Byte>, i: nat, len: nat, off: nat)
    requires len <= |p| == |q| && off % 2 == 0 && i % 2 == 0 && i <= off && off + 2 <= len
    requires forall k :: 0 <= k < |p| && k != off && k != off + 1 ==> p[k] == q[k]
    ensures SumFrom(q, i, len) - SumFrom(p, i, len) == Get16(q, off) - Get16(p, off)
    decreases len - i
  {
    if i == off {
      SameSum(p, q, i + 2, len);
      assert SumFrom(p, i, len) == Get16(p, i) + SumFrom(p, i + 2, len);
      assert SumFrom(q, i, len) == Get16(q, i) + SumFrom(q, i + 2, len);
    } else {
      SumReplaced(p, q, i + 2, len, off);
      assert SumFrom(p, i, len) == Get16(p, i) + SumFrom(p, i + 2, len);
      assert SumFrom(q, i, len) == Get16(q, i) + SumFrom(q, i + 2, len);
    }
  }

  lemma {:induction false} SameSum(p: seq<Byte>, q: seq<Byte>, i: nat, len: nat)
    requires len <= |p| == |q| && forall k :: i <= k < len ==> p[k] == q[k]
    ensures SumFrom(p, i, len) == SumFrom(q, i, len)
    decreases len - i
  {
    if i < len {
      SameSum(p, q, i + 1, len);
    }
  }

  /** A packet whose checksum field was zero and was then filled with the complement sums to
      0xffff: for every packet, even or odd length, and every even field offset. */
  lemma FilledVerifies(p: seq<Byte>, len: nat, off: nat)
    requires 8 <= len <= |p| && 8 <= off && off % 2 == 0 && off + 2 <= len
    requires p[off] == 0 && p[off + 1] == 0
    ensures var q := Filled(p, off, Fold(Sum(p, len))); |q| == |p| && Fold(Sum(q, len)) == 0xffff
  {
    var s := Sum(p, len);
    FoldResidue(s);
    var c: int := Fold(s);
    var q := Filled(p, off, c);
    ComplementWord(c);
    assert q[off] == Put16(-c - 1)[0] && q[off + 1] == Put16(-c - 1)[1];
    assert Get16(q, off) == 0xffff - c;
    SumReplaced(p, q, 8, len, off);
    assert Sum(q, len) == s + (0xffff - c);
    FoldResidue(Sum(q, len));
    Cancels(s, c);
  }

  lemma Cancels(s: nat, c: Word)
    requires c == if s == 0 then 0 else if s % 65535 == 0 then 65535 else s % 65535
    ensures (s + 0xffff - c) % 65535 == 0 && s + 0xffff - c > 0
  {
  }

  /** The field is filled with zero exactly if the sum is a positive multiple of 0xffff. In a UDP
      header zero means "no checksum" and is not allowed over IPv6; the source does not replace it
      by 0xffff. */
  lemma ZeroField(p: seq<Byte>, len: nat)
    requires 8 <= len <= |p|
    ensures Get16(Put16(-(Fold(Sum(p, len)) as int) - 1), 0) == 0 <==> Sum(p, len) > 0 && Sum(p, len) % 65535 == 0
  {
    FoldResidue(Sum(p, len));
    ComplementWord(Fold(Sum(p, len)));
  }

  /** What a single changed word at an even offset can hide: nothing but 0 for 0xffff and back. */
  lemma DetectsChangedWord(p: seq<Byte>, q: seq<Byte>, len: nat, off: nat)
    requires 8 <= len <= |p| == |q| && 8 <= off && off % 2 == 0 && off + 2 <= len
    requires forall k :: 0 <= k < |p| && k != off && k != off + 1 ==> p[k] == q[k]
    requires Fold(Sum(p, len)) == 0xffff && Sum(q, len) > 0
    ensures Fold(Sum(q, len)) == 0xffff <==>
      Get16(q, off) == Get16(p, off) || {Get16(q, off), Get16(p, off)} == {0, 0xffff}
  {
    FoldResidue(Sum(p, len));
    FoldResidue(Sum(q, len));
    SumReplaced(p, q, 8, len, off);
    var d := Get16(q, off) - Get16(p, off);
    assert Sum(q, len) == Sum(p, len) + d;
    ResidueOfChange(Sum(p, len), d);
  }

  lemma ResidueOfChange(s: int, d: int)
    requires s % 65535 == 0 && -65535 <= d <= 65535
    ensures (s + d) % 65535 == 0 <==> d == 0 || d == 65535 || d == -65535
  {
  }
}
