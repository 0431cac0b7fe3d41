/** buffer.c: a circular byte store addressed by 32-bit sequence numbers. */
module RingBuffer {
  import opened Basics
  import opened StreamBuffer

  const M := 0x1_0000_0000
  const HALF := 0x8000_0000

  /** A sequence number as the 32-bit word that stands for it. */
  function Word(s: int): int { s % M }

  /** Unsigned 32-bit subtraction whose result is taken as a signed int. */
  function Diff(a: int, b: int): int {
    var d := (a - b) % M;
    if d < HALF then d else d - M
  }

  /** Sequence numbers less than half the number space apart are compared correctly across wrap. */
  lemma DiffExact(x: int, y: int)
    requires -HALF <= x - y < HALF
    ensures Diff(Word(x), Word(y)) == x - y
  {
  }

  lemma WordAdd(x: int, n: int)
    ensures (Word(x) + n) % M == Word(x + n)
  {
  }

  /** The place of the byte `i` steps from the write position, `-n <= i < n`. */
  function Slot(i: int, n: int): int { if i < 0 then i + n else if i >= n then i - n else i }

  /** The last `used` bytes before write position `w` of the circular store `a`. */
  ghost function Ring(a: seq<Byte>, w: int, used: int): (r: seq<Byte>)
    requires 0 <= used <= |a| && 0 <= w < |a|
    ensures |r| == used
    ensures forall k :: 0 <= k < used ==> r[k] == a[Slot(w - used + k, |a|)]
  {
    seq(used, k requires 0 <= k < used => a[Slot(w - used + k, |a|)])
  }

  /** Storing `d` from the write position on, around the end, appends `d`. */
  lemma RingWrite(a: seq<Byte>, a': seq<Byte>, w: int, used: int, d: seq<Byte>)
    requires 0 <= used && used + |d| <= |a| == |a'| && 0 <= w < |a|
    requires forall i :: w <= i < w + |d| && i < |a| ==> a'[i] == d[i - w]
    requires forall i :: 0 <= i < w + |d| - |a| ==> a'[i] == d[i + |a| - w]
    requires forall i :: 0 <= i < |a| && !(w <= i < w + |d|) && !(i < w + |d| - |a|) ==> a'[i] == a[i]
    ensures Ring(a', Slot(w + |d|, |a|), used + |d|) == Ring(a, w, used) + d
  {
  }

  /** memcpy (dst + at, src + off, cnt) */
  method Copy(dst: array<Byte>, at: int, src: seq<Byte>, off: int, cnt: int)
    requires 0 <= at <= at + cnt <= dst.Length && 0 <= off <= off + cnt <= |src|
    modifies dst
    ensures forall i :: at <= i < at + cnt ==> dst[i] == src[i - at + off]
    ensures forall i :: 0 <= i < dst.Length && !(at <= i < at + cnt) ==> dst[i] == old(dst[i])
  {
    var j := 0;
    while j < cnt
      invariant 0 <= j <= cnt
      invariant forall i :: at <= i < at + j ==> dst[i] == src[i - at + off]
      invariant forall i :: 0 <= i < dst.Length && !(at <= i < at + j) ==> dst[i] == old(dst[i])
    {
      dst[at + j] := src[off + j];
      j := j + 1;
    }
  }

  lemma ReadIs(b: Buf, s: int, max: int)
    requires 0 < b.end - s <= |b.held| && max > 0
    ensures var k, n := |b.held| - (b.end - s), Least(max, b.end - s); b.Read(s, max) == b.held[k..k + n]
  {
  }

  ghost predicate Reaches(b: Buf, ops: seq<Op>, goal: Buf) { InWindow(b, ops) && Run(b, ops) == goal }

  class RingBuf {
    var p: array?<Byte>
    const size: int
    var wSeq: int
    var wPos: int
    var used: int
    ghost var end: int

    ghost predicate Valid()
      reads this, p
    {
      && 0 < size < HALF && 0 <= used <= size && 0 <= wPos < size && wSeq == Word(end)
      && (p != null ==> p.Length == size) && (p == null ==> used == 0)
    }

    ghost function View(): Buf
      requires Valid()
      reads this, p
    {
      Buf(size, end, if p == null then [] else Ring(p[..], wPos, used))
    }

    /** rb_new */
    constructor (s: int)
      requires 0 < s < HALF
      ensures Valid() && View() == Buf(s, 0, []) && p == null
    {
      size, p, wPos, wSeq, used, end := s, null, 0, 0, 0, 0;
    }

    /** rb_set; `s` is the sequence number that the word stands for. */
    method Set(word: int, ghost s: int)
      requires Valid() && word == Word(s)
      modifies this`wSeq, this`end
      ensures Valid() && View() == old(View()).(end := s)
    {
      wSeq, end := word, s;
    }

    /** rb_advance. It does what it should exactly if `s` is not below what is retained; below, it
        counts bytes as held that are gone. */
    method Advance(word: int, ghost s: int)
      requires Valid() && word == Word(s) && -HALF <= end - s < HALF
      modifies this
      ensures old(View()).Base() <= s ==> Valid() && View() == old(View()).Advance(s)
      ensures used <= old(used) <==> old(View()).Base() <= s
      ensures old(View()).Base() > s ==> used == old(end) - s
      ensures p == if used == 0 then null else old(p)
    {
      DiffExact(end, s);
      used := Diff(wSeq, word);
      if used <= 0 {
        used := 0;
        wSeq := word;
        end := s;
      }
      if used == 0 {
        p := null;
        wPos := 0;
      }
    }

    /** rb_left */
    method Left() returns (n: int)
      requires Valid()
      ensures n == View().Left()
    {
      n := size - used;
    }

    /** rb_avail */
    method Avail(word: int, ghost s: int) returns (n: int)
      requires Valid() && word == Word(s) && -HALF <= end - s < HALF
      ensures n == View().Avail(s)
    {
      DiffExact(end, s);
      n := Diff(wSeq, word);
      if n > used {
        n := 0;
      }
    }

    /** The copying part of rb_write: at most two pieces, the second from the start of the store. */
    method Store(data: seq<Byte>) returns (done: int)
      requires Valid() && p != null && |data| <= size - used
      modifies this`wPos, this`used, p
      ensures done == |data| && used == old(used) + |data| && wPos == Slot(old(wPos) + |data|, size)
      ensures forall i :: old(wPos) <= i < old(wPos) + |data| && i < size ==> p[i] == data[i - old(wPos)]
      ensures forall i :: 0 <= i < old(wPos) + |data| - size ==> p[i] == data[i + size - old(wPos)]
      ensures forall i :: 0 <= i < size && !(old(wPos) <= i < old(wPos) + |data|) && !(i < old(wPos) + |data| - size)
                ==> p[i] == old(p[i])
    {
      var len, cnt := |data|, size - wPos;
      done := 0;
      if len < cnt {
        cnt := len;
      }
      Copy(p, wPos, data, done, cnt);
      len := len - cnt;
      done := done + cnt;
      used := used + cnt;
      wPos := wPos + cnt;
      if wPos == size {
        if len > 0 {
          Copy(p, 0, data, done, len);
          done := done + len;
          used := used + len;
          wPos := len;
        } else {
          wPos := 0;
        }
      }
    }

    method StoreRing(data: seq<Byte>) returns (done: int)
      requires Valid() && p != null && |data| <= size - used
      modifies this`wPos, this`used, p
      ensures Valid() && done == |data| && used == old(used) + |data|
      ensures Ring(p[..], wPos, used) == old(Ring(p[..], wPos, used)) + data
    {
      ghost var a, w, u := p[..], wPos, used;
      done := Store(data);
      RingWrite(a, p[..], w, u, data);
    }

    /** rb_write once the store is there: takes in what fits. */
    method Append(data: seq<Byte>) returns (done: int)
      requires Valid() && p != null
      modifies this`wPos, this`used, this`wSeq, this`end, p
      ensures Valid() && View() == old(View()).Write(data)
      ensures done == |old(View()).Accepted(data)|
    {
      var d := if size - used < |data| then data[..size - used] else data;
      done := StoreRing(d);
      AdvanceEnd(done);
    }

    method AdvanceEnd(n: int)
      requires wSeq == Word(end)
      modifies this`wSeq, this`end
      ensures end == old(end) + n && wSeq == Word(end)
    {
      WordAdd(end, n);
      wSeq := (wSeq + n) % M;
      end := end + n;
    }

    /** rb_write */
    method Write(data: seq<Byte>) returns (done: int)
      requires Valid()
      modifies this, p
      ensures Valid() && View() == old(View()).Write(data)
      ensures done == |old(View()).Accepted(data)|
      ensures p != old(p) ==> fresh(p)
    {
      done := 0;
      if |data| == 0 {
        return;
      }
      if p == null {
        p := new Byte[size](_ => 0);
        wPos := 0;
        used := 0;
      }
      done := Append(data);
    }

    /** The copying part of rb_read: `max` bytes from `back` bytes before the write position. */
    method Fetch(data: array<Byte>, at: int, back0: int, max0: int) returns (done: int)
      requires Valid() && p != null && 0 < max0 <= back0 <= used
      requires 0 <= at && at + max0 <= data.Length && data != p
      modifies data
      ensures done == max0
      ensures forall i :: at <= i < at + max0 ==> data[i] == p[Slot(wPos - back0 + i - at, size)]
      ensures forall i :: 0 <= i < data.Length && !(at <= i < at + done) ==> data[i] == old(data[i])
    {
      var back, max := back0, max0;
      done := 0;
      if back > wPos {
        var cnt := back - wPos;
        var pos := size - cnt;
        if cnt > max {
          cnt := max;
        }
        Copy(data, at + done, p[..], pos, cnt);
        max := max - cnt;
        done := done + cnt;
        back := back - cnt;
      }
      if max > 0 {
        Copy(data, at + done, p[..], wPos - back, max);
        done := done + max;
      }
    }

    /** How far the number lies before the end. */
    method Distance(word: int, ghost s: int) returns (d: int)
      requires Valid() && word == Word(s) && -HALF <= end - s < HALF
      ensures d == end - s
    {
      DiffExact(end, s);
      d := Diff(wSeq, word);
    }

    method FetchRing(data: array<Byte>, at: int, back: int, n: int, ghost piece: seq<Byte>) returns (done: int)
      requires Valid() && p != null && 0 < n <= back <= used && |View().held| == used
      requires 0 <= at && at + n <= data.Length && data != p && piece == View().held[used - back..used - back + n]
      modifies data
      ensures Valid() && View() == old(View()) && done == n == |piece| && data[at..at + done] == piece
      ensures forall i :: 0 <= i < data.Length && !(at <= i < at + done) ==> data[i] == old(data[i])
    {
      done := Fetch(data, at, back, n);
      RingRead(p[..], wPos, used, wPos - back, data[at..at + done]);
    }

    /** rb_read: fills `data` from place `at` on. */
    method Read(word: int, ghost s: int, data: array<Byte>, at: int, max: int) returns (done: int)
      requires Valid() && word == Word(s) && -HALF <= end - s < HALF
      requires 0 <= max && 0 <= at && at + max <= data.Length && data != p
      modifies data
      ensures Valid() && View() == old(View())
      ensures done == |View().Read(s, max)|
      ensures data[at..at + done] == View().Read(s, max)
      ensures forall i :: 0 <= i < data.Length && !(at <= i < at + done) ==> data[i] == old(data[i])
    {
      done := 0;
      var back := Distance(word, s);
      if back == 0 || used < back || max == 0 {
        return;
      }
      var n := if back < max then back else max;
      if n > 0 {
        ghost var piece := View().Read(s, max);
        ReadIs(View(), s, max);
        done := FetchRing(data, at, back, n, piece);
      }
    }

    /** A run of writes and in-window advances takes the store where it takes the stream. */
    method Drive(ops: seq<Op>)
      requires Valid() && InWindow(View(), ops)
      modifies this, p
      ensures Valid() && View() == Run(old(View()), ops)
      ensures p != old(p) ==> p == null || fresh(p)
    {
      var i := 0;
      ghost var rest, goal := ops, Run(View(), ops);
      while i < |ops|
        invariant 0 <= i <= |ops| && rest == ops[i..] && Valid() && Reaches(View(), rest, goal)
        invariant p != old(p) ==> p == null || fresh(p)
        decreases |ops| - i
      {
        Apply(ops[i], rest, goal);
        rest := rest[1..];
        i := i + 1;
      }
      assert rest == [];
    }

    /** The first of the operations `rest`. */
    method Apply(op: Op, ghost rest: seq<Op>, ghost goal: Buf)
      requires Valid() && rest != [] && op == rest[0] && Reaches(View(), rest, goal)
      modifies this, p
      ensures Valid() && Reaches(View(), rest[1..], goal)
      ensures p != old(p) ==> p == null || fresh(p)
    {
      match op
      case Write(data) => var done := Write(data);
      case Advance(s) => Advance(Word(s), s);
    }
  }

  /** A buffer from its making on: whatever is written and given up in between, a read at a retained
      sequence number fills the array with exactly the bytes written there. */
  method Session(size: int, start: int, ops: seq<Op>, s: int, data: array<Byte>,
                 ghost b0: Buf, ghost b: Buf, ghost w: seq<Byte>) returns (done: int)
    requires 0 < size < HALF && b0 == Buf(size, start, []) && InWindow(b0, ops)
    requires b == Run(b0, ops) && w == Written(b0, ops) && b.Base() <= s <= b.end
    modifies data
    ensures done == Least(data.Length, b.end - s) && 0 <= s - start && s - start + done <= |w|
    ensures data[..done] == w[s - start..s - start + done]
  {
    RunFromEmpty(b0, ops);
    var r := Filled(size, start, ops, b0);
    ReadPiece(b, start, w, s, data.Length);
    done := ReadOut(r, s, data, b);
  }

  method Filled(size: int, start: int, ops: seq<Op>, ghost b0: Buf) returns (r: RingBuf)
    requires 0 < size < HALF && b0 == Buf(size, start, []) && InWindow(b0, ops)
    ensures fresh(r) && r.Valid() && r.View() == Run(b0, ops) && (r.p != null ==> fresh(r.p))
  {
    r := new RingBuf(size);
    r.Set(Word(start), start);
    r.Drive(ops);
  }

  method ReadOut(r: RingBuf, s: int, data: array<Byte>, ghost b: Buf) returns (done: int)
    requires r.Valid() && r.View() == b && b.Base() <= s <= b.end && data != r.p
    modifies data
    ensures done == |b.Read(s, data.Length)| <= data.Length && data[..done] == b.Read(s, data.Length)
  {
    done := r.Read(Word(s), s, data, 0, data.Length);
    assert data[..done] == data[0..0 + done];
  }

  lemma ReadPiece(b: Buf, start: int, w: seq<Byte>, s: int, max: nat)
    requires WindowOf(b, start, w) && b.Base() <= s <= b.end
    ensures var n := |b.Read(s, max)|;
      && n == Least(max, b.end - s) && 0 <= s - start && s - start + n <= |w|
      && b.Read(s, max) == w[s - start..s - start + n]
  {
    var n := Least(max, b.end - s);
    ReadStream(b, start, w, s, max);
    assert |b.Read(s, max)| == n && s - start + n <= |w|;
  }

  /** Bytes taken one after the other from place `start` of the store are a piece of the ring. */
  lemma RingRead(a: seq<Byte>, w: int, used: int, start: int, d: seq<Byte>)
    requires 0 <= used <= |a| && 0 <= w < |a| && w - used <= start && start + |d| <= w
    requires forall k :: 0 <= k < |d| ==> d[k] == a[Slot(start + k, |a|)]
    ensures d == Ring(a, w, used)[start - (w - used)..start - (w - used) + |d|]
  {
  }
}
