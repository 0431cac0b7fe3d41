/** What buffer.c promises, on an unbounded stream: the buffer holds the last bytes written, and
    byte `held[i]` has sequence number `end - |held| + i`. */
module StreamBuffer {
  import opened Basics

  datatype Buf = Buf(size: nat, end: int, held: seq<Byte>) {
    /** The oldest sequence number retained. */
    function Base(): int { end - |held| }

    function Left(): int { size - |held| }

    /** rb_avail; negative when `s` lies beyond the end. */
    function Avail(s: int): int { if end - s > |held| then 0 else end - s }

    function Accepted(data: seq<Byte>): seq<Byte> {
      if |data| <= Left() then data else if Left() < 0 then [] else data[..Left()]
    }

    function Write(data: seq<Byte>): Buf {
      Buf(size, end + |Accepted(data)|, held + Accepted(data))
    }

    function Advance(s: int): Buf
      requires Base() <= s
    {
      if end - s <= 0 then Buf(size, s, []) else Buf(size, end, held[s - Base()..])
    }

    function Read(s: int, max: int): seq<Byte> {
      if end - s <= 0 || |held| < end - s || max <= 0 then []
      else if end - s < max then held[s - Base()..] else held[s - Base()..s - Base() + max]
    }
  }

  function Least(a: int, b: int): int { if a < b then a else b }

  /** A write takes the longest prefix that fits; an advance forgets exactly what lies before it. */
  lemma WriteAdvanceIs(b: Buf, data: seq<Byte>, s: int)
    requires |b.held| <= b.size && b.Base() <= s <= b.end
    ensures b.Accepted(data) <= data && |b.Accepted(data)| == Least(|data|, b.size - |b.held|)
    ensures b.Write(data) == Buf(b.size, b.end + |b.Accepted(data)|, b.held + b.Accepted(data))
    ensures b.Advance(s) == Buf(b.size, b.end, b.held[s - b.Base()..]) && b.Advance(s).Base() == s
    ensures b.Left() == b.size - |b.held| && b.Avail(s) == b.end - s
  {
  }

  /** Outside what is retained nothing can be read: before it none is available, and beyond the end a negative
      number says how far. */
  lemma OutsideIs(b: Buf, s: int, max: int)
    requires s < b.Base() || s > b.end
    ensures b.Read(s, max) == [] && b.Avail(s) == if s > b.end then b.end - s else 0
  {
  }

  datatype Op = Write(data: seq<Byte>) | Advance(s: int)

  /** Every advance goes to a retained sequence number or to the end. */
  predicate InWindow(b: Buf, ops: seq<Op>)
    decreases |ops|
  {
    ops == [] ||
    match ops[0]
    case Write(data) => InWindow(b.Write(data), ops[1..])
    case Advance(s) => b.Base() <= s <= b.end && InWindow(b.Advance(s), ops[1..])
  }

  function Run(b: Buf, ops: seq<Op>): Buf
    requires InWindow(b, ops)
    decreases |ops|
  {
    if ops == [] then b else
    match ops[0]
    case Write(data) => Run(b.Write(data), ops[1..])
    case Advance(s) => Run(b.Advance(s), ops[1..])
  }

  /** All bytes that the buffer has taken in, from the first write on. */
  function Written(b: Buf, ops: seq<Op>): seq<Byte>
    requires InWindow(b, ops)
    decreases |ops|
  {
    if ops == [] then [] else
    match ops[0]
    case Write(data) => b.Accepted(data) + Written(b.Write(data), ops[1..])
    case Advance(s) => Written(b.Advance(s), ops[1..])
  }

  /** `b` is a window at the end of the stream `w` that starts at sequence number `start`. */
  ghost predicate WindowOf(b: Buf, start: int, w: seq<Byte>) {
    b.end == start + |w| && |b.held| <= b.size && |b.held| <= |w| && Suffix(b.held, w)
  }

  ghost predicate Suffix(s: seq<Byte>, w: seq<Byte>)
    decreases |w|
  {
    if |s| >= |w| then s == w else Suffix(s, w[1..])
  }

  lemma {:induction false} SuffixIs(s: seq<Byte>, w: seq<Byte>)
    requires |s| <= |w|
    ensures Suffix(s, w) <==> s == w[|w| - |s|..]
    decreases |w|
  {
    if |s| < |w| {
      SuffixIs(s, w[1..]);
      assert w[1..][|w| - 1 - |s|..] == w[|w| - |s|..];
    }
  }

  lemma {:induction false} RunWindow(b: Buf, start: int, w0: seq<Byte>, ops: seq<Op>)
    requires WindowOf(b, start, w0) && InWindow(b, ops)
    ensures WindowOf(Run(b, ops), start, w0 + Written(b, ops))
    decreases |ops|
  {
    if ops == [] {
      assert w0 + Written(b, ops) == w0;
    } else {
      match ops[0]
      case Write(data) =>
        WriteWindow(b, start, w0, data);
        RunWindow(b.Write(data), start, w0 + b.Accepted(data), ops[1..]);
        assert w0 + Written(b, ops) == w0 + b.Accepted(data) + Written(b.Write(data), ops[1..]);
      case Advance(s) =>
        AdvanceWindow(b, start, w0, s);
        RunWindow(b.Advance(s), start, w0, ops[1..]);
    }
  }

  lemma WriteWindow(b: Buf, start: int, w: seq<Byte>, data: seq<Byte>)
    requires WindowOf(b, start, w)
    ensures WindowOf(b.Write(data), start, w + b.Accepted(data))
  {
    var d := b.Accepted(data);
    SuffixIs(b.held, w);
    SuffixIs(b.held + d, w + d);
    assert (w + d)[|w| - |b.held|..] == b.held + d;
  }

  lemma AdvanceWindow(b: Buf, start: int, w: seq<Byte>, s: int)
    requires WindowOf(b, start, w) && b.Base() <= s <= b.end
    ensures WindowOf(b.Advance(s), start, w)
  {
    SuffixIs(b.held, w);
    SuffixIs(b.Advance(s).held, w);
    assert b.held[s - b.Base()..] == w[|w| - (b.end - s)..];
  }

  /** Reading anywhere in the retained window yields the stream at that place. */
  lemma ReadStream(b: Buf, start: int, w: seq<Byte>, s: int, max: nat)
    requires WindowOf(b, start, w) && b.Base() <= s <= b.end
    ensures |b.Read(s, max)| == Least(max, b.end - s)
    ensures b.Read(s, max) == w[s - start..s - start + Least(max, b.end - s)]
  {
    var j, k, n := |w| - |b.held|, s - b.Base(), Least(max, b.end - s);
    SuffixIs(b.held, w);
    assert j + k == s - start && b.Read(s, max) == b.held[k..k + n];
    TailSlice(w, b.held, j, k, n);
  }

  lemma TailSlice(w: seq<Byte>, tail: seq<Byte>, j: nat, k: nat, n: nat)
    requires j <= |w| && tail == w[j..] && k + n <= |tail|
    ensures tail[k..k + n] == w[j + k..j + k + n]
  {
  }

  /** After any run of writes and in-window advances on an empty buffer, a read returns exactly
      the written bytes at the sequence numbers asked for. */
  lemma ReadsWhatWasWritten(b0: Buf, ops: seq<Op>, b: Buf, w: seq<Byte>, s: int, max: nat)
    requires b0.held == [] && InWindow(b0, ops) && b == Run(b0, ops) && w == Written(b0, ops)
    requires b.Base() <= s <= b.end
    ensures WindowOf(b, b0.end, w)
    ensures b.Read(s, max) == w[s - b0.end..s - b0.end + Least(max, b.end - s)]
  {
    RunFromEmpty(b0, ops);
    ReadStream(b, b0.end, w, s, max);
  }

  lemma RunFromEmpty(b0: Buf, ops: seq<Op>)
    requires b0.held == [] && InWindow(b0, ops)
    ensures WindowOf(Run(b0, ops), b0.end, Written(b0, ops))
  {
    SuffixIs([], []);
    RunWindow(b0, b0.end, [], ops);
    assert [] + Written(b0, ops) == Written(b0, ops);
  }
}
