/** What each event does to a connection, told in the numbers of the control block and on the wire and
    not in the functions of `TcpModel`; for every state that a run reaches. */
module TcpEffects {
  import opened Basics
  import opened StreamBuffer
  import opened TcpModel
  import opened TcpRuns
  import opened TcpTheorems
  import Rtt

  function Most(a: int, b: int): int { if a > b then a else b }

  /** srtt + 4 sdev, kept between half a second and half a minute. */
  function Delay(e: Rtt.Est): int { Least(30000, Most(500, e.srtt + 4 * e.sdev)) }

  /** What the segment acknowledges, snd_una if nothing new. */
  function AckedUpTo(s: Snd, seg: Segment): int { if seg.ack then Most(s.una, seg.ackno) else s.una }

  /** The acknowledgement reaches the place the timer was set for. */
  predicate ReachesMark(s: Snd, seg: Segment) {
    s.timer.Retransmit? && AckedUpTo(s, seg) > s.una && AckedUpTo(s, seg) >= s.mark
  }

  /** The FIN is acknowledged: it has the number after the last byte. */
  predicate AcksFin(t: Tcb, seg: Segment) { seg.ack && seg.ackno == t.snd.buf.end + 1 }

  // ----- Acknowledgements -----

  lemma AckedEffect(s: Snd, st: State, armed: bool, w: seq<Byte>, seg: Segment, diff: int)
    requires SndInv(s, st, armed, w) && seg.ack && s.una < seg.ackno <= s.rttLimit
    ensures var s', a := Acked(s, st, seg.ackno, diff), seg.ackno;
      && s'.una == a && s'.nxt == Most(s.nxt, a) && s'.wnd == s.wnd && s'.max == s.max
      && s'.est == (if s.una <= s.rttMark < a then Rtt.Sample(s.est, diff) else s.est)
      && s'.cwnd == s.cwnd + (if ReachesMark(s, seg) then 1220 else 0)
      && (!ReachesMark(s, seg) ==> s'.timer == s.timer && s'.mark == s.mark)
      && (ReachesMark(s, seg) && s'.una < s'.nxt ==> s'.timer == Retransmit(Delay(s'.est)) && s'.mark == s'.nxt)
      && (ReachesMark(s, seg) && s'.una == s'.nxt ==> s'.timer.Off?)
  {
  }

  /** The ACK part on the sending side. */
  lemma AckEffect(t: Tcb, w: seq<Byte>, seg: Segment, diff: int)
    requires OutInv(t, w) && Honest(t, seg)
    ensures var s, s', a := t.snd, AckPart(t, seg, diff).0.snd, AckedUpTo(t.snd, seg);
      && s'.una == a && s'.nxt == Most(s.nxt, a) && s'.wnd == s.wnd && s'.max == s.max
      && s'.est == (if s.una <= s.rttMark < a then Rtt.Sample(s.est, diff) else s.est)
      && s'.cwnd == s.cwnd + (if ReachesMark(s, seg) then 1220 else 0)
  {
    if seg.ack && seg.ackno > t.snd.una {
      AckedEffect(t.snd, t.state, t.armed, w, seg, diff);
    }
  }

  lemma DataEffect(t: Tcb, seg: Segment)
    ensures var s, s' := t.snd, DataPart(t, seg).t.snd;
      && s'.una == s.una && s'.nxt == s.nxt && s'.est == s.est
      && (seg.seqno < t.rcv.nxt ==> s'.cwnd == s.cwnd && s'.max == s.max)
      && (seg.seqno >= t.rcv.nxt ==>
            s'.cwnd == Least(if s.cwnd == 0 then s.mss else s.cwnd, seg.wnd) && s'.max == s.una + s'.cwnd)
  {
  }

  /** What a segment does on the sending side: snd_una and snd_nxt follow the acknowledgement; a round
      trip that was being measured gives a sample as soon as its number is acknowledged, and nothing
      else does; the congestion window grows by one segment when the place the timer was set for is
      reached; and a window that counts caps it and sets snd_max. */
  lemma SegmentOnSender(seqno: int, wnd: nat, iss: int, events: seq<Event>, w: World, seg: Segment, diff: int)
    requires Runs(Start(seqno, wnd, iss), events, w) && !seg.rst && Honest(w.t, seg)
    ensures Ready(w.t)
    ensures var s, e := w.t.snd, Receive(w.t, seg, diff);
      var s', a, c := e.t.snd, AckedUpTo(s, seg), s.cwnd + if ReachesMark(s, seg) then 1220 else 0;
      e.alive ==>
        && s'.una == a && s'.nxt == Most(s.nxt, a)
        && s'.est == (if s.una <= s.rttMark < a then Rtt.Sample(s.est, diff) else s.est)
        && s'.wnd == (if OffersWindow(w.t, seg) then seg.wnd else s.wnd)
        && s'.cwnd == (if OffersWindow(w.t, seg) then Least(if c == 0 then 1220 else c, seg.wnd) else c)
        && s'.max == (if OffersWindow(w.t, seg) then a + s'.cwnd else s.max)
  {
    Reached(seqno, wnd, iss, events, w);
    AckInv(w.t, w.written, seg, diff);
    AckEffect(w.t, w.written, seg, diff);
    AckSparesRcv(w.t, seg, diff);
    StopsEarly(w.t, seg, diff);
    if Receive(w.t, seg, diff).alive {
      WindowRecorded(w.t, seg, diff);
    }
    var (t1, v) := AckPart(w.t, seg, diff);
    if v.Continue? {
      DataEffect(t1, seg);
    }
  }

  /** The retransmission timer after a segment: set anew, for the delay that the estimate gives, if the
      acknowledgement reached its mark and something is still outstanding; off if nothing is; left alone
      by every other segment. In TIME_WAIT the removal timer takes its place. */
  lemma SegmentOnTimer(seqno: int, wnd: nat, iss: int, events: seq<Event>, w: World, seg: Segment, diff: int)
    requires Runs(Start(seqno, wnd, iss), events, w) && !seg.rst && Honest(w.t, seg)
    ensures Ready(w.t)
    ensures var s, e := w.t.snd, Receive(w.t, seg, diff);
      var s' := e.t.snd;
      e.alive && !e.t.state.TimeWait? ==>
        if !ReachesMark(s, seg) then s'.timer == s.timer && s'.mark == s.mark
        else if s'.una < s'.nxt then s'.timer == Retransmit(Delay(s'.est)) && s'.mark == s'.nxt
        else s'.timer.Off?
  {
    Reached(seqno, wnd, iss, events, w);
    AckInv(w.t, w.written, seg, diff);
    AckTimerEffect(w.t, w.written, seg, diff);
    var (t1, v) := AckPart(w.t, seg, diff);
    if v.Continue? {
      DataEffect(t1, seg);
      DataTimerEffect(t1, seg);
    }
  }

  lemma AckTimerEffect(t: Tcb, w: seq<Byte>, seg: Segment, diff: int)
    requires OutInv(t, w) && Honest(t, seg)
    ensures var s, (t1, v) := t.snd, AckPart(t, seg, diff);
      var s' := t1.snd;
      !t1.state.TimeWait? ==>
        if !ReachesMark(s, seg) then s'.timer == s.timer && s'.mark == s.mark
        else if s'.una < s'.nxt then s'.timer == Retransmit(Delay(s'.est)) && s'.mark == s'.nxt
        else s'.timer.Off?
  {
    if seg.ack && seg.ackno > t.snd.una {
      AckedEffect(t.snd, t.state, t.armed, w, seg, diff);
    }
  }

  lemma DataTimerEffect(t: Tcb, seg: Segment)
    ensures var e := DataPart(t, seg); e.t.snd.mark == t.snd.mark
    ensures var e := DataPart(t, seg); !e.t.state.TimeWait? || t.state.TimeWait? ==> e.t.snd.timer == t.snd.timer
  {
  }

  // ----- States -----

  /** Data and FIN of a segment are taken in: it is not old, and the connection is being established
      by it, established, or waits for the peer's FIN. */
  predicate TakesIn(t: Tcb, seg: Segment) {
    && !seg.rst && seg.seqno >= t.rcv.nxt
    && ((t.state.SynRecvd? && seg.ack) || t.state.Established? || t.state.FinWait1? || t.state.FinWait2?)
  }

  /** The state after a segment, as section 3.3.2 of RFC 9293 draws it, CLOSE_WAIT being left at once. */
  function After(t: Tcb, seg: Segment): State {
    var fin := seg.fin && TakesIn(t, seg);
    match t.state
    case SynRecvd => if !seg.ack then SynRecvd else if fin then LastAck else Established
    case Established => if fin then LastAck else Established
    case FinWait1 =>
      if AcksFin(t, seg) then if fin then TimeWait else FinWait2
      else if fin then Closing else FinWait1
    case FinWait2 => if fin then TimeWait else FinWait2
    case Closing => if AcksFin(t, seg) then TimeWait else Closing
    case other => other
  }

  lemma AckState(t: Tcb, w: seq<Byte>, seg: Segment, diff: int)
    requires OutInv(t, w) && Honest(t, seg)
    ensures AckPart(t, seg, diff).1.Continue? ==> AckPart(t, seg, diff).0.state == Acknowledged(t, seg)
    ensures AckPart(t, seg, diff).1.Return? ==>
      AckPart(t, seg, diff).0.state == if AcksFin(t, seg) then TimeWait else Closing
  {
    if seg.ack && seg.ackno > t.snd.una {
      AckedEffect(t.snd, t.state, t.armed, w, seg, diff);
      if !t.state.Established? {
        AckedBuf(t.snd, t.state, seg.ackno, diff);
      }
    }
  }

  /** What an acknowledgement alone does to the state. */
  function Acknowledged(t: Tcb, seg: Segment): State {
    if t.state.SynRecvd? && seg.ack then Established
    else if t.state.FinWait1? && AcksFin(t, seg) then FinWait2 else t.state
  }

  lemma AckedBuf(s: Snd, st: State, ack: int, diff: int)
    requires s.buf.Base() <= ack && !st.Established?
    ensures Acked(s, st, ack, diff).buf == s.buf
  {
  }

  lemma DataState(t: Tcb, seg: Segment)
    requires !t.state.CloseWait?
    ensures var st, fin := DataPart(t, seg).t.state, seg.fin && seg.seqno >= t.rcv.nxt;
      match t.state
      case Established => st == if fin then LastAck else Established
      case FinWait1 => st == if fin then Closing else FinWait1
      case FinWait2 => st == if fin then TimeWait else FinWait2
      case other => st == other
  {
  }

  /** Every segment leads to the state that the diagram says. */
  lemma SegmentOnState(seqno: int, wnd: nat, iss: int, events: seq<Event>, w: World, seg: Segment, diff: int)
    requires Runs(Start(seqno, wnd, iss), events, w) && !seg.rst && Honest(w.t, seg)
    ensures Ready(w.t)
    ensures Receive(w.t, seg, diff).alive ==> Receive(w.t, seg, diff).t.state == After(w.t, seg)
  {
    Reached(seqno, wnd, iss, events, w);
    AckState(w.t, w.written, seg, diff);
    AckSparesRcv(w.t, seg, diff);
    StopsEarly(w.t, seg, diff);
    var (t1, v) := AckPart(w.t, seg, diff);
    if v.Continue? {
      DataState(t1, seg);
    }
    if w.t.state.Closing? && AcksFin(w.t, seg) {
      AcksFinInClosing(w.t, w.written, seg);
    }
  }

  lemma AcksFinInClosing(t: Tcb, w: seq<Byte>, seg: Segment)
    requires OutInv(t, w) && Honest(t, seg) && t.state.Closing? && AcksFin(t, seg)
    ensures AcksAll(t, seg)
  {
  }

  // ----- Data -----

  lemma DataIn(t: Tcb, w: seq<Byte>, seg: Segment)
    requires OutInv(t, w) && InBase(t)
    ensures var r, r' := t.rcv, DataPart(t, seg).t.rcv;
      var taken := seg.seqno >= r.nxt && (t.state.Established? || t.state.FinWait1? || t.state.FinWait2?);
      && r'.nxt == r.nxt + (if taken then |seg.payload| + if seg.fin then 1 else 0 else 0)
      && r'.readSeq == r.readSeq
      && r'.buf.held == r.buf.held +
           (if taken && t.attached then seg.payload[..Least(|seg.payload|, r.buf.size - |r.buf.held|)] else [])
  {
    assert t.rcv.buf.held + [] == t.rcv.buf.held;
    assert seg.payload[..|seg.payload|] == seg.payload;
  }

  /** What a segment does on the receiving side: if its data is taken in, rcv_nxt counts data and FIN,
      and before close the buffer gains what fits; otherwise nothing changes. */
  lemma SegmentOnReceiver(seqno: int, wnd: nat, iss: int, events: seq<Event>, w: World, seg: Segment, diff: int)
    requires Runs(Start(seqno, wnd, iss), events, w) && !seg.rst && Honest(w.t, seg)
    ensures Ready(w.t) && (w.t.attached ==> |w.t.rcv.buf.held| <= BUFSIZE)
    ensures var r, e := w.t.rcv, Receive(w.t, seg, diff);
      e.alive ==>
        && e.t.rcv.nxt == r.nxt + (if TakesIn(w.t, seg) then |seg.payload| + if seg.fin then 1 else 0 else 0)
        && e.t.rcv.readSeq == r.readSeq
        && e.t.rcv.buf.held == r.buf.held +
             (if TakesIn(w.t, seg) && w.t.attached
              then seg.payload[..Least(|seg.payload|, BUFSIZE - |r.buf.held|)] else [])
  {
    Reached(seqno, wnd, iss, events, w);
    ReceiverEffect(w.t, w.written, seg, diff);
  }

  lemma ReceiverEffect(t: Tcb, w: seq<Byte>, seg: Segment, diff: int)
    requires OutInv(t, w) && InBase(t) && !seg.rst && Honest(t, seg)
    ensures var r, e := t.rcv, Receive(t, seg, diff);
      e.alive ==>
        && e.t.rcv.nxt == r.nxt + (if TakesIn(t, seg) then |seg.payload| + if seg.fin then 1 else 0 else 0)
        && e.t.rcv.readSeq == r.readSeq
        && e.t.rcv.buf.held == r.buf.held +
             (if TakesIn(t, seg) && t.attached
              then seg.payload[..Least(|seg.payload|, r.buf.size - |r.buf.held|)] else [])
  {
    AckInv(t, w, seg, diff);
    AckState(t, w, seg, diff);
    AckSparesRcv(t, seg, diff);
    AckSparesCallbacks(t, seg, diff);
    StopsEarly(t, seg, diff);
    assert t.rcv.buf.held + [] == t.rcv.buf.held;
    var (t1, v) := AckPart(t, seg, diff);
    if v.Continue? {
      DataIn(t1, w, seg);
    }
  }

  /** tcp_read returns the oldest bytes, as many as asked for and there are, and offers the room; if
      there was none before, an acknowledgement is owed. */
  lemma ReadEffect(seqno: int, wnd: nat, iss: int, events: seq<Event>, w: World, len: nat)
    requires Runs(Start(seqno, wnd, iss), events, w) && w.t.attached
    ensures Ready(w.t)
    ensures var r, t', n := w.t.rcv, TcpRead(w.t, len), Least(len, |w.t.rcv.buf.held|);
      && ReadBytes(r, len) == r.buf.held[..n] && t'.rcv.buf.held == r.buf.held[n..]
      && t'.rcv.readSeq == r.readSeq + n && t'.rcv.nxt == r.nxt
      && t'.rcv.wnd == BUFSIZE - |t'.rcv.buf.held|
      && Owed(t'.rcv) == Owed(r) + (if |r.buf.held| == BUFSIZE then 1 else 0)
  {
    Reached(seqno, wnd, iss, events, w);
  }

  /** The window update: reading from a full buffer arms the send event, and running it tells the peer
      the new window. */
  lemma ReadReopens(seqno: int, wnd: nat, iss: int, events: seq<Event>, w: World, len: nat)
    requires Runs(Start(seqno, wnd, iss), events, w) && w.t.attached && Handshaken(w.t.state)
    requires |w.t.rcv.buf.held| == BUFSIZE && len > 0
    ensures Ready(w.t)
    ensures var t := TcpRead(w.t, len);
      t.armed && t.rcv.wnd > 0 && exists seg :: SendReady(t).sent == [seg] && Current(seg, t.rcv)
  {
    StartInv(seqno, wnd, iss);
    Reached(seqno, wnd, iss, events, w);
    RunOwed(Start(seqno, wnd, iss), events, w);
    ReadEffect(seqno, wnd, iss, events, w, len);
    assert Current(SendReady(TcpRead(w.t, len)).sent[0], TcpRead(w.t, len).rcv);
  }

  /** If the last segment told the peer of no room, and there is room now, an acknowledgement is owed. */
  ghost predicate UpdateOwed(w: World) {
    w.t.attached && w.sent != [] && w.sent[|w.sent| - 1].wnd == 0 && w.t.rcv.wnd > 0 ==> Owed(w.t.rcv) > 0
  }

  lemma ReceiveRoom(t: Tcb, w: seq<Byte>, seg: Segment, diff: int)
    requires OutInv(t, w) && InBase(t) && !seg.rst && Honest(t, seg)
    ensures var e := Receive(t, seg, diff);
      e.alive && e.t.attached ==> t.attached && e.t.rcv.wnd <= t.rcv.wnd && Owed(e.t.rcv) >= Owed(t.rcv)
  {
    AckInv(t, w, seg, diff);
    AckSparesRcv(t, seg, diff);
    AckSparesCallbacks(t, seg, diff);
    DataRoom(AckPart(t, seg, diff).0, seg);
  }

  lemma DataRoom(t: Tcb, seg: Segment)
    ensures var t' := DataPart(t, seg).t;
      && Owed(t'.rcv) >= Owed(t.rcv) && (t'.attached ==> t.attached)
      && (t'.attached && InBase(t) ==> t'.rcv.wnd <= t.rcv.wnd)
  {
  }

  lemma StepUpdate(w: World, e: Event)
    requires WorldInv(w) && OwedInv(w.t) && UpdateOwed(w) && Enabled(w.t, e) && Do(w.t, e).alive
    ensures UpdateOwed(Next(w, e))
  {
    assert w.sent + [] == w.sent;
    match e
    case Arrives(seg, diff) =>
      ReceiveSilent(w.t, seg, diff);
      ReceiveRoom(w.t, w.written, seg, diff);
    case AppRead(len) =>
      assert w.t.rcv.wnd == 0 ==> Handshaken(w.t.state) && w.t.snd.nxt > w.t.snd.iss;
      ReadRoom(w.t, len);
    case SendEvent => SendRoom(w);
    case _ =>
  }

  lemma SendRoom(w: World)
    requires WorldInv(w) && UpdateOwed(w) && w.t.armed
    ensures UpdateOwed(Next(w, SendEvent))
  {
    var e, w' := SendReady(w.t), Next(w, SendEvent);
    assert w.sent + [] == w.sent;
    if e.sent != [] {
      assert e.sent == [e.sent[0]] && w'.sent[|w'.sent| - 1] == e.sent[0];
      assert e.sent[0].wnd == w.t.rcv.wnd == w'.t.rcv.wnd;
    }
  }

  lemma ReadRoom(t: Tcb, len: nat)
    requires InBase(t) && t.attached && (t.rcv.wnd == 0 ==> t.rcv.lastAcked <= t.rcv.nxt)
    ensures Owed(TcpRead(t, len).rcv) >= Owed(t.rcv)
    ensures t.rcv.wnd == 0 ==> Owed(TcpRead(t, len).rcv) > 0
  {
  }

  lemma {:induction false} RunUpdate(w: World, events: seq<Event>, w': World)
    requires WorldInv(w) && OwedInv(w.t) && UpdateOwed(w) && Runs(w, events, w')
    ensures UpdateOwed(w')
    decreases |events|
  {
    if events != [] {
      StepInv(w, events[0]);
      StepOwed(w, events[0]);
      StepUpdate(w, events[0]);
      RunUpdate(Next(w, events[0]), events[1..], w');
    }
  }

  /** No lost window update: in every run, if the last segment sent offered the peer nothing and there is
      room now, the send event is armed, and running it offers the room. */
  lemma NoLostWindowUpdate(seqno: int, wnd: nat, iss: int, events: seq<Event>, w: World)
    requires Runs(Start(seqno, wnd, iss), events, w) && w.t.attached && Handshaken(w.t.state)
    requires w.sent != [] && w.sent[|w.sent| - 1].wnd == 0 && w.t.rcv.wnd > 0
    ensures w.t.armed && exists seg :: SendReady(w.t).sent == [seg] && Current(seg, w.t.rcv)
  {
    StartInv(seqno, wnd, iss);
    RunUpdate(Start(seqno, wnd, iss), events, w);
    NoLostAck(seqno, wnd, iss, events, w);
  }
}
