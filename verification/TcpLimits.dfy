/** What the endpoint does not promise: for each case the exact condition and a run that meets it. */
module TcpLimits {
  import opened Basics
  import opened StreamBuffer
  import opened TcpModel
  import opened TcpRuns
  import opened TcpTheorems

  // ----- The exact conditions -----

  /** A segment that does not fit the offered window is what breaks the receiving side: the bytes
      that do not fit are acknowledged and lost. */
  lemma OverrunLosesData(t: Tcb, seg: Segment, accepted: seq<Byte>, read: seq<Byte>)
    requires InBase(t) && InInv(t, accepted, read) && t.attached && t.state.Established? && !seg.fin
    ensures InInv(RecvData(t, seg), accepted + seg.payload, read) <==> |seg.payload| <= t.rcv.wnd
  {
  }

  /** In every established connection the data of a segment is counted at its own sequence numbers
      exactly if the segment starts at rcv_nxt; beyond it, it is taken as if it started there. */
  lemma GapIsClosed(seqno: int, wnd: nat, iss: int, events: seq<Event>, w: World, seg: Segment, diff: int)
    requires Runs(Start(seqno, wnd, iss), events, w) && w.t.state.Established?
    requires !seg.rst && Honest(w.t, seg) && !seg.fin && seg.payload != [] && seg.seqno >= w.t.rcv.nxt
    ensures Ready(w.t) && Taken(w.t, seg, diff) == seg.payload
    ensures Receive(w.t, seg, diff).t.rcv.nxt == seg.seqno + |seg.payload| <==> seg.seqno == w.t.rcv.nxt
  {
    Reached(seqno, wnd, iss, events, w);
    AckInv(w.t, w.written, seg, diff);
    AckSparesRcv(w.t, seg, diff);
    var (t1, v) := AckPart(w.t, seg, diff);
    assert v.Continue? && t1.state.Established?;
    assert DataPart(t1, seg).t.rcv.nxt == t1.rcv.nxt + |seg.payload|;
  }

  /** Closing moves the right edge of the offered window left exactly if more than 1000 bytes were
      on offer; a FIN of the peer closes too, once its own data is counted. */
  lemma CloseMovesEdge(t: Tcb, fin: Segment)
    requires t.state.Established? && InBase(t) && fin.fin
    ensures RightEdge(TcpClose(t, false).t.rcv) < RightEdge(t.rcv) <==> t.rcv.wnd > 1000
    ensures RightEdge(ByState(t, fin).t.rcv) < RightEdge(t.rcv) <==> t.rcv.wnd > |fin.payload| + 1001
  {
  }

  /** In LAST_ACK a connection is deleted exactly by an ACK that leaves snd_una at snd_nxt, and
      everything has been acknowledged then exactly if that ACK covers the FIN. */
  lemma LastAckExit(t: Tcb, w: seq<Byte>, seg: Segment, diff: int)
    requires OutInv(t, w) && t.state.LastAck? && Honest(t, seg) && !seg.rst
    ensures !Receive(t, seg, diff).alive <==> AcksAll(t, seg)
    ensures !Receive(t, seg, diff).alive ==>
      (Receive(t, seg, diff).t.snd.una == t.snd.iss + 1 + |w| + 1 <==> seg.ackno == t.snd.buf.end + 1)
  {
  }

  /** A lost SYN-ACK is not sent again: once it is out, only an ACK of the peer makes the endpoint
      send anything, however often the SYN is repeated. */
  lemma SynAckNotResent(seqno: int, wnd: nat, iss: int, events: seq<Event>, w: World, more: seq<Event>, w': World)
    requires Runs(Start(seqno, wnd, iss), events, w) && w.t.state.SynRecvd? && w.t.snd.nxt > iss
    requires Runs(w, more, w') && forall i :: 0 <= i < |more| && more[i].Arrives? ==> !more[i].seg.ack
    ensures w'.sent == w.sent && w'.t.state.SynRecvd?
  {
    Reached(seqno, wnd, iss, events, w);
    SilentInSynRecvd(w, more, w');
  }

  lemma SilentStep(w: World, e: Event)
    requires WorldInv(w) && w.t.state.SynRecvd? && w.t.snd.nxt > w.t.snd.iss
    requires Enabled(w.t, e) && Do(w.t, e).alive && (e.Arrives? ==> !e.seg.ack)
    ensures var w' := Next(w, e); w'.sent == w.sent && w'.t.state.SynRecvd? && w'.t.snd == w.t.snd
  {
    assert w.sent + [] == w.sent;
    if e.Arrives? {
      assert Receive(w.t, e.seg, e.diff) == Effect(true, w.t, [], []);
    }
  }

  lemma {:induction false} SilentInSynRecvd(w: World, events: seq<Event>, w': World)
    requires WorldInv(w) && w.t.state.SynRecvd? && w.t.snd.nxt > w.t.snd.iss
    requires Runs(w, events, w') && forall i :: 0 <= i < |events| && events[i].Arrives? ==> !events[i].seg.ack
    ensures w'.sent == w.sent && w'.t.state.SynRecvd?
    decreases |events|
  {
    if events != [] {
      StepInv(w, events[0]);
      SilentStep(w, events[0]);
      SilentInSynRecvd(Next(w, events[0]), events[1..], w');
    }
  }

  /** In CLOSING with the FIN never sent: nothing outstanding, the window shut, nothing armed. Data
      may be left to send as well. */
  predicate Stalled(t: Tcb) {
    && t.state.Closing? && !t.attached && !t.armed && t.snd.timer.Off? && WindowSize(t.snd) <= 0
    && t.snd.una == t.snd.nxt && t.snd.rttLimit <= t.snd.buf.end
  }

  /** A connection in CLOSING that has not sent its FIN is stalled exactly if neither the send event
      nor the timer is armed. */
  lemma StalledExactlyIf(seqno: int, wnd: nat, iss: int, events: seq<Event>, w: World)
    requires Runs(Start(seqno, wnd, iss), events, w) && w.t.state.Closing? && w.t.snd.rttLimit <= w.t.snd.buf.end
    ensures Stalled(w.t) <==> !w.t.armed && w.t.snd.timer.Off?
  {
    Reached(seqno, wnd, iss, events, w);
  }

  lemma StalledStep(t: Tcb, w: seq<Byte>, e: Event)
    requires OutInv(t, w) && Stalled(t) && Enabled(t, e) && Do(t, e).alive && (e.Arrives? ==> e.seg.ack)
    ensures Stalled(Do(t, e).t) && Do(t, e).sent == []
  {
    assert e.Arrives? && !e.seg.rst;
    StopsEarly(t, e.seg, e.diff);
    if e.seg.ackno > t.snd.una {
      var s := Acked(t.snd, Closing, e.seg.ackno, e.diff);
      assert s == t.snd.(una := e.seg.ackno, nxt := e.seg.ackno, est := s.est);
    }
  }

  /** A stalled connection stays stalled and sends nothing, whatever windows the peer offers: the
      handler returns before it takes them. */
  lemma {:induction false} StalledForever(w: World, events: seq<Event>, w': World)
    requires WorldInv(w) && Stalled(w.t) && Runs(w, events, w')
    requires forall i :: 0 <= i < |events| && events[i].Arrives? ==> events[i].seg.ack
    ensures Stalled(w'.t) && w'.sent == w.sent
    decreases |events|
  {
    if events != [] {
      StepInv(w, events[0]);
      StalledStep(w.t, w.written, events[0]);
      assert Next(w, events[0]).sent == w.sent + [] == w.sent;
      StalledForever(Next(w, events[0]), events[1..], w');
    }
  }

  /** An established connection that waits for the peer to open its window. */
  predicate AwaitsWindow(t: Tcb) {
    t.state.Established? && !t.armed && t.snd.timer.Off? && WindowSize(t.snd) <= 0
  }

  /** There are no window probes: until a segment arrives, or the application reads or closes, such a
      connection sends nothing, whatever is written and however long it waits. */
  lemma {:induction false} NoWindowProbe(w: World, events: seq<Event>, w': World)
    requires AwaitsWindow(w.t) && Runs(w, events, w')
    requires forall i :: 0 <= i < |events| ==> !events[i].Arrives? && !events[i].AppRead? && !events[i].AppClose?
    ensures AwaitsWindow(w'.t) && w'.sent == w.sent
    decreases |events|
  {
    if events != [] {
      var e := events[0];
      assert e.AppWrite?;
      assert Next(w, e).t == TcpSend(w.t, e.data) && Next(w, e).sent == w.sent + [] == w.sent;
      NoWindowProbe(Next(w, e), events[1..], w');
    }
  }

  // ----- Runs that meet them -----

  /** A run leads from `w0` to `w`, in which all data of the peer is its stream `p` in its place. */
  ghost predicate Reachable(w0: World, p: seq<Byte>, w: World) {
    exists events :: Runs(w0, events, w) && AllGenuine(events, w0.t.rcv.irs, p)
  }

  ghost predicate AllGenuine(events: seq<Event>, irs: int, p: seq<Byte>) {
    forall i :: 0 <= i < |events| && events[i].Arrives? ==> Genuine(events[i].seg, irs, p)
  }

  lemma {:induction false} RunsThen(w: World, first: seq<Event>, w1: World, e: Event)
    requires Runs(w, first, w1) && Ready(w1.t) && Enabled(w1.t, e) && Do(w1.t, e).alive
    ensures Runs(w, first + [e], Next(w1, e))
    decreases |first|
  {
    if first == [] {
      assert Runs(Next(w1, e), [], Next(w1, e));
      assert ([] + [e])[0] == e && ([] + [e])[1..] == [];
    } else {
      RunsThen(Next(w, first[0]), first[1..], w1, e);
      assert (first + [e])[1..] == first[1..] + [e];
    }
  }

  lemma ReachNext(w0: World, p: seq<Byte>, w: World, e: Event) returns (w': World)
    requires Reachable(w0, p, w) && WorldInv(w) && Enabled(w.t, e) && Do(w.t, e).alive
    requires e.Arrives? ==> Genuine(e.seg, w0.t.rcv.irs, p)
    ensures Reachable(w0, p, w') && WorldInv(w') && w'.t == Do(w.t, e).t
    ensures w'.read == w.read + if e.AppRead? then ReadBytes(w.t.rcv, e.len) else []
  {
    var events :| Runs(w0, events, w) && AllGenuine(events, w0.t.rcv.irs, p);
    RunsThen(w0, events, w, e);
    assert AllGenuine(events + [e], w0.t.rcv.irs, p);
    StepInv(w, e);
    w' := Next(w, e);
  }

  /** An idle connection with an open window and nothing written or received. */
  predicate Idle(t: Tcb) {
    && t.state.Established? && t.attached && !t.armed && t.snd.una == t.snd.nxt == t.snd.rttLimit == t.snd.buf.end
    && t.snd.una == t.snd.iss + 1 && t.snd.buf.held == [] && t.snd.buf.size > 0
    && t.snd.timer.Off? && WindowSize(t.snd) >= 2 && t.snd.mss == MSS
    && t.rcv.readSeq == t.rcv.nxt == t.rcv.irs + 1 && t.rcv.buf == Buf(BUFSIZE, t.rcv.nxt, []) && t.rcv.wnd == BUFSIZE
  }

  function PlainAck(seqno: int, ackno: int, wnd: int, fin: bool): Segment {
    Segment(seqno, ackno, wnd, false, fin, false, false, true, [])
  }

  /** The control block through a handshake. */
  lemma HandshakeTcb(t0: Tcb, seqno: int, wnd: nat, iss: int, seg: Segment)
    requires t0 == Open(seqno, wnd, iss) && wnd >= 2 && seg == PlainAck(seqno + 1, iss + 1, wnd, false)
    ensures var t1 := TcpAccept(t0); var t2 := SendReady(t1).t;
      && Enabled(t0, AppAccept) && Enabled(t1, SendEvent) && Enabled(t2, Arrives(seg, 0)) && Ready(t2)
      && SendReady(t1).alive && Receive(t2, seg, 0).alive
      && var t3 := Receive(t2, seg, 0).t; Idle(t3) && t3.snd.iss == iss && t3.rcv.irs == seqno
  {
  }

  lemma HandshakeIdle(seqno: int, wnd: nat, iss: int, p: seq<Byte>) returns (w: World)
    requires wnd >= 2
    ensures Reachable(Start(seqno, wnd, iss), p, w) && WorldInv(w) && Idle(w.t)
    ensures w.t.snd.iss == iss && w.t.rcv.irs == seqno && w.read == []
  {
    var w0, seg := Start(seqno, wnd, iss), PlainAck(seqno + 1, iss + 1, wnd, false);
    HandshakeTcb(w0.t, seqno, wnd, iss, seg);
    StartInv(seqno, wnd, iss);
    assert Runs(w0, [], w0) && AllGenuine([], seqno, p);
    w := ReachNext(w0, p, w0, AppAccept);
    w := ReachNext(w0, p, w, SendEvent);
    w := ReachNext(w0, p, w, Arrives(seg, 0));
  }

  /** Closing an idle connection takes back part of the window that was offered. */
  lemma CloseShrinksWindow(seqno: int, wnd: nat, iss: int) returns (w: World)
    requires wnd >= 2
    ensures Reachable(Start(seqno, wnd, iss), [], w) && Ready(w.t) && Enabled(w.t, AppClose(false))
    ensures Do(w.t, AppClose(false)).alive
    ensures RightEdge(Next(w, AppClose(false)).t.rcv) < RightEdge(w.t.rcv)
  {
    w := HandshakeIdle(seqno, wnd, iss, []);
  }

  lemma FinGoesAlone(t: Tcb)
    requires Idle(t)
    ensures var t1 := TcpClose(t, false).t; var t2 := SendReady(t1).t;
      && TcpClose(t, false).alive && t1.armed && SendReady(t1).alive
      && t2.state.FinWait1? && t2.snd.una < t2.snd.nxt && t2.snd.timer.Off? && !t2.armed
  {
  }

  /** A FIN that goes out on its own is neither timed nor marked for sending again. */
  lemma FinAloneUntimed(seqno: int, wnd: nat, iss: int) returns (w: World)
    requires wnd >= 2
    ensures Reachable(Start(seqno, wnd, iss), [], w)
    ensures w.t.state.FinWait1? && w.t.snd.una < w.t.snd.nxt && w.t.snd.timer.Off? && !w.t.armed
  {
    var w0 := Start(seqno, wnd, iss);
    w := HandshakeIdle(seqno, wnd, iss, []);
    FinGoesAlone(w.t);
    w := ReachNext(w0, [], w, AppClose(false));
    w := ReachNext(w0, [], w, SendEvent);
  }

  lemma WrittenThenClosed(t: Tcb, b: Byte, fin: Segment)
    requires Idle(t) && fin == PlainAck(t.rcv.nxt, t.snd.una, fin.wnd, true) && fin.wnd >= 0
    ensures var t1 := TcpSend(t, [b]); var e := Receive(t1, fin, 0);
      && Honest(t1, fin)
      && e.alive && e.t.state.LastAck? && e.t.snd.una == e.t.snd.nxt == e.t.snd.rttLimit == t.snd.una
      && e.t.snd.buf.end == t.snd.una + 1
      && e.t.snd.iss == t.snd.iss && !e.t.attached
  {
  }

  /** A connection can be deleted from LAST_ACK with data unsent: the peer closes while a byte
      waits, and its next ACK, of nothing new, finds snd_una at snd_nxt. */
  lemma LastAckLosesData(seqno: int, wnd: nat, iss: int) returns (w: World, seg: Segment)
    requires wnd >= 2
    ensures Reachable(Start(seqno, wnd, iss), [], w) && Ready(w.t) && Honest(w.t, seg) && !seg.rst
    ensures w.t.state.LastAck? && !Receive(w.t, seg, 0).alive
    ensures w.t.snd.una == w.t.snd.nxt == iss + 1 < w.t.snd.buf.end
  {
    w := HandshakeIdle(seqno, wnd, iss, []);
    seg := PlainAck(seqno + 2, iss + 1, wnd, false);
    w := CloseAfterWrite(Start(seqno, wnd, iss), w, PlainAck(seqno + 1, iss + 1, wnd, true));
    LastAckExit(w.t, w.written, seg, 0);
  }

  lemma CloseAfterWrite(w0: World, w1: World, fin: Segment) returns (w: World)
    requires Reachable(w0, [], w1) && WorldInv(w1) && Idle(w1.t)
    requires fin == PlainAck(w1.t.rcv.nxt, w1.t.snd.una, fin.wnd, true) && fin.wnd >= 0
    ensures Reachable(w0, [], w) && WorldInv(w) && w.t.state.LastAck? && !w.t.attached
    ensures var s, s1 := w.t.snd, w1.t.snd;
      s.una == s.nxt == s.rttLimit == s1.una && s.iss == s1.iss && s.buf.end == s.una + 1
  {
    WrittenThenClosed(w1.t, 7, fin);
    w := ReachNext(w0, [], w1, AppWrite([7]));
    w := ReachNext(w0, [], w, Arrives(fin, 0));
  }

  lemma GapTcb(t: Tcb, seg: Segment)
    requires Idle(t) && seg == PlainAck(t.rcv.nxt + 1, t.snd.una, 0, false).(payload := [2])
    ensures var e := Receive(t, seg, 0);
      && Honest(t, seg) && e.alive && e.t.attached && e.t.rcv.buf.Base() <= e.t.rcv.readSeq
      && ReadBytes(e.t.rcv, 1) == [2]
  {
    assert RecvData(NewWindow(t, 0), seg).rcv.buf.held == [2];
  }

  /** After a gap the application reads what the peer did not send there: its stream is 1, 2; the
      segment with the 2 arrives first; and 2 is what is read. */
  lemma GapMisleads(seqno: int, wnd: nat, iss: int) returns (w: World, p: seq<Byte>)
    requires wnd >= 2
    ensures Reachable(Start(seqno, wnd, iss), p, w) && !(w.read <= p)
  {
    p := [1, 2];
    w := HandshakeIdle(seqno, wnd, iss, p);
    var seg := PlainAck(seqno + 2, iss + 1, 0, false).(payload := [2]);
    assert Genuine(seg, seqno, p) by { assert p[1..2] == [2]; }
    w := ReadAfterGap(Start(seqno, wnd, iss), p, w, seg);
    assert w.read[0] != p[0];
  }

  lemma ReadAfterGap(w0: World, p: seq<Byte>, w1: World, seg: Segment) returns (w: World)
    requires Reachable(w0, p, w1) && WorldInv(w1) && Idle(w1.t) && w1.read == []
    requires seg == PlainAck(w1.t.rcv.nxt + 1, w1.t.snd.una, 0, false).(payload := [2])
    requires Genuine(seg, w0.t.rcv.irs, p)
    ensures Reachable(w0, p, w) && w.read == [2]
  {
    GapTcb(w1.t, seg);
    w := ReachNext(w0, p, w1, Arrives(seg, 0));
    w := ReachNext(w0, p, w, AppRead(1));
  }

  lemma OverrunTcb(t: Tcb, seg: Segment)
    requires Idle(t) && |seg.payload| == BUFSIZE + 1
    requires seg == PlainAck(t.rcv.nxt, t.snd.una, 0, false).(payload := seg.payload)
    ensures var e := Receive(t, seg, 0);
      && Honest(t, seg) && e.alive && e.t.attached
      && e.t.rcv.nxt == t.rcv.nxt + BUFSIZE + 1 && e.t.rcv.buf.end == t.rcv.nxt + BUFSIZE
  {
  }

  /** A peer that ignores the window loses a byte: it is counted, and so acknowledged, and not
      buffered. */
  lemma OverrunReached(seqno: int, wnd: nat, iss: int, p: seq<Byte>) returns (w: World)
    requires wnd >= 2 && |p| == BUFSIZE + 1
    ensures Reachable(Start(seqno, wnd, iss), p, w) && w.t.attached && w.read == []
    ensures w.t.rcv.nxt == seqno + 1 + |p| && w.t.rcv.buf.end < w.t.rcv.nxt
  {
    w := HandshakeIdle(seqno, wnd, iss, p);
    var seg := PlainAck(seqno + 1, iss + 1, 0, false).(payload := p);
    GenuineWhole(seg, seqno, p);
    w := ReachOverrun(Start(seqno, wnd, iss), p, w, seg);
  }

  /** The whole stream in one segment. */
  lemma GenuineWhole(seg: Segment, irs: int, p: seq<Byte>)
    requires seg.seqno == irs + 1 && seg.payload == p
    ensures Genuine(seg, irs, p)
  {
    assert p[0..|p|] == p;
  }

  lemma ReachOverrun(w0: World, p: seq<Byte>, w1: World, seg: Segment) returns (w: World)
    requires Reachable(w0, p, w1) && WorldInv(w1) && Idle(w1.t) && w1.read == [] && |seg.payload| == BUFSIZE + 1
    requires seg == PlainAck(w1.t.rcv.nxt, w1.t.snd.una, 0, false).(payload := seg.payload)
    requires Genuine(seg, w0.t.rcv.irs, p)
    ensures Reachable(w0, p, w) && w.t.attached && w.read == []
    ensures w.t.rcv.nxt == w1.t.rcv.nxt + |seg.payload| && w.t.rcv.buf.end < w.t.rcv.nxt
  {
    OverrunTcb(w1.t, seg);
    w := ReachNext(w0, p, w1, Arrives(seg, 0));
  }

  /** Nothing outstanding, no timer, and something not sent yet or nothing written. */
  predicate Quiet(t: Tcb) {
    && t.snd.una == t.snd.nxt && t.snd.iss < t.snd.una <= t.snd.rttLimit <= t.snd.buf.end && t.snd.timer.Off?
    && t.snd.buf.Base() <= t.snd.una
  }

  /** So, and the peer has shut its window. */
  predicate Shut(t: Tcb) { Quiet(t) && WindowSize(t.snd) <= 0 }

  lemma ShutTcb(t: Tcb, seg: Segment)
    requires Quiet(t) && t.state.Established? && t.attached && t.snd.cwnd >= 0
    requires seg == PlainAck(t.rcv.nxt, t.snd.una, 0, false)
    ensures var e := Receive(t, seg, 0);
      && Honest(t, seg) && e.alive && Shut(e.t) && e.t.state.Established? && e.t.attached
      && e.t.armed == t.armed && e.t.snd.buf == t.snd.buf && e.t.snd.nxt == t.snd.nxt
  {
  }

  lemma ShutSend(t: Tcb)
    requires Shut(t) && (t.state.FinWait1? || t.state.Closing?)
    ensures var e := SendReady(t);
      e.alive && e.t.snd == t.snd && e.t.state == t.state && !e.t.armed && e.t.attached == t.attached
  {
  }

  lemma ShutFin(t: Tcb, fin: Segment)
    requires Shut(t) && t.state.FinWait1? && !t.attached && t.snd.cwnd >= 0
    requires fin == PlainAck(t.rcv.nxt, t.snd.una, 0, true)
    ensures var e := Receive(t, fin, 0);
      && Honest(t, fin) && e.alive && Shut(e.t) && e.t.state.Closing? && e.t.armed && !e.t.attached
      && e.t.snd.buf == t.snd.buf && e.t.snd.nxt == t.snd.nxt
  {
  }

  /** From such a connection, the peer shuts its window. */
  lemma ReachShut(w0: World, w1: World) returns (w: World)
    requires Reachable(w0, [], w1) && WorldInv(w1) && Quiet(w1.t) && w1.t.state.Established? && w1.t.attached
    ensures Reachable(w0, [], w) && WorldInv(w) && Shut(w.t) && w.t.state.Established? && w.t.attached
    ensures w.t.armed == w1.t.armed && w.t.snd.buf == w1.t.snd.buf && w.t.snd.nxt == w1.t.snd.nxt
  {
    var seg := PlainAck(w1.t.rcv.nxt, w1.t.snd.una, 0, false);
    ShutTcb(w1.t, seg);
    w := ReachNext(w0, [], w1, Arrives(seg, 0));
  }

  /** Then both sides close, and the FIN finds no room. */
  lemma ReachStall(w0: World, w1: World) returns (w: World)
    requires Reachable(w0, [], w1) && WorldInv(w1) && Shut(w1.t) && w1.t.state.Established? && w1.t.attached
    ensures Reachable(w0, [], w) && WorldInv(w) && Stalled(w.t)
    ensures w.t.snd.buf == w1.t.snd.buf && w.t.snd.nxt == w1.t.snd.nxt
  {
    w := ReachNext(w0, [], w1, AppClose(false));
    ShutSend(w.t);
    w := ReachNext(w0, [], w, SendEvent);
    var fin := PlainAck(w.t.rcv.nxt, w.t.snd.una, 0, true);
    ShutFin(w.t, fin);
    w := ReachNext(w0, [], w, Arrives(fin, 0));
    ShutSend(w.t);
    w := ReachNext(w0, [], w, SendEvent);
  }

  /** A connection can stall for good: the peer shuts its window, both sides close, and the FIN
      that had no room is never sent. */
  lemma ClosingStalls(seqno: int, wnd: nat, iss: int) returns (w: World)
    requires wnd >= 2
    ensures Reachable(Start(seqno, wnd, iss), [], w) && WorldInv(w) && Stalled(w.t)
    ensures w.t.snd.nxt == w.t.snd.buf.end
  {
    w := HandshakeIdle(seqno, wnd, iss, []);
    w := ReachShut(Start(seqno, wnd, iss), w);
    w := ReachStall(Start(seqno, wnd, iss), w);
  }

  lemma LostTcb(t: Tcb)
    requires Idle(t)
    ensures var t1 := TcpSend(t, [7]); var t2 := SendReady(t1).t; var t3 := TcpTimeout(t2);
      && t1.armed && SendReady(t1).alive && t2.snd.timer.Retransmit?
      && Quiet(t3) && t3.state.Established? && t3.attached && t3.snd.nxt < t3.snd.buf.end
  {
    var t1 := TcpSend(t, [7]);
    assert t1.snd.buf.held == [7] && Pending(t1.snd) == [7];
  }

  /** It can stall with data left as well: a byte is written, sent, and timed out, before all that. */
  lemma ClosingStallsWithData(seqno: int, wnd: nat, iss: int) returns (w: World)
    requires wnd >= 2
    ensures Reachable(Start(seqno, wnd, iss), [], w) && WorldInv(w) && Stalled(w.t)
    ensures w.t.snd.nxt < w.t.snd.buf.end
  {
    var w0 := Start(seqno, wnd, iss);
    w := HandshakeIdle(seqno, wnd, iss, []);
    LostTcb(w.t);
    w := ReachNext(w0, [], w, AppWrite([7]));
    w := ReachNext(w0, [], w, SendEvent);
    w := ReachNext(w0, [], w, RetransmitTimer);
    w := ReachShut(w0, w);
    w := ReachStall(w0, w);
  }

  /** A connection can wait for a window with data to send. */
  lemma WindowAwaited(seqno: int, wnd: nat, iss: int) returns (w: World)
    requires wnd >= 2
    ensures Reachable(Start(seqno, wnd, iss), [], w) && AwaitsWindow(w.t) && w.t.snd.buf.Avail(w.t.snd.nxt) > 0
  {
    w := HandshakeIdle(seqno, wnd, iss, []);
    w := ReachShut(Start(seqno, wnd, iss), w);
    w := ReachNext(Start(seqno, wnd, iss), [], w, AppWrite([7]));
  }
}
