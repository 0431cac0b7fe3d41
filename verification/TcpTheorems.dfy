/** The promises of the endpoint, over every run from the SYN on. */
module TcpTheorems {
  import opened Basics
  import opened TcpModel
  import opened TcpRuns

  /** `events` lead from `w` to `w'`, the connection being alive all along. */
  ghost predicate Runs(w: World, events: seq<Event>, w': World)
    decreases |events|
  {
    if events == [] then w == w' else
      && Ready(w.t) && Enabled(w.t, events[0]) && Do(w.t, events[0]).alive
      && Runs(Next(w, events[0]), events[1..], w')
  }

  lemma RunsStep(w: World, events: seq<Event>, i: nat, w': World)
    requires i < |events| && Runs(w, events[i..], w')
    ensures Ready(w.t) && Enabled(w.t, events[i]) && Do(w.t, events[i]).alive
    ensures Runs(Next(w, events[i]), events[i + 1..], w')
  {
    assert events[i..][0] == events[i] && events[i..][1..] == events[i + 1..];
  }

  /** The world when a SYN with sequence number `seqno` and window `wnd` has been taken in. */
  function Start(seqno: int, wnd: nat, iss: int): World {
    World(Open(seqno, wnd, iss), [], [], [], [], true, wnd)
  }

  lemma StartOut(seqno: int, wnd: nat, iss: int)
    ensures OutInv(Open(seqno, wnd, iss), [])
  {
  }

  lemma StartIn(seqno: int, wnd: nat, iss: int)
    ensures InBase(Open(seqno, wnd, iss)) && InInv(Open(seqno, wnd, iss), [], []) && OnPath(Open(seqno, wnd, iss))
  {
  }

  lemma StartInv(seqno: int, wnd: nat, iss: int)
    ensures WorldInv(Start(seqno, wnd, iss))
  {
    StartOut(seqno, wnd, iss);
    StartIn(seqno, wnd, iss);
  }

  lemma {:induction false} RunInv(w: World, events: seq<Event>, w': World)
    requires WorldInv(w) && Runs(w, events, w')
    ensures WorldInv(w') && Keeps(w.t, w'.t) && w.t.snd.una <= w'.t.snd.una
    decreases |events|
  {
    if events != [] {
      StepInv(w, events[0]);
      StepKeeps(w, events[0]);
      StepOut(w, events[0]);
      RunInv(Next(w, events[0]), events[1..], w');
    }
  }

  lemma Reached(seqno: int, wnd: nat, iss: int, events: seq<Event>, w: World)
    requires Runs(Start(seqno, wnd, iss), events, w)
    ensures WorldInv(w) && w.t.snd.iss == iss && w.t.rcv.irs == seqno
    ensures w.t.snd.buf.size == BUFSIZE && w.t.rcv.buf.size == BUFSIZE
  {
    StartInv(seqno, wnd, iss);
    RunInv(Start(seqno, wnd, iss), events, w);
  }

  /** Retransmission consistency. In every run the sequence variables stay in order, and every
      segment ever sent, retransmissions included, carries the application's bytes at its sequence
      number; every FIN sits right behind the last byte. */
  lemma RetransmissionConsistency(seqno: int, wnd: nat, iss: int, events: seq<Event>, w: World)
    requires Runs(Start(seqno, wnd, iss), events, w)
    ensures var s := w.t.snd;
      && s.una <= s.nxt <= s.buf.end + 1 && s.buf.end == iss + 1 + |w.written|
      && (Handshaken(w.t.state) ==> s.buf.Base() <= s.una)
      && (w.t.state.Established? ==> s.buf.Base() == s.una)
    ensures forall i :: 0 <= i < |w.sent| ==> Carries(w.sent[i], w.written, iss)
  {
    Reached(seqno, wnd, iss, events, w);
  }

  /** No lost wake-up. Between steps, an open window and unsent data, or in a closing state an unsent
      FIN, mean that the send event is armed, and then running it sends data or the FIN; and in an
      established connection the retransmission timer is armed, for half a second to half a minute,
      exactly if anything is outstanding. */
  lemma NoLostWakeUp(seqno: int, wnd: nat, iss: int, events: seq<Event>, w: World)
    requires Runs(Start(seqno, wnd, iss), events, w)
    ensures Sendable(w.t.snd, w.t.state) ==>
      w.t.armed && exists seg :: SendReady(w.t).sent == [seg] && (seg.payload != [] || seg.fin)
    ensures w.t.state.Established? ==> (w.t.snd.una < w.t.snd.nxt <==> w.t.snd.timer.Retransmit?)
    ensures w.t.snd.timer.Retransmit? ==> w.t.snd.una < w.t.snd.nxt && 500 <= w.t.snd.timer.delay <= 30000
  {
    StartInv(seqno, wnd, iss);
    Reached(seqno, wnd, iss, events, w);
    RunTimer(Start(seqno, wnd, iss), events, w);
    var t := w.t;
    if Sendable(t.snd, t.state) {
      PendingOk(t.snd, t.state, t.armed, w.written);
      var seg := Header(t, false, FinDue(t.snd, t.state), false, PushDue(t.snd), Pending(t.snd));
      assert SendReady(t).sent == [seg] && (seg.payload != [] || seg.fin);
    }
  }

  /** The timer runs only while something is outstanding, up to where it was when the timer was set. */
  predicate TimerNeeded(s: Snd) { s.timer.Retransmit? ==> s.mark <= s.nxt && s.una < s.nxt }

  lemma AckTimer(t: Tcb, w: seq<Byte>, seg: Segment, diff: int)
    requires OutInv(t, w) && Honest(t, seg) && TimerNeeded(t.snd)
    ensures TimerNeeded(AckPart(t, seg, diff).0.snd)
  {
    if seg.ack && seg.ackno > t.snd.una {
      assert TimerNeeded(Acked(t.snd, t.state, seg.ackno, diff));
    }
  }

  lemma DataTimer(t: Tcb, seg: Segment)
    requires TimerNeeded(t.snd)
    ensures TimerNeeded(DataPart(t, seg).t.snd)
  {
  }

  lemma SendTimer(t: Tcb, w: seq<Byte>)
    requires OutInv(t, w) && TimerNeeded(t.snd)
    ensures TimerNeeded(SendReady(t).t.snd)
  {
  }

  lemma StepTimer(t: Tcb, w: seq<Byte>, e: Event)
    requires OutInv(t, w) && InBase(t) && Enabled(t, e) && Do(t, e).alive && TimerNeeded(t.snd)
    ensures TimerNeeded(Do(t, e).t.snd)
  {
    if e.Arrives? {
      AckTimer(t, w, e.seg, e.diff);
      DataTimer(AckPart(t, e.seg, e.diff).0, e.seg);
    } else if e.SendEvent? {
      SendTimer(t, w);
    }
  }

  lemma {:induction false} RunTimer(w: World, events: seq<Event>, w': World)
    requires WorldInv(w) && TimerNeeded(w.t.snd) && Runs(w, events, w')
    ensures TimerNeeded(w'.t.snd)
    decreases |events|
  {
    if events != [] {
      StepInv(w, events[0]);
      StepTimer(w.t, w.written, events[0]);
      RunTimer(Next(w, events[0]), events[1..], w');
    }
  }

  /** After close only a FIN that went out on its own can be outstanding without a timer. */
  lemma UntimedOnlyFin(seqno: int, wnd: nat, iss: int, events: seq<Event>, w: World)
    requires Runs(Start(seqno, wnd, iss), events, w) && Handshaken(w.t.state)
    requires w.t.snd.una < w.t.snd.nxt && !w.t.snd.timer.Retransmit?
    ensures !w.t.attached && w.t.snd.una == iss + 1 + |w.written| && w.t.snd.nxt == w.t.snd.una + 1
  {
    Reached(seqno, wnd, iss, events, w);
  }

  /** The send event puts something outstanding without starting a timer exactly if the timer is
      off and nothing but the FIN is left to send. */
  lemma LoneFinUntimed(seqno: int, wnd: nat, iss: int, events: seq<Event>, w: World)
    requires Runs(Start(seqno, wnd, iss), events, w) && w.t.armed && Handshaken(w.t.state)
    ensures var s, s' := w.t.snd, SendReady(w.t).t.snd;
      s'.nxt > s.nxt && !s'.timer.Retransmit? <==>
      s.timer.Off? && SendsFin(w.t.state) && WindowSize(s) > 0 && s.buf.Avail(s.nxt) == 0
  {
    Reached(seqno, wnd, iss, events, w);
    PendingOk(w.t.snd, w.t.state, w.t.armed, w.written);
  }

  /** PSH marks the end of what the application has written: a segment has it exactly if it carries
      the last byte. */
  lemma PushMarksEnd(seqno: int, wnd: nat, iss: int, events: seq<Event>, w: World)
    requires Runs(Start(seqno, wnd, iss), events, w) && w.t.armed
    ensures forall i :: 0 <= i < |SendReady(w.t).sent| ==>
      var seg := SendReady(w.t).sent[i];
      seg.psh <==> seg.payload != [] && seg.seqno + |seg.payload| == iss + 1 + |w.written|
  {
    Reached(seqno, wnd, iss, events, w);
    EmitOk(w.t, w.written);
  }

  // ----- Acknowledgements owed -----

  /** last_acked does not pass rcv_nxt, and while it lags behind, the send event is armed. */
  predicate OwedInv(t: Tcb) {
    t.snd.nxt > t.snd.iss ==>
      && t.rcv.lastAcked <= t.rcv.nxt
      && (t.rcv.lastAcked < t.rcv.nxt ==> Handshaken(t.state) && t.armed)
  }

  lemma AckOwed(t: Tcb, w: seq<Byte>, seg: Segment, diff: int)
    requires OutInv(t, w) && Honest(t, seg) && OwedInv(t)
    ensures var (t', v) := AckPart(t, seg, diff); v.Delete? || OwedInv(t')
  {
    AckInv(t, w, seg, diff);
    AckSparesRcv(t, seg, diff);
  }

  lemma DataOwed(t: Tcb, seg: Segment)
    requires OwedInv(t)
    ensures OwedInv(DataPart(t, seg).t)
  {
  }

  lemma StepOwed(w: World, e: Event)
    requires WorldInv(w) && OwedInv(w.t) && Enabled(w.t, e) && Do(w.t, e).alive
    ensures OwedInv(Do(w.t, e).t)
  {
    if e.Arrives? && !e.seg.rst {
      AckOwed(w.t, w.written, e.seg, e.diff);
      DataOwed(AckPart(w.t, e.seg, e.diff).0, e.seg);
    }
  }

  lemma {:induction false} RunOwed(w: World, events: seq<Event>, w': World)
    requires WorldInv(w) && OwedInv(w.t) && Runs(w, events, w')
    ensures OwedInv(w'.t)
    decreases |events|
  {
    if events != [] {
      StepInv(w, events[0]);
      StepOwed(w, events[0]);
      RunOwed(Next(w, events[0]), events[1..], w');
    }
  }

  /** No lost acknowledgement. In every run, whenever an acknowledgement is owed the send event is
      armed, and running it sends one segment with the current rcv_nxt and window. */
  lemma NoLostAck(seqno: int, wnd: nat, iss: int, events: seq<Event>, w: World)
    requires Runs(Start(seqno, wnd, iss), events, w) && Handshaken(w.t.state)
    ensures w.t.rcv.lastAcked <= w.t.rcv.nxt
    ensures w.t.rcv.lastAcked < w.t.rcv.nxt ==>
      w.t.armed && exists seg :: SendReady(w.t).sent == [seg] && Current(seg, w.t.rcv)
  {
    StartInv(seqno, wnd, iss);
    Reached(seqno, wnd, iss, events, w);
    RunOwed(Start(seqno, wnd, iss), events, w);
    if w.t.rcv.lastAcked < w.t.rcv.nxt {
      assert Current(SendReady(w.t).sent[0], w.t.rcv);
    }
  }

  predicate Current(seg: Segment, r: Rcv) { seg.ack && seg.ackno == r.nxt && seg.wnd == r.wnd }

  /** The handler stops after the ACK part exactly if everything is acknowledged in CLOSING, and
      deletes the connection exactly if it is in LAST_ACK. */
  lemma StopsEarly(t: Tcb, seg: Segment, diff: int)
    requires t.snd.buf.Base() <= t.snd.una + 1
    ensures AckPart(t, seg, diff).1.Return? <==> t.state.Closing? && AcksAll(t, seg)
    ensures AckPart(t, seg, diff).1.Delete? <==> t.state.LastAck? && AcksAll(t, seg)
  {
    if seg.ack && seg.ackno > t.snd.una {
      var s := Acked(t.snd, t.state, seg.ackno, diff);
      assert s.una == seg.ackno && s.nxt == if seg.ackno > t.snd.nxt then seg.ackno else t.snd.nxt;
    }
  }

  /** The segments that call for an answer and get none: a repeated SYN, whatever comes with all
      acknowledged in CLOSING or LAST_ACK, and data or FINs where they are no longer taken. */
  predicate Ignored(t: Tcb, seg: Segment) {
    || (t.state.SynRecvd? && !seg.ack)
    || ((t.state.Closing? || t.state.LastAck?) && AcksAll(t, seg))
    || ((t.state.Closing? || t.state.LastAck? || t.state.TimeWait?) && seg.seqno >= t.rcv.nxt)
  }

  /** How far the last acknowledgement sent lags behind. */
  function Owed(r: Rcv): int { r.nxt - r.lastAcked }

  /** A segment below rcv_nxt, or one with data or a FIN, makes more acknowledgement owed exactly if
      it is not one of the ignored. */
  lemma SegmentsAnswered(seqno: int, wnd: nat, iss: int, events: seq<Event>, w: World, seg: Segment, diff: int)
    requires Runs(Start(seqno, wnd, iss), events, w) && !seg.rst && Honest(w.t, seg)
    requires seg.seqno < w.t.rcv.nxt || seg.payload != [] || seg.fin
    ensures Ready(w.t)
    ensures var e := Receive(w.t, seg, diff); e.alive && Owed(e.t.rcv) > Owed(w.t.rcv) <==> !Ignored(w.t, seg)
  {
    Reached(seqno, wnd, iss, events, w);
    AckInv(w.t, w.written, seg, diff);
    AckSparesRcv(w.t, seg, diff);
    StopsEarly(w.t, seg, diff);
    AckStates(w.t, w.written, seg, diff);
    var (t1, v) := AckPart(w.t, seg, diff);
    if v.Continue? {
      DataAnswered(t1, seg);
    }
  }

  predicate TakesData(s: State) { s.Established? || s.FinWait1? || s.FinWait2? }

  /** Past the ACK part a connection takes data exactly if it did before, or has just been
      established. */
  lemma AckStates(t: Tcb, w: seq<Byte>, seg: Segment, diff: int)
    requires OutInv(t, w) && Honest(t, seg)
    ensures var (t1, v) := AckPart(t, seg, diff);
      v.Continue? ==>
        && (TakesData(t1.state) <==> TakesData(t.state) || (t.state.SynRecvd? && seg.ack))
        && (t1.state.SynRecvd? <==> t.state.SynRecvd? && !seg.ack)
  {
  }

  lemma DataAnswered(t: Tcb, seg: Segment)
    requires seg.seqno < t.rcv.nxt || seg.payload != [] || seg.fin
    ensures var e := DataPart(t, seg);
      && e.alive
      && (Owed(e.t.rcv) > Owed(t.rcv) <==> if seg.seqno < t.rcv.nxt then !t.state.SynRecvd? else TakesData(t.state))
  {
  }

  // ----- What the peer can know -----

  /** The sequence number after `seg`. */
  function End(seg: Segment): int {
    seg.seqno + |seg.payload| + (if seg.syn then 1 else 0) + (if seg.fin then 1 else 0)
  }

  /** Once the SYN is out, rtt_limit is the highest end of all that was sent. */
  ghost predicate Limits(s: Snd, sent: seq<Segment>) {
    && (forall i :: 0 <= i < |sent| ==> End(sent[i]) <= s.rttLimit)
    && (s.nxt > s.iss ==> exists i :: 0 <= i < |sent| && End(sent[i]) == s.rttLimit)
  }

  ghost predicate LimitInv(w: World) { Limits(w.t.snd, w.sent) }

  lemma AckSparesLimit(t: Tcb, seg: Segment, diff: int)
    requires t.snd.buf.Base() <= t.snd.una + 1
    ensures var s := AckPart(t, seg, diff).0.snd; s.rttLimit == t.snd.rttLimit && (!seg.ack ==> s == t.snd)
  {
    if seg.ack && seg.ackno > t.snd.una {
      assert Acked(t.snd, t.state, seg.ackno, diff).rttLimit == t.snd.rttLimit;
    }
  }

  lemma DataSparesLimit(t: Tcb, seg: Segment)
    ensures var s := DataPart(t, seg).t.snd; s.rttLimit == t.snd.rttLimit && s.nxt == t.snd.nxt
  {
  }

  /** A segment sent ends at the new snd_nxt, and rtt_limit follows it up. */
  lemma SentEnd(t: Tcb, w: seq<Byte>)
    requires OutInv(t, w) && t.armed
    ensures var e, s := SendReady(t), t.snd;
      && e.alive && e.t.snd.iss == s.iss
      && (e.sent == [] ==> e.t.snd == s)
      && (e.sent != [] ==>
            && e.sent == [e.sent[0]] && End(e.sent[0]) == e.t.snd.nxt
            && e.t.snd.rttLimit == if s.rttLimit < e.t.snd.nxt then e.t.snd.nxt else s.rttLimit)
      && (!Handshaken(t.state) ==> e.t.snd.nxt == e.t.snd.rttLimit)
  {
  }

  lemma ReceiveLimit(t: Tcb, w: seq<Byte>, seg: Segment, diff: int)
    requires OutInv(t, w) && !seg.rst && Honest(t, seg)
    ensures var s := Receive(t, seg, diff).t.snd;
      s.rttLimit == t.snd.rttLimit && s.iss == t.snd.iss && (s.nxt > s.iss ==> t.snd.nxt > t.snd.iss)
  {
    AckSparesLimit(t, seg, diff);
    AckKeeps(t, seg, diff);
    var t1 := AckPart(t, seg, diff).0;
    DataSparesLimit(t1, seg);
    DataKeeps(t1, seg);
  }

  /** Outside the send event neither what was sent nor rtt_limit changes. */
  lemma QuietLimit(t: Tcb, w: seq<Byte>, e: Event)
    requires OutInv(t, w) && InBase(t) && Enabled(t, e) && Do(t, e).alive && !e.SendEvent?
    ensures var s := Do(t, e).t.snd;
      s.rttLimit == t.snd.rttLimit && s.iss == t.snd.iss && (s.nxt > s.iss ==> t.snd.nxt > t.snd.iss)
    ensures Do(t, e).sent == []
  {
    if e.Arrives? {
      ReceiveLimit(t, w, e.seg, e.diff);
      ReceiveSilent(t, e.seg, e.diff);
    }
  }

  lemma LimitGrows(s: Snd, sent: seq<Segment>, seg: Segment, s': Snd)
    requires Limits(s, sent) && (s.nxt <= s.iss ==> End(seg) == s'.rttLimit)
    requires s'.rttLimit == if s.rttLimit < End(seg) then End(seg) else s.rttLimit
    ensures Limits(s', sent + [seg])
  {
    var more := sent + [seg];
    assert more[|sent|] == seg;
    if End(seg) != s'.rttLimit {
      var i :| 0 <= i < |sent| && End(sent[i]) == s.rttLimit;
      assert more[i] == sent[i];
    }
  }

  lemma StepLimit(w: World, e: Event)
    requires WorldInv(w) && LimitInv(w) && Enabled(w.t, e) && Do(w.t, e).alive
    ensures LimitInv(Next(w, e))
  {
    assert w.sent + [] == w.sent;
    if e.SendEvent? {
      SentEnd(w.t, w.written);
      var out := SendReady(w.t);
      if out.sent != [] {
        LimitGrows(w.t.snd, w.sent, out.sent[0], out.t.snd);
      }
    } else {
      QuietLimit(w.t, w.written, e);
    }
  }

  lemma {:induction false} RunLimit(w: World, events: seq<Event>, w': World)
    requires WorldInv(w) && LimitInv(w) && Runs(w, events, w')
    ensures LimitInv(w')
    decreases |events|
  {
    if events != [] {
      StepInv(w, events[0]);
      StepLimit(w, events[0]);
      RunLimit(Next(w, events[0]), events[1..], w');
    }
  }

  /** The bound that `Honest` puts on acknowledgements is what a peer can know: in every run that
      has sent the SYN, rtt_limit is the highest sequence number ever sent. */
  lemma LimitIsHighestSent(seqno: int, wnd: nat, iss: int, events: seq<Event>, w: World, ack: int)
    requires Runs(Start(seqno, wnd, iss), events, w) && w.t.snd.nxt > iss
    ensures ack <= w.t.snd.rttLimit <==> exists i :: 0 <= i < |w.sent| && ack <= End(w.sent[i])
  {
    StartInv(seqno, wnd, iss);
    Reached(seqno, wnd, iss, events, w);
    RunLimit(Start(seqno, wnd, iss), events, w);
  }

  // ----- Karn's rule -----

  predicate Covers(seg: Segment, x: int) { seg.seqno <= x < End(seg) }

  /** While a round trip is being measured, what it is measured on was sent exactly once. */
  ghost predicate Measured(s: Snd, sent: seq<Segment>) {
    s.una <= s.rttMark ==>
      && s.rttMark < s.nxt
      && exists i :: 0 <= i < |sent| && Covers(sent[i], s.rttMark) && OnlyCover(sent, s.rttMark, i)
  }

  ghost predicate OnlyCover(sent: seq<Segment>, x: int, i: int) {
    forall j :: 0 <= j < |sent| && Covers(sent[j], x) ==> j == i
  }

  /** What sending does to the mark: it stays, or is set to a number that was never sent before. */
  lemma SentMark(t: Tcb, w: seq<Byte>)
    requires OutInv(t, w) && t.armed
    ensures var s, s', out := t.snd, SendReady(t).t.snd, SendReady(t).sent;
      && s'.una == s.una && s.nxt <= s'.nxt
      && (out != [] ==> out == [out[0]] && out[0].seqno == s.nxt)
      && (s'.rttMark == s.rttMark || (out != [] && s'.rttMark == s.nxt >= s.rttLimit && Covers(out[0], s.nxt)))
      && (s'.rttMark != s.rttMark ==> Handshaken(t.state))
  {
  }

  lemma MeasuredMore(s: Snd, sent: seq<Segment>, seg: Segment, s': Snd)
    requires Measured(s, sent) && Limits(s, sent) && s'.una == s.una && s.nxt <= s'.nxt && seg.seqno == s.nxt
    requires s'.rttMark == s.rttMark || (s'.rttMark == s.nxt >= s.rttLimit && Covers(seg, s.nxt) && s.nxt < s'.nxt)
    ensures Measured(s', sent + [seg])
  {
    var more, x := sent + [seg], s'.rttMark;
    if s'.una <= x && x == s.rttMark {
      var i :| 0 <= i < |sent| && Covers(sent[i], x) && OnlyCover(sent, x, i);
      assert more[i] == sent[i] && OnlyCover(more, x, i);
    } else if s'.una <= x {
      assert more[|sent|] == seg && OnlyCover(more, x, |sent|);
    }
  }

  /** Outside the send event the mark stays or falls below snd_una. */
  lemma QuietMark(t: Tcb, w: seq<Byte>, e: Event)
    requires OutInv(t, w) && InBase(t) && Enabled(t, e) && Do(t, e).alive && !e.SendEvent?
    ensures var s := Do(t, e).t.snd;
      s.una <= s.rttMark ==> s.rttMark == t.snd.rttMark && t.snd.una <= s.una && t.snd.nxt <= s.nxt
  {
    if e.Arrives? {
      ReceiveMark(t, e.seg, e.diff);
    }
  }

  lemma ReceiveMark(t: Tcb, seg: Segment, diff: int)
    requires t.snd.buf.Base() <= t.snd.una + 1 && !seg.rst
    ensures var s := Receive(t, seg, diff).t.snd;
      s.rttMark == t.snd.rttMark && t.snd.una <= s.una && t.snd.nxt <= s.nxt
  {
    var t1 := AckPart(t, seg, diff).0;
    if seg.ack && seg.ackno > t.snd.una {
      var s := Acked(t.snd, t.state, seg.ackno, diff);
      assert s.rttMark == t.snd.rttMark && t.snd.una <= s.una && t.snd.nxt <= s.nxt;
    }
    DataMark(t1, seg);
  }

  lemma DataMark(t: Tcb, seg: Segment)
    ensures var s := DataPart(t, seg).t.snd; s.rttMark == t.snd.rttMark && s.una == t.snd.una && s.nxt == t.snd.nxt
  {
  }

  lemma StepMeasured(w: World, e: Event)
    requires WorldInv(w) && LimitInv(w) && Measured(w.t.snd, w.sent) && Enabled(w.t, e) && Do(w.t, e).alive
    ensures Measured(Next(w, e).t.snd, Next(w, e).sent)
  {
    assert w.sent + [] == w.sent;
    if e.SendEvent? {
      SentMark(w.t, w.written);
      SentEnd(w.t, w.written);
      var out := SendReady(w.t);
      if out.sent != [] {
        MeasuredMore(w.t.snd, w.sent, out.sent[0], out.t.snd);
      }
    } else {
      QuietLimit(w.t, w.written, e);
      QuietMark(w.t, w.written, e);
    }
  }

  lemma {:induction false} RunMeasured(w: World, events: seq<Event>, w': World)
    requires WorldInv(w) && LimitInv(w) && Measured(w.t.snd, w.sent) && Runs(w, events, w')
    ensures Measured(w'.t.snd, w'.sent)
    decreases |events|
  {
    if events != [] {
      StepInv(w, events[0]);
      StepLimit(w, events[0]);
      StepMeasured(w, events[0]);
      RunMeasured(Next(w, events[0]), events[1..], w');
    }
  }

  /** Karn's rule: in every run, whenever the next acknowledgement can give a round-trip sample, the
      sequence number it is measured on is outstanding and was sent exactly once, so no sample is ever
      taken from something that was sent again. */
  lemma KarnsRule(seqno: int, wnd: nat, iss: int, events: seq<Event>, w: World)
    requires Runs(Start(seqno, wnd, iss), events, w) && w.t.snd.una <= w.t.snd.rttMark
    ensures var x := w.t.snd.rttMark;
      x < w.t.snd.nxt && exists i :: 0 <= i < |w.sent| && Covers(w.sent[i], x) && OnlyCover(w.sent, x, i)
  {
    StartInv(seqno, wnd, iss);
    RunMeasured(Start(seqno, wnd, iss), events, w);
  }

  // ----- Windows, streams and states -----

  lemma AckSparesWindow(t: Tcb, seg: Segment, diff: int)
    requires t.snd.buf.Base() <= t.snd.una + 1
    ensures AckPart(t, seg, diff).0.snd.wnd == t.snd.wnd
  {
    if seg.ack && seg.ackno > t.snd.una {
      assert Acked(t.snd, t.state, seg.ackno, diff).wnd == t.snd.wnd;
    }
  }

  lemma DataWindow(t: Tcb, seg: Segment)
    ensures DataPart(t, seg).t.snd.wnd == if seg.seqno >= t.rcv.nxt then seg.wnd else t.snd.wnd
  {
  }

  /** snd_wnd is what the segment offers, if its window counts, and stays otherwise. */
  lemma WindowRecorded(t: Tcb, seg: Segment, diff: int)
    requires t.snd.buf.Base() <= t.snd.una + 1 && !seg.rst && Receive(t, seg, diff).alive
    ensures Receive(t, seg, diff).t.snd.wnd == if OffersWindow(t, seg) then seg.wnd else t.snd.wnd
  {
    StopsEarly(t, seg, diff);
    AckSparesWindow(t, seg, diff);
    AckSparesRcv(t, seg, diff);
    DataWindow(AckPart(t, seg, diff).0, seg);
  }

  lemma StepOffered(w: World, e: Event)
    requires WorldInv(w) && Enabled(w.t, e) && Do(w.t, e).alive && w.t.snd.wnd == w.offered
    ensures Next(w, e).t.snd.wnd == Next(w, e).offered
  {
    if e.Arrives? {
      WindowRecorded(w.t, e.seg, e.diff);
    }
  }

  /** In every run snd_wnd is the last window that the peer offered. */
  lemma {:induction false} RunOffered(w: World, events: seq<Event>, w': World)
    requires WorldInv(w) && Runs(w, events, w') && w.t.snd.wnd == w.offered
    ensures w'.t.snd.wnd == w'.offered
    decreases |events|
  {
    if events != [] {
      StepInv(w, events[0]);
      StepOffered(w, events[0]);
      RunOffered(Next(w, events[0]), events[1..], w');
    }
  }

  /** Send-window safety: what a step sends ends within the window the peer last offered, counted from
      snd_una, and snd_una never decreases. */
  lemma SendWindowSafety(seqno: int, wnd: nat, iss: int, events: seq<Event>, w: World, e: Event)
    requires Runs(Start(seqno, wnd, iss), events, w) && Ready(w.t) && Enabled(w.t, e)
    ensures w.t.snd.wnd == w.offered && w.t.snd.max <= w.t.snd.una + w.offered
    ensures forall i :: 0 <= i < |Do(w.t, e).sent| ==> Fits(Do(w.t, e).sent[i], w.t.snd.una + w.offered)
    ensures Do(w.t, e).alive ==> w.t.snd.una <= Do(w.t, e).t.snd.una
  {
    StartInv(seqno, wnd, iss);
    Reached(seqno, wnd, iss, events, w);
    RunOffered(Start(seqno, wnd, iss), events, w);
    if e.SendEvent? {
      EmitOk(w.t, w.written);
    } else {
      OtherwiseOnlyReset(w.t, e);
    }
    if Do(w.t, e).alive {
      StepOut(w, e);
    }
  }

  /** Outside the send event nothing goes out but the reset of a close. */
  lemma OtherwiseOnlyReset(t: Tcb, e: Event)
    requires Ready(t) && Enabled(t, e) && !e.SendEvent?
    ensures forall i :: 0 <= i < |Do(t, e).sent| ==>
      var seg := Do(t, e).sent[i]; seg.rst && seg.payload == [] && !seg.fin
  {
    if e.Arrives? {
      ReceiveSilent(t, e.seg, e.diff);
    }
  }

  /** Receive conservation: as long as the peer keeps to the window and the application is attached,
      what it has read and what is buffered are together exactly the payloads accepted, and rcv_nxt
      counts them. */
  lemma ReceiveConservation(seqno: int, wnd: nat, iss: int, events: seq<Event>, w: World)
    requires Runs(Start(seqno, wnd, iss), events, w) && w.t.attached && w.fitting
    ensures w.read + w.t.rcv.buf.held == w.accepted
    ensures w.t.rcv.nxt == seqno + 1 + |w.accepted| && w.t.rcv.readSeq == seqno + 1 + |w.read|
    ensures w.t.rcv.nxt + w.t.rcv.wnd == w.t.rcv.readSeq + 16384
  {
    Reached(seqno, wnd, iss, events, w);
  }

  /** A segment below rcv_nxt adds nothing. */
  lemma DuplicatesAddNothing(seqno: int, wnd: nat, iss: int, events: seq<Event>, w: World, seg: Segment, diff: int)
    requires Runs(Start(seqno, wnd, iss), events, w)
    requires !seg.rst && Honest(w.t, seg) && seg.seqno < w.t.rcv.nxt
    ensures Ready(w.t) && Next(w, Arrives(seg, diff)).accepted == w.accepted
    ensures var e := Receive(w.t, seg, diff); e.alive ==> e.t.rcv.buf == w.t.rcv.buf && e.t.rcv.nxt == w.t.rcv.nxt
  {
    Reached(seqno, wnd, iss, events, w);
    DuplicateAddsNothing(w.t, seg, diff);
    assert w.accepted + [] == w.accepted;
  }

  lemma DuplicateAddsNothing(t: Tcb, seg: Segment, diff: int)
    requires t.snd.buf.Base() <= t.snd.una + 1 && !seg.rst && seg.seqno < t.rcv.nxt
    ensures Taken(t, seg, diff) == []
    ensures var r := Receive(t, seg, diff).t.rcv; r == t.rcv.(lastAcked := r.lastAcked)
  {
    AckSparesRcv(t, seg, diff);
  }

  /** Where the window offered to the peer ends. */
  function RightEdge(r: Rcv): int { r.nxt + r.wnd }

  lemma DataEdge(t: Tcb, seg: Segment)
    requires InBase(t) && Attachment(t) && DataPart(t, seg).t.attached == t.attached
    ensures RightEdge(t.rcv) <= RightEdge(DataPart(t, seg).t.rcv)
  {
  }

  lemma ReceiveEdge(t: Tcb, w: seq<Byte>, seg: Segment, diff: int)
    requires OutInv(t, w) && InBase(t) && !seg.rst && Honest(t, seg) && Receive(t, seg, diff).t.attached == t.attached
    ensures RightEdge(t.rcv) <= RightEdge(Receive(t, seg, diff).t.rcv)
  {
    AckInv(t, w, seg, diff);
    AckSparesRcv(t, seg, diff);
    AckSparesCallbacks(t, seg, diff);
    var (t1, v) := AckPart(t, seg, diff);
    if v.Continue? {
      DataEdge(t1, seg);
    }
  }

  lemma AckSparesCallbacks(t: Tcb, seg: Segment, diff: int)
    requires t.snd.buf.Base() <= t.snd.una + 1
    ensures AckPart(t, seg, diff).0.attached == t.attached
  {
  }

  lemma StepEdge(t: Tcb, w: seq<Byte>, e: Event)
    requires OutInv(t, w) && InBase(t) && Enabled(t, e) && Do(t, e).alive && Do(t, e).t.attached == t.attached
    ensures RightEdge(t.rcv) <= RightEdge(Do(t, e).t.rcv)
  {
    if e.Arrives? {
      ReceiveEdge(t, w, e.seg, e.diff);
    }
  }

  lemma {:induction false} RunEdge(w: World, events: seq<Event>, w': World)
    requires WorldInv(w) && Runs(w, events, w') && (w.t.attached ==> w'.t.attached)
    ensures RightEdge(w.t.rcv) <= RightEdge(w'.t.rcv)
    decreases |events|
  {
    if events != [] {
      var w1 := Next(w, events[0]);
      StepInv(w, events[0]);
      StepKeeps(w, events[0]);
      RunInv(w1, events[1..], w');
      StepEdge(w.t, w.written, events[0]);
      RunEdge(w1, events[1..], w');
    }
  }

  /** The right edge of the advertised window never moves left before the close, nor after it, whether
      or not the peer keeps to the window: the close is the only step of a run that can move it. */
  lemma RightEdgeAdvances(seqno: int, wnd: nat, iss: int, events: seq<Event>, w: World, more: seq<Event>, w': World)
    requires Runs(Start(seqno, wnd, iss), events, w) && Runs(w, more, w') && w'.t.attached == w.t.attached
    ensures RightEdge(w.t.rcv) <= RightEdge(w'.t.rcv)
  {
    Reached(seqno, wnd, iss, events, w);
    RunEdge(w, more, w');
  }

  /** State safety: every run follows the edges of the passive-open state diagram; the callback
      table is attached exactly before close; and FIN_WAIT_2 or TIME_WAIT means that every byte
      and the FIN have been acknowledged. */
  lemma StateSafety(seqno: int, wnd: nat, iss: int, events: seq<Event>, w: World)
    requires Runs(Start(seqno, wnd, iss), events, w)
    ensures OnPath(w.t)
    ensures w.t.attached <==> w.t.state.SynRecvd? || w.t.state.Established?
    ensures Done(w.t.state) ==> w.t.snd.una == iss + 1 + |w.written| + 1 && w.t.snd.nxt == w.t.snd.una
    ensures w.t.state.TimeWait? <==> w.t.snd.timer.Remove?
  {
    Reached(seqno, wnd, iss, events, w);
  }

  /** No callback is made on a detached connection. */
  lemma NoCallbackAfterClose(seqno: int, wnd: nat, iss: int, events: seq<Event>, w: World, e: Event)
    requires Runs(Start(seqno, wnd, iss), events, w) && Ready(w.t) && Enabled(w.t, e) && !w.t.attached
    ensures Do(w.t, e).calls == []
  {
    Reached(seqno, wnd, iss, events, w);
    if e.Arrives? && !e.seg.rst {
      AckKeeps(w.t, e.seg, e.diff);
      AckNeverReopens(w.t, e.seg, e.diff);
    }
  }

  lemma AckNeverReopens(t: Tcb, seg: Segment, diff: int)
    requires t.snd.buf.Base() <= t.snd.una + 1 && !t.state.SynRecvd? && !t.state.Established?
    ensures !AckPart(t, seg, diff).0.state.Established?
  {
  }

  // ----- The peer's stream -----

  /** The peer sends the stream `p`: what `seg` carries is `p` at its sequence number. */
  ghost predicate Genuine(seg: Segment, irs: int, p: seq<Byte>) {
    var k, n := seg.seqno - (irs + 1), |seg.payload|;
    seg.payload != [] ==> 0 <= k && k + n <= |p| && seg.payload == p[k..k + n]
  }

  /** What is accepted is genuine and comes in order: the segment that is taken starts at rcv_nxt. */
  ghost predicate InOrder(t: Tcb, e: Event, p: seq<Byte>)
    requires Ready(t)
  {
    e.Arrives? && Taken(t, e.seg, e.diff) != [] ==> e.seg.seqno == t.rcv.nxt && Genuine(e.seg, t.rcv.irs, p)
  }

  ghost predicate RunsInOrder(w: World, events: seq<Event>, w': World, p: seq<Byte>)
    decreases |events|
  {
    if events == [] then w == w' else
      && Ready(w.t) && Enabled(w.t, events[0]) && Do(w.t, events[0]).alive && InOrder(w.t, events[0], p)
      && RunsInOrder(Next(w, events[0]), events[1..], w', p)
  }

  lemma {:induction false} InOrderRuns(w: World, events: seq<Event>, w': World, p: seq<Byte>)
    requires RunsInOrder(w, events, w', p) && WorldInv(w) && (w.fitting ==> w.accepted <= p)
    ensures Runs(w, events, w') && (w'.fitting ==> w'.accepted <= p)
    decreases |events|
  {
    if events != [] {
      var w1 := Next(w, events[0]);
      StepInv(w, events[0]);
      if w.fitting {
        TakenPrefix(w, events[0], p);
      }
      InOrderRuns(w1, events[1..], w', p);
    }
  }

  lemma TakenPrefix(w: World, e: Event, p: seq<Byte>)
    requires WorldInv(w) && Enabled(w.t, e) && InOrder(w.t, e, p) && w.fitting && w.accepted <= p
    ensures Next(w, e).accepted <= p
  {
    if e.Arrives? && Taken(w.t, e.seg, e.diff) != [] {
      TakenAttached(w.t, e.seg, e.diff);
      assert w.t.rcv.nxt == w.t.rcv.irs + 1 + |w.accepted|;
      PrefixGrows(w.accepted, e.seg.payload, p);
    }
  }

  lemma PrefixGrows(a: seq<Byte>, b: seq<Byte>, p: seq<Byte>)
    requires a <= p && |a| + |b| <= |p| && b == p[|a|..|a| + |b|]
    ensures a + b <= p
  {
    assert a == p[..|a|];
    assert p[..|a|] + p[|a|..|a| + |b|] == p[..|a| + |b|];
  }

  lemma TakenAttached(t: Tcb, seg: Segment, diff: int)
    requires Ready(t) && Attachment(t) && Taken(t, seg, diff) != []
    ensures t.attached && Taken(t, seg, diff) == seg.payload
  {
  }

  /** What the application has read is a prefix of what the peer sent. */
  lemma DeliversPeerStream(seqno: int, wnd: nat, iss: int, events: seq<Event>, w: World, p: seq<Byte>)
    requires RunsInOrder(Start(seqno, wnd, iss), events, w, p) && w.t.attached && w.fitting
    ensures w.accepted <= p && w.read <= p
  {
    StartInv(seqno, wnd, iss);
    InOrderRuns(Start(seqno, wnd, iss), events, w, p);
    Reached(seqno, wnd, iss, events, w);
  }
}
