/** What a connection sends, what the application's calls and the timers do, and which callbacks are made:
    in the numbers of the control block, for every state that a run reaches. */
module TcpOutputs {
  import opened Basics
  import opened StreamBuffer
  import opened TcpModel
  import opened TcpRuns
  import opened TcpTheorems
  import opened TcpEffects

  // ----- Sending -----

  /** How much data the send event can send: as much as is there, a segment holds, and the window
      allows. */
  function DataDue(s: Snd, st: State): int {
    if Sendable(s, st) && s.nxt < s.buf.end then Least(Least(s.buf.end - s.nxt, 1220), s.max - s.nxt) else 0
  }

  /** The FIN goes with the last data, if there is room for it. */
  predicate FinGoes(s: Snd, st: State) {
    && Sendable(s, st) && (st.FinWait1? || st.Closing? || st.LastAck?)
    && s.nxt + DataDue(s, st) == s.buf.end && DataDue(s, st) < s.max - s.nxt
  }

  lemma PendingIs(s: Snd, st: State, w: seq<Byte>)
    requires SndInv(s, st, true, w) && Handshaken(st) && !st.CloseWait?
    ensures |Pending(s)| == DataDue(s, st) && (FinDue(s, st) <==> FinGoes(s, st))
  {
    PendingOk(s, st, true, w);
  }

  /** What the send event sends after the handshake: nothing exactly if there is neither anything to send
      in the window nor an acknowledgement owed; otherwise one segment from snd_nxt on, with all the data
      that may go and the FIN if it may, acknowledging rcv_nxt and offering the window. It stays armed
      exactly if there is more to send. */
  lemma SendEffect(seqno: int, wnd: nat, iss: int, events: seq<Event>, w: World)
    requires Runs(Start(seqno, wnd, iss), events, w) && w.t.armed && Handshaken(w.t.state)
    ensures var s, st, e := w.t.snd, w.t.state, SendReady(w.t);
      && e.alive && e.calls == [] && e.t.state == st
      && (e.sent == [] <==> !Sendable(s, st) && Owed(w.t.rcv) <= 0)
      && (e.sent != [] ==>
            && e.sent == [e.sent[0]] && Current(e.sent[0], w.t.rcv) && e.sent[0].seqno == s.nxt
            && !e.sent[0].syn && !e.sent[0].rst
            && |e.sent[0].payload| == DataDue(s, st) && (e.sent[0].fin <==> FinGoes(s, st)))
      && (e.t.armed <==> Sendable(e.t.snd, st))
  {
    Reached(seqno, wnd, iss, events, w);
    PendingIs(w.t.snd, w.t.state, w.written);
    SendReadyInv(w.t, w.written);
    MoreIs(w.t, w.written);
  }

  lemma MoreIs(t: Tcb, w: seq<Byte>)
    requires OutInv(t, w) && t.armed && Handshaken(t.state)
    ensures var s := SendReady(t).t.snd; MoreToSend(s, t.state) <==> Sendable(s, t.state)
  {
    SendReadyInv(t, w);
  }

  /** What the send event does to the sending side: snd_nxt moves past what was sent; the timer is started,
      for the delay that the estimate gives, exactly if data goes and none runs; a round trip is measured
      from here on exactly if data goes that was never sent before and none is being measured. */
  lemma SendOnSender(seqno: int, wnd: nat, iss: int, events: seq<Event>, w: World)
    requires Runs(Start(seqno, wnd, iss), events, w) && w.t.armed && Handshaken(w.t.state)
    ensures var s, s' := w.t.snd, SendReady(w.t).t.snd;
      var n := DataDue(s, w.t.state);
      && s'.nxt == s.nxt + n + (if FinGoes(s, w.t.state) then 1 else 0)
      && s' == s.(nxt := s'.nxt, timer := s'.timer, mark := s'.mark, rttMark := s'.rttMark, rttLimit := s'.rttLimit)
      && s'.timer == (if n > 0 && s.timer.Off? then Retransmit(Delay(s.est)) else s.timer)
      && s'.mark == (if n > 0 && s.timer.Off? then s.nxt else s.mark)
      && s'.rttMark == (if n > 0 && s.rttMark < s.una && s.nxt >= s.rttLimit then s.nxt else s.rttMark)
  {
    Reached(seqno, wnd, iss, events, w);
    PendingIs(w.t.snd, w.t.state, w.written);
  }

  /** Before the handshake the send event sends the SYN-ACK. */
  predicate IsSynAck(seg: Segment, iss: int, irs: int) {
    seg == Segment(iss, irs + 1, 16384, true, false, false, false, true, [])
  }

  /** Until the handshake rcv_nxt is the number after the SYN; every segment sent acknowledges no more than
      rcv_nxt, later ones no less than earlier ones; and every SYN sent is the SYN-ACK. */
  ghost predicate Numbered(w: World) {
    && (w.t.state.SynRecvd? ==> w.t.rcv.nxt == w.t.rcv.irs + 1)
    && (forall i :: 0 <= i < |w.sent| ==>
          && w.sent[i].ack && !w.sent[i].rst && w.sent[i].ackno <= w.t.rcv.nxt
          && (w.sent[i].syn ==> IsSynAck(w.sent[i], w.t.snd.iss, w.t.rcv.irs)))
    && (forall i, j :: 0 <= i < j < |w.sent| ==> w.sent[i].ackno <= w.sent[j].ackno)
  }

  lemma SynSent(t: Tcb, w: seq<Byte>)
    requires OutInv(t, w) && InBase(t) && t.armed && t.state.SynRecvd? && t.rcv.buf.size == BUFSIZE
    requires t.rcv.nxt == t.rcv.irs + 1
    ensures var e := SendReady(t);
      && e.alive && !e.t.armed && e.t.snd.nxt == t.snd.iss + 1 && e.sent == [e.sent[0]]
      && IsSynAck(e.sent[0], t.snd.iss, t.rcv.irs)
  {
  }

  lemma SentNumbers(t: Tcb, w: seq<Byte>)
    requires OutInv(t, w) && t.armed
    ensures var e := SendReady(t);
      && e.t.rcv.nxt == t.rcv.nxt && e.t.state == t.state
      && (e.sent == [] || (e.sent == [e.sent[0]] && Current(e.sent[0], t.rcv) && !e.sent[0].rst))
      && (e.sent != [] && e.sent[0].syn ==> t.state.SynRecvd?)
  {
  }

  lemma SendNumbered(w: World)
    requires WorldInv(w) && Numbered(w) && w.t.armed && w.t.rcv.buf.size == BUFSIZE
    ensures Numbered(Next(w, SendEvent))
  {
    SentNumbers(w.t, w.written);
    StepKeeps(w, SendEvent);
    assert w.sent + [] == w.sent;
    if w.t.state.SynRecvd? {
      SynSent(w.t, w.written);
    }
  }

  /** Outside the send event nothing is sent, and rcv_nxt does not fall. */
  lemma QuietNumbers(t: Tcb, w: seq<Byte>, e: Event)
    requires OutInv(t, w) && InBase(t) && Enabled(t, e) && Do(t, e).alive && !e.SendEvent?
    ensures Do(t, e).sent == [] && t.rcv.nxt <= Do(t, e).t.rcv.nxt
    ensures Do(t, e).t.state.SynRecvd? ==> t.state.SynRecvd? && Do(t, e).t.rcv.nxt == t.rcv.nxt
  {
    QuietLimit(t, w, e);
    if e.Arrives? {
      AckInv(t, w, e.seg, e.diff);
      AckSparesRcv(t, e.seg, e.diff);
      AckState(t, w, e.seg, e.diff);
      DataNumbers(AckPart(t, e.seg, e.diff).0, e.seg);
    }
  }

  lemma DataNumbers(t: Tcb, seg: Segment)
    ensures var t' := DataPart(t, seg).t;
      && t.rcv.nxt <= t'.rcv.nxt && (t'.state.SynRecvd? ==> t.state.SynRecvd? && t'.rcv.nxt == t.rcv.nxt)
  {
  }

  lemma StepNumbered(w: World, e: Event)
    requires WorldInv(w) && Numbered(w) && Enabled(w.t, e) && Do(w.t, e).alive && w.t.rcv.buf.size == BUFSIZE
    ensures Numbered(Next(w, e))
  {
    if e.SendEvent? {
      SendNumbered(w);
    } else {
      QuietNumbers(w.t, w.written, e);
      StepKeeps(w, e);
      assert w.sent + [] == w.sent;
    }
  }

  lemma {:induction false} RunNumbered(w: World, events: seq<Event>, w': World)
    requires WorldInv(w) && Numbered(w) && w.t.rcv.buf.size == BUFSIZE && Runs(w, events, w')
    ensures Numbered(w')
    decreases |events|
  {
    if events != [] {
      StepInv(w, events[0]);
      StepKeeps(w, events[0]);
      StepNumbered(w, events[0]);
      RunNumbered(Next(w, events[0]), events[1..], w');
    }
  }

  /** In every run: every SYN sent has sequence number iss and acknowledges the peer's SYN; every segment sent
      has the ACK flag; and acknowledgement numbers never fall, nor pass rcv_nxt. */
  lemma AcknowledgementsAdvance(seqno: int, wnd: nat, iss: int, events: seq<Event>, w: World)
    requires Runs(Start(seqno, wnd, iss), events, w)
    ensures forall i :: 0 <= i < |w.sent| ==>
      && w.sent[i].ack && !w.sent[i].rst && w.sent[i].ackno <= w.t.rcv.nxt
      && (w.sent[i].syn ==> w.sent[i].seqno == iss && w.sent[i].ackno == seqno + 1)
    ensures forall i, j :: 0 <= i < j < |w.sent| ==> w.sent[i].ackno <= w.sent[j].ackno
  {
    StartInv(seqno, wnd, iss);
    Reached(seqno, wnd, iss, events, w);
    RunNumbered(Start(seqno, wnd, iss), events, w);
  }

  /** The send event, armed at any point of a run, sends only segments that acknowledge rcv_nxt and offer the
      window; before the handshake it sends exactly the SYN-ACK. */
  lemma SentCurrent(seqno: int, wnd: nat, iss: int, events: seq<Event>, w: World)
    requires Runs(Start(seqno, wnd, iss), events, w) && w.t.armed
    ensures forall i :: 0 <= i < |SendReady(w.t).sent| ==> Current(SendReady(w.t).sent[i], w.t.rcv)
    ensures w.t.state.SynRecvd? ==>
      exists seg :: SendReady(w.t).sent == [seg] && IsSynAck(seg, iss, seqno) && !SendReady(w.t).t.armed
  {
    StartInv(seqno, wnd, iss);
    Reached(seqno, wnd, iss, events, w);
    RunNumbered(Start(seqno, wnd, iss), events, w);
    SentNumbers(w.t, w.written);
    if w.t.state.SynRecvd? {
      SynSent(w.t, w.written);
    }
  }

  // ----- Calls of the application, timers and resets -----

  /** What a SYN at the listener makes: nothing sent or owed yet, both buffers empty, each at the number after
      its SYN, and the window that the SYN offered, as far as one segment goes. */
  lemma OpenEffect(seqno: int, wnd: nat, iss: int)
    ensures var t := Open(seqno, wnd, iss);
      && t.state.SynRecvd? && t.attached && !t.armed
      && t.snd.iss == t.snd.una == t.snd.nxt == iss && t.snd.buf == Buf(16384, iss + 1, []) && t.snd.timer.Off?
      && t.snd.wnd == wnd && t.snd.cwnd == Least(1220, wnd) && t.snd.max == iss + t.snd.cwnd && t.snd.mss == 1220
      && t.snd.rttMark < iss && t.snd.rttLimit == iss + 1 && t.snd.est.srtt == 0 && t.snd.est.sdev == 0
      && t.rcv.irs == seqno && t.rcv.nxt == t.rcv.readSeq == seqno + 1 && t.rcv.wnd == 16384
      && t.rcv.buf == Buf(16384, seqno + 1, [])
  {
  }

  /** Accepting a session makes the next send event answer the SYN. */
  lemma AcceptEffect(seqno: int, wnd: nat, iss: int, events: seq<Event>, w: World)
    requires Runs(Start(seqno, wnd, iss), events, w) && Enabled(w.t, AppAccept)
    ensures TcpAccept(w.t) == w.t.(armed := true)
    ensures exists seg :: SendReady(TcpAccept(w.t)).sent == [seg] && IsSynAck(seg, iss, seqno)
  {
    StartInv(seqno, wnd, iss);
    Reached(seqno, wnd, iss, events, w);
    RunNumbered(Start(seqno, wnd, iss), events, w);
    SynSent(TcpAccept(w.t), w.written);
  }

  /** tcp_send takes the longest prefix that fits and changes nothing else, but arms the send event if the
      window is open. */
  lemma WriteEffect(seqno: int, wnd: nat, iss: int, events: seq<Event>, w: World, data: seq<Byte>)
    requires Runs(Start(seqno, wnd, iss), events, w) && w.t.state.Established?
    ensures Ready(w.t) && |w.t.snd.buf.held| <= 16384
    ensures var t, t', n := w.t, TcpSend(w.t, data), Least(|data|, 16384 - |w.t.snd.buf.held|);
      && t' == t.(armed := t.armed || t.snd.nxt < t.snd.max, snd := t.snd.(buf := t'.snd.buf))
      && t'.snd.buf.held == t.snd.buf.held + data[..n] && t'.snd.buf.end == t.snd.buf.end + n
      && Next(w, AppWrite(data)).written == w.written + data[..n]
  {
    Reached(seqno, wnd, iss, events, w);
    assert data[..|data|] == data;
  }

  /** A soft close detaches the application, asks for the FIN and offers 1000; a hard one, or one before the
      handshake, sends a reset and deletes the connection. */
  lemma CloseEffect(t: Tcb, hard: bool)
    requires t.state.SynRecvd? || t.state.Established?
    ensures var e := TcpClose(t, hard);
      if hard || t.state.SynRecvd? then
        && !e.alive && |e.sent| == 1 && e.calls == []
        && var seg := e.sent[0];
           && seg.rst && seg.ack && !seg.syn && !seg.fin && seg.payload == []
           && !seg.psh && seg.seqno == t.snd.nxt && seg.ackno == t.rcv.nxt && seg.wnd == t.rcv.wnd
      else
        && e.alive && e.sent == [] && e.calls == [] && e.t.state.FinWait1? && !e.t.attached && e.t.armed
        && e.t.snd == t.snd && e.t.rcv == t.rcv.(wnd := 1000)
  {
  }

  /** The retransmission timer: everything from snd_una on is to be sent again, one segment at first, and
      nothing of it is measured. */
  lemma TimeoutEffect(seqno: int, wnd: nat, iss: int, events: seq<Event>, w: World)
    requires Runs(Start(seqno, wnd, iss), events, w) && w.t.snd.timer.Retransmit?
    ensures var s, t' := w.t.snd, TcpTimeout(w.t);
      && t' == w.t.(armed := true, snd := t'.snd)
      && t'.snd == s.(nxt := s.una, timer := Off, rttMark := t'.snd.rttMark, cwnd := t'.snd.cwnd, max := t'.snd.max)
      && t'.snd.rttMark < s.una && t'.snd.cwnd == Least(1220, w.offered) && t'.snd.max == s.una + t'.snd.cwnd
  {
    StartInv(seqno, wnd, iss);
    Reached(seqno, wnd, iss, events, w);
    RunOffered(Start(seqno, wnd, iss), events, w);
  }

  /** A reset, and the removal timer, end the connection without a word to the peer; the application is told
      of a reset if it is attached. */
  lemma EndEffect(t: Tcb, e: Event)
    requires Ready(t) && Enabled(t, e) && (e.RemoveTimer? || (e.Arrives? && e.seg.rst))
    ensures !Do(t, e).alive && Do(t, e).sent == []
    ensures Do(t, e).calls == if e.Arrives? && t.attached then [ClosingCall(true)] else []
  {
  }

  // ----- Callbacks -----

  lemma AckCallsAre(t: Tcb, w: seq<Byte>, seg: Segment, diff: int)
    requires OutInv(t, w) && Honest(t, seg) && t.snd.buf.size == BUFSIZE
    ensures var t1 := AckPart(t, seg, diff).0;
      AckCalls(t, seg, t1) ==
        if (t.state.Established? && AckedUpTo(t.snd, seg) > t.snd.una) || (t.state.SynRecvd? && seg.ack)
        then [OutputSpace(16384 - (t.snd.buf.end - AckedUpTo(t.snd, seg)))] else []
  {
    AckState(t, w, seg, diff);
    if seg.ack && seg.ackno > t.snd.una && (t.state.Established? || t.state.SynRecvd?) {
      AckedRoom(t.snd, t.state, t.armed, w, seg.ackno, diff);
    }
  }

  lemma AckedRoom(s: Snd, st: State, armed: bool, w: seq<Byte>, ack: int, diff: int)
    requires SndInv(s, st, armed, w) && s.una < ack <= s.rttLimit && (st.Established? || st.SynRecvd?)
    ensures |Acked(s, st, ack, diff).buf.held| == s.buf.end - ack && Acked(s, st, ack, diff).buf.size == s.buf.size
  {
  }

  lemma DataCallsAre(t: Tcb, w: seq<Byte>, seg: Segment)
    requires OutInv(t, w) && InBase(t)
    ensures var e, taken := DataPart(t, seg), t.state.Established? && seg.seqno >= t.rcv.nxt;
      e.calls == (if taken && seg.payload != [] then [DataAvailable(|e.t.rcv.buf.held|)] else []) +
                 (if taken && seg.fin then [ClosingCall(false)] else [])
  {
  }

  /** Which callbacks a segment makes: new acknowledgements, and the end of the handshake, announce the room in
      the output buffer; data that is taken in announces how much can be read; and a FIN announces the
      close. */
  lemma SegmentCalls(seqno: int, wnd: nat, iss: int, events: seq<Event>, w: World, seg: Segment, diff: int)
    requires Runs(Start(seqno, wnd, iss), events, w) && !seg.rst && Honest(w.t, seg) && w.t.attached
    ensures Ready(w.t)
    ensures var s, e, a := w.t.snd, Receive(w.t, seg, diff), AckedUpTo(w.t.snd, seg);
      e.calls ==
        (if a > s.una then [OutputSpace(16384 - (s.buf.end - a))] else []) +
        (if TakesIn(w.t, seg) && seg.payload != [] then [DataAvailable(|e.t.rcv.buf.held|)] else []) +
        (if TakesIn(w.t, seg) && seg.fin then [ClosingCall(false)] else [])
  {
    Reached(seqno, wnd, iss, events, w);
    CallsAre(w.t, w.written, seg, diff);
  }

  lemma CallsAre(t: Tcb, w: seq<Byte>, seg: Segment, diff: int)
    requires OutInv(t, w) && InBase(t) && !seg.rst && Honest(t, seg) && t.attached && t.snd.buf.size == BUFSIZE
    ensures var s, e, a := t.snd, Receive(t, seg, diff), AckedUpTo(t.snd, seg);
      e.calls ==
        (if a > s.una then [OutputSpace(16384 - (s.buf.end - a))] else []) +
        (if TakesIn(t, seg) && seg.payload != [] then [DataAvailable(|e.t.rcv.buf.held|)] else []) +
        (if TakesIn(t, seg) && seg.fin then [ClosingCall(false)] else [])
  {
    AckInv(t, w, seg, diff);
    AckState(t, w, seg, diff);
    AckCallsAre(t, w, seg, diff);
    AckSparesRcv(t, seg, diff);
    AckSparesCallbacks(t, seg, diff);
    StopsEarly(t, seg, diff);
    var (t1, v) := AckPart(t, seg, diff);
    var e, d := Receive(t, seg, diff), DataPart(t1, seg);
    assert v.Continue? && e.t == d.t && e.calls == AckCalls(t, seg, t1) + d.calls;
    assert TakesIn(t, seg) <==> t1.state.Established? && seg.seqno >= t1.rcv.nxt;
    assert AckedUpTo(t.snd, seg) > t.snd.una ==> t.state.Established? || (t.state.SynRecvd? && seg.ack);
    DataCallsAre(t1, w, seg);
  }
}
