/** What every run of the endpoint keeps, against a peer that acknowledges only what was sent. */
module TcpRuns {
  import opened Basics
  import opened StreamBuffer
  import opened TcpModel

  /** The endpoint, with the application's whole output and input and all that went out. `fitting`
      says whether every payload taken in so far fitted the window offered, and `offered` is the last
      window the peer has offered. */
  datatype World = World(t: Tcb, written: seq<Byte>, accepted: seq<Byte>, read: seq<Byte>, sent: seq<Segment>,
                         fitting: bool, offered: int)

  datatype Event =
    | Arrives(seg: Segment, diff: int)
    | SendEvent
    | RetransmitTimer
    | RemoveTimer
    | AppAccept
    | AppWrite(data: seq<Byte>)
    | AppRead(len: nat)
    | AppClose(hard: bool)

  /** The peer acknowledges only after our SYN and only what was sent, and until it has, its
      segments are repetitions of its SYN. */
  predicate Honest(t: Tcb, seg: Segment) {
    && seg.wnd >= 0
    && (seg.ack ==> t.snd.iss + 1 <= seg.ackno <= t.snd.rttLimit)
    && (t.state.SynRecvd? ==> if seg.ack then t.snd.nxt == t.snd.iss + 1 else seg.seqno < t.rcv.nxt)
  }

  /** When each event can happen: an event must be armed; the application accepts before the SYN
      is answered, writes while the connection is established, and does nothing after close. */
  predicate Enabled(t: Tcb, e: Event) {
    match e
    case Arrives(seg, _) => seg.rst || Honest(t, seg)
    case SendEvent => t.armed
    case RetransmitTimer => t.snd.timer.Retransmit?
    case RemoveTimer => t.snd.timer.Remove?
    case AppAccept => t.state.SynRecvd? && t.snd.nxt == t.snd.iss
    case AppWrite(_) => t.state.Established?
    case AppRead(_) => t.attached
    case AppClose(_) => t.attached
  }

  /** The payload that a segment adds to the input buffer. */
  function Taken(t: Tcb, seg: Segment, diff: int): seq<Byte>
    requires t.snd.buf.Base() <= t.snd.una + 1
  {
    if seg.rst then [] else
    var (t1, v) := AckPart(t, seg, diff);
    if v.Continue? && seg.seqno >= t1.rcv.nxt && t1.state.Established? then seg.payload else []
  }

  /** Whether `seg` leaves everything sent so far acknowledged. */
  predicate AcksAll(t: Tcb, seg: Segment) {
    seg.ack && if seg.ackno > t.snd.una then seg.ackno >= t.snd.nxt else t.snd.una == t.snd.nxt
  }

  /** The segments whose window counts: not old ones, nor those that find all acknowledged in CLOSING
      or LAST_ACK. */
  predicate OffersWindow(t: Tcb, seg: Segment) {
    !seg.rst && seg.seqno >= t.rcv.nxt && !((t.state.Closing? || t.state.LastAck?) && AcksAll(t, seg))
  }

  predicate Ready(t: Tcb) {
    t.snd.buf.Base() <= t.snd.una + 1 && (t.attached ==> t.rcv.buf.Base() <= t.rcv.readSeq)
  }

  function Do(t: Tcb, e: Event): Effect
    requires Ready(t) && Enabled(t, e)
  {
    match e
    case Arrives(seg, diff) => Receive(t, seg, diff)
    case SendEvent => SendReady(t)
    case RetransmitTimer => Effect(true, TcpTimeout(t), [], [])
    case RemoveTimer => Effect(false, t, [], [])
    case AppAccept => Effect(true, TcpAccept(t), [], [])
    case AppWrite(data) => Effect(true, TcpSend(t, data), [], [])
    case AppRead(len) => Effect(true, TcpRead(t, len), [], [])
    case AppClose(hard) => TcpClose(t, hard)
  }

  function Next(w: World, e: Event): World
    requires Ready(w.t) && Enabled(w.t, e)
  {
    World(Do(w.t, e).t,
          w.written + (if e.AppWrite? then w.t.snd.buf.Accepted(e.data) else []),
          w.accepted + (if e.Arrives? then Taken(w.t, e.seg, e.diff) else []),
          w.read + (if e.AppRead? then ReadBytes(w.t.rcv, e.len) else []),
          w.sent + Do(w.t, e).sent,
          w.fitting && (e.Arrives? ==> |Taken(w.t, e.seg, e.diff)| <= w.t.rcv.wnd),
          if e.Arrives? && OffersWindow(w.t, e.seg) then e.seg.wnd else w.offered)
  }

  // ----- The sending side -----

  predicate Handshaken(s: State) { !s.SynRecvd? }

  predicate Done(s: State) { s.FinWait2? || s.TimeWait? }

  /** base <= snd_una <= snd_nxt <= highest sent <= end + 1, with what each state adds. */
  ghost predicate Sequenced(s: Snd, st: State, armed: bool, w: seq<Byte>) {
    && WindowOf(s.buf, s.iss + 1, w)
    && s.una <= s.nxt <= s.rttLimit <= s.buf.end + 1
    && (st.SynRecvd? ==> w == [] && s.una == s.iss && s.rttLimit == s.iss + 1 && (armed ==> s.nxt == s.iss))
    && (Handshaken(st) ==> s.buf.Base() <= s.una)
    && (st.Established? ==> s.buf.Base() == s.una && s.rttLimit <= s.buf.end)
    && (SendsFin(st) ==> s.una <= s.buf.end)
    && (Done(st) ==> s.una == s.buf.end + 1)
  }

  /** The timer is of the kind its state has, and it is armed whenever something is outstanding,
      a FIN sent on its own excepted. */
  predicate Timed(s: Snd, st: State) {
    && (s.timer.Retransmit? ==> s.mark <= s.rttLimit && (st.Established? || SendsFin(st)))
    && (s.timer.Retransmit? ==> 500 <= s.timer.delay <= 30000)
    && (s.timer.Remove? <==> st.TimeWait?)
    && (Handshaken(st) && s.una < s.nxt && !s.timer.Retransmit? ==> s.una == s.buf.end && s.nxt == s.buf.end + 1)
  }

  /** Whether there is anything to send in an open window: data, or in a closing state the FIN. */
  predicate Sendable(s: Snd, st: State) {
    && s.nxt < s.max
    && ((st.Established? && s.nxt < s.buf.end) ||
        ((st.FinWait1? || st.Closing? || st.LastAck?) && s.nxt <= s.buf.end))
  }

  /** The usable window ends within what the peer offered; and whenever there is something to send
      in it, the send event is armed. */
  predicate Windowed(s: Snd, st: State, armed: bool) {
    && s.mss == MSS && s.wnd >= 0 && s.cwnd >= 0 && s.max <= s.una + s.wnd
    && (Sendable(s, st) ==> armed)
  }

  ghost predicate SndInv(s: Snd, st: State, armed: bool, w: seq<Byte>) {
    Sequenced(s, st, armed, w) && Timed(s, st) && Windowed(s, st, armed)
  }

  /** The callback table is attached exactly before close. */
  predicate Attachment(t: Tcb) {
    !t.state.CloseWait? && (t.attached <==> t.state.SynRecvd? || t.state.Established?)
  }

  ghost predicate OutInv(t: Tcb, w: seq<Byte>) {
    SndInv(t.snd, t.state, t.armed, w) && Attachment(t)
  }

  // ----- Acknowledgements -----

  lemma AckedSyn(t: Tcb, w: seq<Byte>, ack: int, diff: int)
    requires OutInv(t, w) && t.state.SynRecvd? && t.snd.una < ack <= t.snd.rttLimit && t.snd.nxt == t.snd.iss + 1
    ensures var (t', v) := AllAcked(t.(snd := Acked(t.snd, t.state, ack, diff)));
      OutInv(t', w) && t'.snd.una == ack && t'.state.Established?
  {
    var s := Acked(t.snd, t.state, ack, diff);
    assert s == t.snd.(una := ack, nxt := ack, est := s.est);
    SynAckedInv(t.snd, s, t.armed, w);
  }

  lemma SynAckedInv(s: Snd, s': Snd, armed: bool, w: seq<Byte>)
    requires SndInv(s, SynRecvd, armed, w) && s.nxt == s.iss + 1
    requires s' == s.(una := s.nxt, nxt := s.nxt, est := s'.est)
    ensures SndInv(s', Established, armed, w)
  {
  }

  lemma MovedInv(s: Snd, armed: bool, w: seq<Byte>, ack: int)
    requires SndInv(s, Established, armed, w) && s.una < ack <= s.rttLimit
    ensures SndInv(Moved(s, ack).(buf := s.buf.Advance(ack)), Established, armed, w)
  {
    AdvanceWindow(s.buf, s.iss + 1, w, ack);
  }

  lemma RetimedInv(s: Snd, armed: bool, w: seq<Byte>)
    requires SndInv(s, Established, armed, w)
    ensures SndInv(Retimed(s, s.una), Established, armed, w)
  {
  }

  lemma AckedEstablished(s: Snd, armed: bool, w: seq<Byte>, ack: int, diff: int)
    requires SndInv(s, Established, armed, w) && s.una < ack <= s.rttLimit
    ensures SndInv(Acked(s, Established, ack, diff), Established, armed, w)
  {
    var s1 := Sampled(s, ack, diff);
    MovedInv(s1, armed, w, ack);
    RetimedInv(Moved(s1, ack).(buf := s1.buf.Advance(ack)), armed, w);
  }

  /** In the states that send a FIN: either not all is acknowledged yet, or all is, the FIN
      included, and then the timer is off. */
  lemma AckedClosing(s: Snd, st: State, armed: bool, w: seq<Byte>, ack: int, diff: int)
    requires SndInv(s, st, armed, w) && SendsFin(st) && s.una < ack <= s.rttLimit
    ensures var s' := Acked(s, st, ack, diff);
      && s'.una == ack
      && (ack <= s.buf.end ==> SndInv(s', st, armed, w))
      && (ack == s.buf.end + 1 ==> SndInv(s', FinWait2, armed, w) && s'.nxt == ack)
  {
  }

  lemma AckedInv(t: Tcb, w: seq<Byte>, ack: int, diff: int)
    requires OutInv(t, w) && t.snd.una < ack <= t.snd.rttLimit
    requires t.state.SynRecvd? ==> t.snd.nxt == t.snd.iss + 1
    ensures var (t', v) := AllAcked(t.(snd := Acked(t.snd, t.state, ack, diff)));
      v.Delete? || (OutInv(t', w) && t'.snd.una == ack && Handshaken(t'.state))
  {
    if t.state.SynRecvd? {
      AckedSyn(t, w, ack, diff);
    } else if t.state.Established? {
      AckedEstablished(t.snd, t.armed, w, ack, diff);
      assert Acked(t.snd, Established, ack, diff).una == ack;
    } else {
      assert SendsFin(t.state);
      AckedInClosing(t, w, ack, diff);
    }
  }

  lemma AckedInClosing(t: Tcb, w: seq<Byte>, ack: int, diff: int)
    requires OutInv(t, w) && SendsFin(t.state) && t.snd.una < ack <= t.snd.rttLimit
    ensures var (t', v) := AllAcked(t.(snd := Acked(t.snd, t.state, ack, diff)));
      v.Delete? || (OutInv(t', w) && t'.snd.una == ack && Handshaken(t'.state))
  {
    AckedClosing(t.snd, t.state, t.armed, w, ack, diff);
    ClosingAcked(t, w, t.(snd := Acked(t.snd, t.state, ack, diff)), ack);
  }

  /** The state change after such an acknowledgement. */
  lemma ClosingAcked(t: Tcb, w: seq<Byte>, t1: Tcb, ack: int)
    requires OutInv(t, w) && SendsFin(t.state) && t1 == t.(snd := t1.snd) && t1.snd.una == ack <= t1.snd.buf.end + 1
    requires ack <= t1.snd.buf.end ==> SndInv(t1.snd, t.state, t.armed, w)
    requires ack == t1.snd.buf.end + 1 ==> SndInv(t1.snd, FinWait2, t.armed, w) && t1.snd.nxt == ack
    ensures var (t', v) := AllAcked(t1); v.Delete? || (OutInv(t', w) && t'.snd.una == ack && Handshaken(t'.state))
  {
  }

  /** The ACK part keeps the invariant, and snd_una does not decrease. */
  lemma AckInv(t: Tcb, w: seq<Byte>, seg: Segment, diff: int)
    requires OutInv(t, w) && Honest(t, seg)
    ensures var (t', v) := AckPart(t, seg, diff);
      v.Delete? || (OutInv(t', w) && t.snd.una <= t'.snd.una && (seg.ack ==> Handshaken(t'.state)))
  {
    if seg.ack && seg.ackno > t.snd.una {
      AckedInv(t, w, seg.ackno, diff);
    }
  }

  // ----- The rest of a segment -----

  lemma NewWindowInv(t: Tcb, w: seq<Byte>, wnd: nat)
    requires OutInv(t, w) && Handshaken(t.state)
    ensures OutInv(NewWindow(t, wnd), w)
  {
  }

  lemma ByStateInv(t: Tcb, w: seq<Byte>, seg: Segment)
    requires OutInv(t, w) && Handshaken(t.state)
    ensures var e := ByState(t, seg); e.alive && OutInv(e.t, w) && e.t.snd.una == t.snd.una
  {
    assert RecvData(t, seg).snd == t.snd && RecvData(t, seg).attached == t.attached;
  }

  lemma DataPartInv(t: Tcb, w: seq<Byte>, seg: Segment)
    requires OutInv(t, w) && seg.wnd >= 0 && (t.state.SynRecvd? ==> seg.seqno < t.rcv.nxt)
    ensures var e := DataPart(t, seg); e.alive && OutInv(e.t, w) && e.t.snd.una == t.snd.una
  {
    if seg.seqno >= t.rcv.nxt {
      NewWindowInv(t, w, seg.wnd);
      ByStateInv(NewWindow(t, seg.wnd), w, seg);
    }
  }

  lemma ReceiveInv(t: Tcb, w: seq<Byte>, seg: Segment, diff: int)
    requires OutInv(t, w) && (seg.rst || Honest(t, seg))
    ensures var e := Receive(t, seg, diff); e.alive ==> OutInv(e.t, w) && t.snd.una <= e.t.snd.una
  {
    if !seg.rst {
      AckInv(t, w, seg, diff);
      var (t1, v) := AckPart(t, seg, diff);
      if v.Continue? {
        DataPartInv(t1, w, seg);
      }
    }
  }

  // ----- Sending -----

  /** The bytes to be sent are the application's at that sequence number, and with the FIN they
      end within the window. */
  lemma PendingOk(s: Snd, st: State, armed: bool, w: seq<Byte>)
    requires SndInv(s, st, armed, w) && Handshaken(st)
    ensures var k, n, fin := s.nxt - (s.iss + 1), |Pending(s)|, FinDue(s, st);
      && (n > 0 || fin ==> s.nxt + n + (if fin then 1 else 0) <= s.max)
      && (n > 0 ==> 0 <= k && k + n <= |w| && Pending(s) == w[k..k + n])
      && (fin ==> k + n == |w|)
    ensures WindowSize(s) > 0 && s.buf.Avail(s.nxt) > 0 ==>
      |Pending(s)| == Least(Least(s.buf.Avail(s.nxt), s.mss), WindowSize(s))
  {
    var wnd, avail := WindowSize(s), s.buf.Avail(s.nxt);
    if wnd > 0 && avail > 0 {
      ReadStream(s.buf, s.iss + 1, w, s.nxt, Least(Least(avail, s.mss), wnd));
    }
  }

  lemma SentInv(s: Snd, st: State, w: seq<Byte>)
    requires SndInv(s, st, true, w) && Handshaken(st) && !st.CloseWait?
    ensures var s' := AfterSend(s, st); SndInv(s', st, MoreToSend(s', st), w)
  {
    PendingOk(s, st, true, w);
  }

  lemma SendReadyInv(t: Tcb, w: seq<Byte>)
    requires OutInv(t, w) && t.armed
    ensures OutInv(SendReady(t).t, w)
  {
    if Handshaken(t.state) {
      PendingOk(t.snd, t.state, t.armed, w);
      SentInv(t.snd, t.state, w);
    }
  }

  lemma TcpSendInv(t: Tcb, w: seq<Byte>, data: seq<Byte>)
    requires OutInv(t, w) && t.state.Established?
    ensures OutInv(TcpSend(t, data), w + t.snd.buf.Accepted(data))
  {
    WriteWindow(t.snd.buf, t.snd.iss + 1, w, data);
  }

  /** Going back to snd_una keeps the invariant: all that is to be sent again is still buffered. */
  lemma TimeoutInv(t: Tcb, w: seq<Byte>)
    requires OutInv(t, w) && t.snd.timer.Retransmit?
    ensures OutInv(TcpTimeout(t), w)
  {
  }

  // ----- The receiving side -----

  /** While the application is attached, the input buffer starts at read_seq and the window offered
      is the room left in it. */
  predicate InBase(t: Tcb) {
    var b := t.rcv.buf;
    t.attached ==>
      && b.Base() == t.rcv.readSeq && |b.held| <= b.size && b.size > 0 && t.rcv.wnd == b.Left()
      && (t.state.SynRecvd? ==> b.held == [])
  }

  /** While the application is attached: what it has read, followed by what is buffered, is what
      was accepted, and rcv_nxt counts it. */
  ghost predicate InInv(t: Tcb, accepted: seq<Byte>, read: seq<Byte>) {
    var r := t.rcv;
    t.attached ==>
      r.buf.end == r.nxt && accepted == read + r.buf.held && r.readSeq == r.irs + 1 + |read|
  }

  lemma DataPartBase(t: Tcb, seg: Segment)
    requires InBase(t) && Attachment(t)
    ensures InBase(DataPart(t, seg).t)
  {
  }

  lemma DataPartIn(t: Tcb, seg: Segment, accepted: seq<Byte>, read: seq<Byte>)
    requires InBase(t) && InInv(t, accepted, read) && Attachment(t)
    requires t.state.Established? && seg.seqno >= t.rcv.nxt ==> |seg.payload| <= t.rcv.wnd
    ensures InInv(DataPart(t, seg).t,
                  accepted + if seg.seqno >= t.rcv.nxt && t.state.Established? then seg.payload else [], read)
  {
  }

  lemma AckSparesRcv(t: Tcb, seg: Segment, diff: int)
    requires t.snd.buf.Base() <= t.snd.una + 1
    ensures AckPart(t, seg, diff).0.rcv == t.rcv
  {
  }

  lemma ReceiveBase(t: Tcb, w: seq<Byte>, seg: Segment, diff: int)
    requires OutInv(t, w) && (seg.rst || Honest(t, seg)) && InBase(t)
    ensures var e := Receive(t, seg, diff); e.alive ==> InBase(e.t)
  {
    if !seg.rst {
      AckInv(t, w, seg, diff);
      AckSparesRcv(t, seg, diff);
      var (t1, v) := AckPart(t, seg, diff);
      if v.Continue? {
        DataPartBase(t1, seg);
      }
    }
  }

  lemma ReceiveIn(t: Tcb, w: seq<Byte>, seg: Segment, diff: int, accepted: seq<Byte>, read: seq<Byte>)
    requires OutInv(t, w) && (seg.rst || Honest(t, seg)) && InBase(t) && InInv(t, accepted, read)
    requires |Taken(t, seg, diff)| <= t.rcv.wnd
    ensures var e := Receive(t, seg, diff); e.alive ==> InInv(e.t, accepted + Taken(t, seg, diff), read)
  {
    assert accepted + [] == accepted;
    if !seg.rst {
      AckInv(t, w, seg, diff);
      AckSparesRcv(t, seg, diff);
      var (t1, v) := AckPart(t, seg, diff);
      if v.Continue? {
        DataPartIn(t1, seg, accepted, read);
      }
    }
  }

  lemma ReadIn(t: Tcb, len: nat, accepted: seq<Byte>, read: seq<Byte>)
    requires InBase(t) && t.attached
    ensures InBase(TcpRead(t, len))
    ensures InInv(t, accepted, read) ==> InInv(TcpRead(t, len), accepted, read + ReadBytes(t.rcv, len))
  {
  }

  // ----- The path through the states -----

  predicate Edge(a: State, b: State) {
    match a
    case SynRecvd => b.Established?
    case Established => b.FinWait1? || b.CloseWait?
    case CloseWait => b.LastAck?
    case FinWait1 => b.FinWait2? || b.Closing?
    case FinWait2 => b.TimeWait?
    case Closing => b.TimeWait?
    case _ => false
  }

  ghost predicate OnPath(t: Tcb) {
    && t.trail != [] && t.trail[0] == SynRecvd && t.trail[|t.trail| - 1] == t.state
    && forall i :: 0 < i < |t.trail| ==> Edge(t.trail[i - 1], t.trail[i])
  }

  lemma EnterPath(t: Tcb, s: State)
    requires OnPath(t) && Edge(t.state, s)
    ensures OnPath(Enter(t, s))
  {
  }

  lemma AckPath(t: Tcb, seg: Segment, diff: int)
    requires OnPath(t) && t.snd.buf.Base() <= t.snd.una + 1
    ensures OnPath(AckPart(t, seg, diff).0)
  {
    AllAckedPath(t);
    if seg.ack && seg.ackno > t.snd.una {
      AllAckedPath(t.(snd := Acked(t.snd, t.state, seg.ackno, diff)));
    }
  }

  lemma AllAckedPath(t: Tcb)
    requires OnPath(t)
    ensures OnPath(AllAcked(t).0)
  {
  }

  lemma DataPath(t: Tcb, seg: Segment)
    requires OnPath(t)
    ensures OnPath(DataPart(t, seg).t)
  {
    var t1 := RecvData(NewWindow(t, seg.wnd), seg);
    if t.state.Established? {
      EnterPath(t1, CloseWait);
      EnterPath(Enter(t1, CloseWait), LastAck);
    }
  }

  // ----- What went out -----

  /** `seg` carries the application's bytes at their sequence numbers, its FIN sits right after
      the last of them, and its SYN at iss. */
  ghost predicate Carries(seg: Segment, w: seq<Byte>, iss: int) {
    var k, n := seg.seqno - (iss + 1), |seg.payload|;
    && (seg.payload != [] ==> 0 <= k && k + n <= |w| && seg.payload == w[k..k + n])
    && (seg.fin ==> k + n == |w|)
    && (seg.syn ==> seg.seqno == iss)
  }

  /** A data or FIN segment does not reach beyond `edge`, and its payload is not longer than the maximum
      segment size, 1220 bytes. */
  predicate Fits(seg: Segment, edge: int) {
    |seg.payload| <= 1220 &&
    (seg.payload != [] || seg.fin ==> seg.seqno + |seg.payload| + (if seg.fin then 1 else 0) <= edge)
  }

  lemma EmitOk(t: Tcb, w: seq<Byte>)
    requires OutInv(t, w) && t.armed
    ensures forall i :: 0 <= i < |SendReady(t).sent| ==>
      var seg := SendReady(t).sent[i];
      && Carries(seg, w, t.snd.iss) && Fits(seg, t.snd.una + t.snd.wnd) && (seg.fin ==> SendsFin(t.state))
      && (seg.psh <==> seg.payload != [] && seg.seqno - (t.snd.iss + 1) + |seg.payload| == |w|)
  {
    if Handshaken(t.state) {
      PendingOk(t.snd, t.state, t.armed, w);
      PushOk(t.snd, t.state, t.armed, w);
      var e, seg := SendReady(t), Header(t, false, FinDue(t.snd, t.state), false, PushDue(t.snd), Pending(t.snd));
      assert e.sent == [] || e.sent == [seg];
      assert Carries(seg, w, t.snd.iss) && Fits(seg, t.snd.una + t.snd.wnd);
    }
  }

  /** PSH goes with the last byte written. */
  lemma PushOk(s: Snd, st: State, armed: bool, w: seq<Byte>)
    requires SndInv(s, st, armed, w) && Handshaken(st)
    ensures PushDue(s) <==> Pending(s) != [] && s.nxt - (s.iss + 1) + |Pending(s)| == |w|
  {
    PendingOk(s, st, armed, w);
  }

  // ----- Steps -----

  ghost predicate WorldInv(w: World) {
    && OutInv(w.t, w.written) && OnPath(w.t)
    && InBase(w.t) && (w.fitting ==> InInv(w.t, w.accepted, w.read))
    && (forall i :: 0 <= i < |w.sent| ==> Carries(w.sent[i], w.written, w.t.snd.iss))
    && (w.t.attached ==> forall i :: 0 <= i < |w.sent| ==> !w.sent[i].fin)
  }

  lemma TcpReadInv(t: Tcb, w: seq<Byte>, len: nat)
    requires OutInv(t, w) && InBase(t) && t.attached
    ensures OutInv(TcpRead(t, len), w)
  {
  }

  lemma TcpCloseInv(t: Tcb, w: seq<Byte>)
    requires OutInv(t, w) && t.state.Established?
    ensures OutInv(TcpClose(t, false).t, w)
  {
  }

  /** One event, on the sending side. */
  lemma DoOut(t: Tcb, w: seq<Byte>, e: Event)
    requires OutInv(t, w) && InBase(t) && Enabled(t, e) && Do(t, e).alive
    ensures OutInv(Do(t, e).t, w + if e.AppWrite? then t.snd.buf.Accepted(e.data) else [])
    ensures t.snd.una <= Do(t, e).t.snd.una
  {
    assert w + [] == w;
    match e
    case Arrives(seg, diff) => ReceiveInv(t, w, seg, diff);
    case SendEvent => SendReadyInv(t, w);
    case RetransmitTimer => TimeoutInv(t, w);
    case RemoveTimer =>
    case AppAccept =>
    case AppWrite(data) => TcpSendInv(t, w, data);
    case AppRead(len) => TcpReadInv(t, w, len);
    case AppClose(hard) => TcpCloseInv(t, w);
  }

  lemma StepOut(w: World, e: Event)
    requires WorldInv(w) && Enabled(w.t, e) && Do(w.t, e).alive
    ensures OutInv(Do(w.t, e).t, Next(w, e).written) && w.t.snd.una <= Do(w.t, e).t.snd.una
  {
    DoOut(w.t, w.written, e);
  }

  lemma StepIn(w: World, e: Event)
    requires WorldInv(w) && Enabled(w.t, e) && Do(w.t, e).alive
    ensures var w' := Next(w, e); InBase(w'.t) && (w'.fitting ==> InInv(w'.t, w'.accepted, w'.read))
  {
    assert w.accepted + [] == w.accepted && w.read + [] == w.read;
    match e
    case Arrives(seg, diff) =>
      ReceiveBase(w.t, w.written, seg, diff);
      if Next(w, e).fitting {
        ReceiveIn(w.t, w.written, seg, diff, w.accepted, w.read);
      }
    case AppRead(len) => ReadIn(w.t, len, w.accepted, w.read);
    case _ =>
  }

  lemma StepPath(w: World, e: Event)
    requires WorldInv(w) && Enabled(w.t, e) && Do(w.t, e).alive
    ensures OnPath(Do(w.t, e).t)
  {
    match e
    case Arrives(seg, diff) =>
      if !seg.rst {
        AckPath(w.t, seg, diff);
        DataPath(AckPart(w.t, seg, diff).0, seg);
      }
    case AppClose(hard) => EnterPath(w.t, FinWait1);
    case _ =>
  }

  /** The initial sequence numbers and the buffer sizes stay, and detaching is for good. */
  predicate Keeps(t: Tcb, t': Tcb) {
    && t'.snd.iss == t.snd.iss && t'.rcv.irs == t.rcv.irs
    && t'.snd.buf.size == t.snd.buf.size && t'.rcv.buf.size == t.rcv.buf.size
    && (t'.attached ==> t.attached)
  }

  lemma AckKeeps(t: Tcb, seg: Segment, diff: int)
    requires t.snd.buf.Base() <= t.snd.una + 1
    ensures Keeps(t, AckPart(t, seg, diff).0)
  {
    if seg.ack && seg.ackno > t.snd.una {
      var s := Acked(t.snd, t.state, seg.ackno, diff);
      assert s.iss == t.snd.iss && s.buf.size == t.snd.buf.size;
    }
  }

  lemma DataKeeps(t: Tcb, seg: Segment)
    ensures Keeps(t, DataPart(t, seg).t)
  {
  }

  lemma StepKeeps(w: World, e: Event)
    requires WorldInv(w) && Enabled(w.t, e) && Do(w.t, e).alive
    ensures Keeps(w.t, Do(w.t, e).t)
  {
    if e.Arrives? && !e.seg.rst {
      AckKeeps(w.t, e.seg, e.diff);
      DataKeeps(AckPart(w.t, e.seg, e.diff).0, e.seg);
    } else if e.SendEvent? {
      var s := AfterSend(w.t.snd, w.t.state);
      assert s.iss == w.t.snd.iss && s.buf == w.t.snd.buf;
    }
  }

  lemma ReceiveSilent(t: Tcb, seg: Segment, diff: int)
    requires t.snd.buf.Base() <= t.snd.una + 1
    ensures Receive(t, seg, diff).sent == []
  {
    if !seg.rst {
      assert DataPart(AckPart(t, seg, diff).0, seg).sent == [];
    }
  }

  /** What was sent stays right when the application writes more, a FIN excepted. */
  lemma CarriesMore(seg: Segment, w: seq<Byte>, more: seq<Byte>, iss: int)
    requires Carries(seg, w, iss) && !seg.fin
    ensures Carries(seg, w + more, iss)
  {
  }

  lemma StepSent(w: World, e: Event)
    requires WorldInv(w) && Enabled(w.t, e) && Do(w.t, e).alive
    ensures var w' := Next(w, e);
      && (forall i :: 0 <= i < |w'.sent| ==> Carries(w'.sent[i], w'.written, w.t.snd.iss))
      && (w'.t.attached ==> forall i :: 0 <= i < |w'.sent| ==> !w'.sent[i].fin)
  {
    StepKeeps(w, e);
    assert w.written + [] == w.written && w.sent + [] == w.sent;
    match e
    case SendEvent => EmitOk(w.t, w.written);
    case Arrives(seg, diff) => ReceiveSilent(w.t, seg, diff);
    case AppWrite(data) =>
      forall i | 0 <= i < |w.sent| ensures Carries(w.sent[i], Next(w, e).written, w.t.snd.iss) {
        CarriesMore(w.sent[i], w.written, w.t.snd.buf.Accepted(data), w.t.snd.iss);
      }
    case _ =>
  }

  /** One step keeps everything. */
  lemma StepInv(w: World, e: Event)
    requires WorldInv(w) && Enabled(w.t, e) && Do(w.t, e).alive
    ensures WorldInv(Next(w, e))
  {
    StepOut(w, e);
    StepIn(w, e);
    StepPath(w, e);
    StepKeeps(w, e);
    StepSent(w, e);
  }
}
