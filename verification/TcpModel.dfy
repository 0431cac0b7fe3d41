/** The handlers of tcp.c as functions on the control block. Sequence numbers are unbounded. The
    fields of the control block are grouped by the direction they serve. */
module TcpModel {
  import opened Basics
  import opened StreamBuffer
  import Rtt

  datatype State = SynRecvd | Established | FinWait1 | FinWait2 | CloseWait | Closing | LastAck | TimeWait

  /** What e_timeout holds: nothing, the retransmission timer, or the removal timer. */
  datatype Timer = Off | Retransmit(delay: int) | Remove

  datatype Callback = OutputSpace(space: int) | DataAvailable(length: int) | ClosingCall(hard: bool)

  datatype Segment = Segment(seqno: int, ackno: int, wnd: int, syn: bool, fin: bool, rst: bool, psh: bool, ack: bool,
                             payload: seq<Byte>)

  const MSS := 1220
  const BUFSIZE := 16384

  /** outbuf, snd_una, snd_nxt, snd_wnd, snd_cwnd, snd_max, iss, mss, timeout_mark, rtt_mark,
      rtt_limit, srtt and sdev, e_timeout */
  datatype Snd = Snd(buf: Buf, una: int, nxt: int, wnd: int, cwnd: int, max: int, iss: int, mss: int,
                     mark: int, rttMark: int, rttLimit: int, est: Rtt.Est, timer: Timer)

  /** inbuf, irs, rcv_nxt, rcv_wnd, read_seq, last_acked */
  datatype Rcv = Rcv(buf: Buf, irs: int, nxt: int, wnd: int, readSeq: int, lastAcked: int)

  /** `trail` records the states gone through, `attached` whether the callback table is set, and
      `armed` whether the send event is. */
  datatype Tcb = Tcb(state: State, trail: seq<State>, attached: bool, armed: bool, snd: Snd, rcv: Rcv)

  /** What a handler leaves: the control block (if it was not deleted), the segments handed to the
      network and the callbacks made. */
  datatype Effect = Effect(alive: bool, t: Tcb, sent: seq<Segment>, calls: seq<Callback>)

  function Enter(t: Tcb, s: State): Tcb { t.(state := s, trail := t.trail + [s]) }

  predicate SendsFin(s: State) { s.FinWait1? || s.Closing? || s.LastAck? }

  /** The branch of handle_tcp for a SYN at the listener. */
  function Open(seqno: int, wnd: int, iss: int): Tcb {
    var snd := Snd(Buf(BUFSIZE, iss + 1, []), iss, iss, wnd, 0, 0, iss, MSS, 0, iss - 1, iss + 1, Rtt.Est(0, 0), Off);
    var rcv := Rcv(Buf(BUFSIZE, seqno + 1, []), seqno, seqno + 1, BUFSIZE, seqno + 1, 0);
    Tcb(SynRecvd, [SynRecvd], true, false, WindowUpdate(snd), rcv)
  }

  // ----- Windows and timers -----

  function WindowSize(s: Snd): int { s.max - s.nxt }

  function WindowUpdate(s: Snd): Snd {
    var c := if s.cwnd == 0 then s.mss else s.cwnd;
    var c' := if c > s.wnd then s.wnd else c;
    s.(cwnd := c', max := s.una + c')
  }

  function SetTimeout(s: Snd): Snd {
    s.(timer := Retransmit(Rtt.Timeout(s.est)), mark := s.nxt)
  }

  function Rewound(s: Snd): Snd {
    WindowUpdate(s.(timer := Off, nxt := s.una, rttMark := s.una - 1, cwnd := 0))
  }

  /** tcp_timeout */
  function TcpTimeout(t: Tcb): Tcb { t.(snd := Rewound(t.snd), armed := true) }

  // ----- Sending -----

  /** The header fields that make_tcp_hdr takes from the control block. */
  function Header(t: Tcb, syn: bool, fin: bool, rst: bool, psh: bool, payload: seq<Byte>): Segment {
    Segment(t.snd.nxt, t.rcv.nxt, t.rcv.wnd, syn, fin, rst, psh, true, payload)
  }

  /** The bytes tcp_send_and_ack takes from the output buffer. */
  function Pending(s: Snd): seq<Byte> {
    var wnd, avail := WindowSize(s), s.buf.Avail(s.nxt);
    if wnd <= 0 || avail <= 0 then [] else s.buf.Read(s.nxt, Least(Least(avail, s.mss), wnd))
  }

  /** Whether the data goes out with the PSH flag. */
  predicate PushDue(s: Snd) { Pending(s) != [] && s.buf.Avail(s.nxt + |Pending(s)|) == 0 }

  predicate FinDue(s: Snd, state: State) {
    var wnd, len := WindowSize(s), |Pending(s)|;
    wnd > 0 && len < wnd && s.buf.Avail(s.nxt + len) == 0 && SendsFin(state)
  }

  /** The timer and the round-trip mark, before a segment with `len` bytes of data is built. */
  function Marked(s: Snd, len: nat): Snd {
    var s1 := if s.timer.Off? && len > 0 then SetTimeout(s) else s;
    if len > 0 && s1.rttMark < s1.una && s1.nxt >= s1.rttLimit then s1.(rttMark := s1.nxt) else s1
  }

  function Sent(s: Snd, n: nat): Snd {
    var s1 := s.(nxt := s.nxt + n);
    if s1.rttLimit < s1.nxt then s1.(rttLimit := s1.nxt) else s1
  }

  /** What tcp_send_and_ack returns: whether it should be called again. */
  predicate MoreToSend(s: Snd, state: State) {
    if state.Established? then WindowSize(s) > 0 && s.buf.Avail(s.nxt) > 0
    else SendsFin(state) && WindowSize(s) > 0 && s.buf.Avail(s.nxt) > -1
  }

  /** The sending side after tcp_send_and_ack has built a segment. */
  function AfterSend(s: Snd, state: State): Snd {
    Sent(Marked(s, |Pending(s)|), |Pending(s)| + if FinDue(s, state) then 1 else 0)
  }

  /** do_tcb_write: the send event runs. */
  function SendReady(t: Tcb): Effect {
    var rcv := t.rcv.(lastAcked := t.rcv.nxt);
    if t.state.SynRecvd? then
      Effect(true, t.(snd := t.snd.(nxt := t.snd.nxt + 1), rcv := rcv, armed := false),
             [Header(t, true, false, false, false, [])], [])
    else if Pending(t.snd) == [] && !FinDue(t.snd, t.state) && t.rcv.lastAcked >= t.rcv.nxt then
      Effect(true, t.(armed := false), [], [])
    else
      var snd := AfterSend(t.snd, t.state);
      Effect(true, t.(snd := snd, rcv := rcv, armed := t.armed && MoreToSend(snd, t.state)),
             [Header(t, false, FinDue(t.snd, t.state), false, PushDue(t.snd), Pending(t.snd))], [])
  }

  // ----- Application calls -----

  /** tcp_accept */
  function TcpAccept(t: Tcb): Tcb { t.(armed := true) }

  /** tcp_send */
  function TcpSend(t: Tcb, data: seq<Byte>): Tcb {
    var snd := t.snd.(buf := t.snd.buf.Write(data));
    t.(snd := snd, armed := t.armed || WindowSize(snd) > 0)
  }

  /** The bytes tcp_read returns. */
  function ReadBytes(r: Rcv, len: int): seq<Byte> {
    r.buf.Read(r.readSeq, Least(len, r.buf.Avail(r.readSeq)))
  }

  /** tcp_read */
  function TcpRead(t: Tcb, len: int): Tcb
    requires t.rcv.buf.Base() <= t.rcv.readSeq
  {
    var r := t.rcv;
    var blocked := r.buf.Left() == 0;
    var s := r.readSeq + |ReadBytes(r, len)|;
    var b := r.buf.Advance(s);
    t.(rcv := r.(readSeq := s, buf := b, wnd := b.Left(), lastAcked := r.lastAcked - if blocked then 1 else 0),
       armed := t.armed || blocked)
  }

  /** tcp_close */
  function TcpClose(t: Tcb, hard: bool): Effect {
    if hard || t.state.SynRecvd? then
      Effect(false, t.(rcv := t.rcv.(lastAcked := t.rcv.nxt)), [Header(t, false, false, true, false, [])], [])
    else
      var t' := Enter(t, if t.state.Established? then FinWait1 else LastAck);
      Effect(true, t'.(attached := false, rcv := t.rcv.(wnd := 1000), armed := true), [], [])
  }

  // ----- Receiving -----

  function Sampled(s: Snd, ack: int, diff: int): Snd {
    if s.una <= s.rttMark < ack then s.(est := Rtt.Sample(s.est, diff)) else s
  }

  function Moved(s: Snd, ack: int): Snd {
    s.(una := ack, nxt := if ack > s.nxt then ack else s.nxt)
  }

  /** The retransmission timer when `ack` has been taken in. */
  function Retimed(s: Snd, ack: int): Snd {
    if !s.timer.Off? && ack >= s.mark then
      var s' := if s.una < s.nxt then SetTimeout(s) else s.(timer := Off);
      s'.(cwnd := s'.cwnd + s'.mss)
    else s
  }

  /** An acknowledgement of something new. */
  function Acked(s: Snd, state: State, ack: int, diff: int): Snd
    requires s.buf.Base() <= ack
  {
    var s1 := Moved(Sampled(s, ack, diff), ack);
    if state.Established? then Retimed(s1.(buf := s1.buf.Advance(ack)), ack)
    else if SendsFin(state) then Retimed(s1, ack)
    else s1
  }

  function StartRemoval(t: Tcb): Tcb { Enter(t, TimeWait).(snd := t.snd.(timer := Remove)) }

  datatype Verdict = Continue | Return | Delete

  /** The state changes once everything sent is acknowledged. */
  function AllAcked(t: Tcb): (Tcb, Verdict) {
    if t.snd.una != t.snd.nxt then (t, Continue) else
    var finAcked := t.snd.buf.Avail(t.snd.nxt) == -1;
    match t.state
    case SynRecvd => (Enter(t, Established), Continue)
    case LastAck => (t, Delete)
    case FinWait1 => (if finAcked then Enter(t, FinWait2) else t, Continue)
    case Closing => (if finAcked then StartRemoval(t) else t, Return)
    case _ => (t, Continue)
  }

  /** The ACK part of handle_tcp. */
  function AckPart(t: Tcb, seg: Segment, diff: int): (Tcb, Verdict)
    requires t.snd.buf.Base() <= t.snd.una + 1
  {
    if !seg.ack then (t, Continue)
    else if seg.ackno > t.snd.una then AllAcked(t.(snd := Acked(t.snd, t.state, seg.ackno, diff)))
    else AllAcked(t)
  }

  function AckCalls(t: Tcb, seg: Segment, t': Tcb): seq<Callback> {
    var space := OutputSpace(t'.snd.buf.Left());
    (if seg.ack && seg.ackno > t.snd.una && t.state.Established? then [space] else [])
    + if t.state.SynRecvd? && t'.state.Established? then [space] else []
  }

  /** A segment below rcv_nxt is answered with the current acknowledgement. */
  function Duplicate(t: Tcb): Tcb {
    if t.state.SynRecvd? then t else t.(rcv := t.rcv.(lastAcked := t.rcv.lastAcked - 1), armed := true)
  }

  function NewWindow(t: Tcb, wnd: int): Tcb {
    var s1 := t.snd.(wnd := wnd);
    var s2 := WindowUpdate(s1);
    t.(snd := s2, armed := t.armed || (WindowSize(s1) <= 0 && WindowSize(s2) > 0))
  }

  /** tcp_recv_data, on the receiving side. */
  function Received(r: Rcv, attached: bool, seg: Segment): Rcv {
    var b := r.buf.Write(seg.payload);
    var r1 := if seg.payload != [] && attached then r.(buf := b, wnd := b.Left()) else r;
    r1.(nxt := r.nxt + |seg.payload| + if seg.fin then 1 else 0)
  }

  function RecvData(t: Tcb, seg: Segment): Tcb {
    t.(rcv := Received(t.rcv, t.attached, seg), armed := t.armed || seg.payload != [] || seg.fin)
  }

  function RecvCalls(t: Tcb, seg: Segment): seq<Callback> {
    if seg.payload != [] && t.attached
    then [DataAvailable(t.rcv.buf.Write(seg.payload).Avail(t.rcv.readSeq))] else []
  }

  /** The last switch of handle_tcp. */
  function ByState(t: Tcb, seg: Segment): Effect {
    var t', calls := RecvData(t, seg), RecvCalls(t, seg);
    match t.state
    case FinWait2 => Effect(true, if seg.fin then StartRemoval(t') else t', [], calls)
    case FinWait1 => Effect(true, if seg.fin then Enter(t', Closing) else t', [], calls)
    case Established =>
      if !seg.fin then Effect(true, t', [], calls)
      else TcpClose(Enter(t', CloseWait), false).(calls := calls + if t'.attached then [ClosingCall(false)] else [])
    case _ => Effect(true, t, [], [])
  }

  /** What handle_tcp does after the ACK part. */
  function DataPart(t: Tcb, seg: Segment): Effect {
    if seg.seqno < t.rcv.nxt then Effect(true, Duplicate(t), [], [])
    else ByState(NewWindow(t, seg.wnd), seg)
  }

  /** handle_tcp for an existing connection. */
  function Receive(t: Tcb, seg: Segment, diff: int): Effect
    requires t.snd.buf.Base() <= t.snd.una + 1
  {
    if seg.rst then Effect(false, t, [], if t.attached then [ClosingCall(true)] else []) else
    var (t1, v) := AckPart(t, seg, diff);
    var calls := AckCalls(t, seg, t1);
    match v
    case Delete => Effect(false, t1, [], calls)
    case Return => Effect(true, t1, [], calls)
    case Continue => var e := DataPart(t1, seg); e.(calls := calls + e.calls)
  }
}
