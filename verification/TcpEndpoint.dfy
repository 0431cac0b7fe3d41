/** tcp.c on the control block itself: each handler updates the fields in the order of the source
    and is proved to leave what the function in `TcpModel` says. The two ring buffers appear as the
    streams that `RingBuffer` is proved to implement. */
module TcpEndpoint {
  import opened Basics
  import opened StreamBuffer
  import M = TcpModel
  import R = TcpRuns
  import T = TcpTheorems
  import Rtt

  type State = M.State
  type Segment = M.Segment
  type Calls = seq<M.Callback>

  class Endpoint {
    var state: State
    ghost var trail: seq<State>
    var attached: bool
    var armed: bool
    var snd: M.Snd
    var rcv: M.Rcv

    ghost function View(): M.Tcb
      reads this
    {
      M.Tcb(state, trail, attached, armed, snd, rcv)
    }

    /** The SYN branch of handle_tcp at the listener. */
    constructor (seqno: int, wnd: int, iss: int)
      ensures View() == M.Open(seqno, wnd, iss)
    {
      state, trail, attached, armed := M.SynRecvd, [M.SynRecvd], true, false;
      rcv := M.Rcv(Buf(M.BUFSIZE, 0, []), seqno, seqno + 1, M.BUFSIZE, seqno + 1, 0);
      snd := M.Snd(Buf(M.BUFSIZE, 0, []), iss, iss, wnd, 0, 0, iss, M.MSS, 0, iss - 1, iss + 1, Rtt.Est(0, 0), M.Off);
      new;
      rcv := rcv.(buf := rcv.buf.(end := rcv.nxt));
      snd := snd.(buf := snd.buf.(end := snd.nxt + 1));
      var w := UpdateWindow();
    }

    method Enter(s: State)
      modifies this`state, this`trail
      ensures state == s && trail == old(trail) + [s]
    {
      state, trail := s, trail + [s];
    }

    /** mark_for_if_write */
    method Mark()
      modifies this`armed
      ensures armed
    {
      if armed {
        return;
      }
      armed := true;
    }

    /** window_update */
    method UpdateWindow() returns (w: int)
      modifies this`snd
      ensures snd == M.WindowUpdate(old(snd)) && w == M.WindowSize(snd)
    {
      if snd.cwnd == 0 {
        snd := snd.(cwnd := snd.mss);
      }
      if snd.cwnd > snd.wnd {
        snd := snd.(cwnd := snd.wnd);
      }
      snd := snd.(max := snd.una + snd.cwnd);
      w := snd.max - snd.nxt;
    }

    /** set_timeout */
    method SetTimeout()
      modifies this`snd
      ensures snd == M.SetTimeout(old(snd))
    {
      var m := snd.est.srtt + 4 * snd.est.sdev;
      if m < 500 {
        m := 500;
      } else if m > 30000 {
        m := 30000;
      }
      snd := snd.(timer := M.Retransmit(m), mark := snd.nxt);
    }

    /** tcp_timeout */
    method Timeout()
      modifies this`snd, this`armed
      ensures View() == M.TcpTimeout(old(View()))
    {
      snd := snd.(timer := M.Off);
      snd := snd.(nxt := snd.una);
      snd := snd.(rttMark := snd.una - 1);
      snd := snd.(cwnd := 0);
      var w := UpdateWindow();
      Mark();
    }

    // ----- Sending -----

    /** The choice of data and flags in tcp_send_and_ack. */
    method Choose() returns (data: seq<Byte>, fin: bool, psh: bool)
      ensures data == M.Pending(snd) && fin == M.FinDue(snd, state) && psh == M.PushDue(snd)
    {
      data, fin, psh := [], false, false;
      var wnd := snd.max - snd.nxt;
      if wnd > 0 {
        var len := snd.buf.Avail(snd.nxt);
        if len > 0 {
          if len > snd.mss {
            len := snd.mss;
          }
          if len > wnd {
            len := wnd;
          }
          data := snd.buf.Read(snd.nxt, len);
          psh := snd.buf.Avail(snd.nxt + |data|) == 0;
        }
        fin := |data| < wnd && snd.buf.Avail(snd.nxt + |data|) == 0
               && (state.FinWait1? || state.Closing? || state.LastAck?);
      }
    }

    /** The marks, the header and the counters of tcp_send_and_ack. */
    method Emit(data: seq<Byte>, fin: bool, psh: bool) returns (seg: Segment)
      requires data == M.Pending(snd) && fin == M.FinDue(snd, state)
      modifies this`snd, this`rcv
      ensures snd == M.AfterSend(old(snd), state) && rcv == old(rcv).(lastAcked := rcv.nxt)
      ensures seg == M.Header(old(View()), false, fin, false, psh, data)
    {
      if snd.timer.Off? && |data| > 0 {
        SetTimeout();
      }
      if |data| > 0 && snd.rttMark < snd.una && snd.nxt >= snd.rttLimit {
        snd := snd.(rttMark := snd.nxt);
      }
      seg := M.Segment(snd.nxt, rcv.nxt, rcv.wnd, false, fin, false, psh, true, data);
      rcv := rcv.(lastAcked := rcv.nxt);
      snd := snd.(nxt := snd.nxt + |data|);
      if fin {
        snd := snd.(nxt := snd.nxt + 1);
      }
      if snd.rttLimit < snd.nxt {
        snd := snd.(rttLimit := snd.nxt);
      }
    }

    /** tcp_send_and_ack */
    method SendAndAck() returns (again: bool, sent: seq<Segment>)
      requires !state.SynRecvd?
      modifies this`snd, this`rcv
      ensures var e := M.SendReady(old(View()));
        e.sent == sent && e.t == View().(armed := old(armed) && again)
    {
      var data, fin, psh := Choose();
      if |data| == 0 && !fin && rcv.lastAcked >= rcv.nxt {
        return false, [];
      }
      var seg := Emit(data, fin, psh);
      sent := [seg];
      var wnd := snd.max - snd.nxt;
      match state
      case Established => again := wnd > 0 && snd.buf.Avail(snd.nxt) > 0;
      case FinWait1 => again := wnd > 0 && snd.buf.Avail(snd.nxt) > -1;
      case Closing => again := wnd > 0 && snd.buf.Avail(snd.nxt) > -1;
      case LastAck => again := wnd > 0 && snd.buf.Avail(snd.nxt) > -1;
      case _ => again := false;
    }

    /** do_tcb_write */
    method DoWrite() returns (sent: seq<Segment>)
      modifies this`snd, this`rcv, this`armed
      ensures M.SendReady(old(View())) == M.Effect(true, View(), sent, [])
    {
      if state.SynRecvd? {
        sent := [M.Segment(snd.nxt, rcv.nxt, rcv.wnd, true, false, false, false, true, [])];
        rcv := rcv.(lastAcked := rcv.nxt);
        snd := snd.(nxt := snd.nxt + 1);
        armed := false;
      } else {
        var again;
        again, sent := SendAndAck();
        if !again {
          armed := false;
        }
      }
    }

    // ----- Application calls -----

    /** tcp_send */
    method Send(data: seq<Byte>)
      modifies this`snd, this`armed
      ensures View() == M.TcpSend(old(View()), data)
    {
      snd := snd.(buf := snd.buf.Write(data));
      if snd.max - snd.nxt > 0 {
        Mark();
      }
    }

    /** tcp_read */
    method Read(max: int) returns (data: seq<Byte>)
      requires rcv.buf.Base() <= rcv.readSeq
      modifies this`rcv, this`armed
      ensures View() == M.TcpRead(old(View()), max) && data == M.ReadBytes(old(rcv), max)
    {
      var blocked := rcv.buf.Left() == 0;
      var len := max;
      if len > rcv.buf.Avail(rcv.readSeq) {
        len := rcv.buf.Avail(rcv.readSeq);
      }
      data := rcv.buf.Read(rcv.readSeq, len);
      rcv := rcv.(readSeq := rcv.readSeq + |data|);
      rcv := rcv.(buf := rcv.buf.Advance(rcv.readSeq));
      rcv := rcv.(wnd := rcv.buf.Left());
      if blocked {
        rcv := rcv.(lastAcked := rcv.lastAcked - 1);
        Mark();
      }
    }

    /** tcp_close */
    method Close(hard: bool) returns (alive: bool, sent: seq<Segment>)
      modifies this`rcv, this`attached, this`state, this`trail, this`armed
      ensures M.TcpClose(old(View()), hard) == M.Effect(alive, View(), sent, [])
    {
      if hard || state.SynRecvd? {
        sent := [M.Segment(snd.nxt, rcv.nxt, rcv.wnd, false, false, true, false, true, [])];
        rcv := rcv.(lastAcked := rcv.nxt);
        return false, sent;
      }
      attached := false;
      rcv := rcv.(wnd := 1000);
      if state.Established? {
        Enter(M.FinWait1);
      } else {
        Enter(M.LastAck);
      }
      Mark();
      return true, [];
    }

    // ----- Receiving -----

    /** The branch of handle_tcp for an acknowledgement of something new. */
    method TakeAck(ack: int, diff: int) returns (calls: Calls)
      requires ack > snd.una && snd.buf.Base() <= ack && (state.Established? ==> attached)
      modifies this`snd
      ensures snd == M.Acked(old(snd), state, ack, diff)
      ensures calls == if state.Established? then [M.OutputSpace(snd.buf.Left())] else []
    {
      calls := [];
      if snd.una <= snd.rttMark && ack > snd.rttMark {
        snd := snd.(est := Rtt.Sample(snd.est, diff));
      }
      snd := snd.(una := ack);
      if ack > snd.nxt {
        snd := snd.(nxt := ack);
      }
      if state.Established? {
        snd := snd.(buf := snd.buf.Advance(ack));
        assert attached;
        calls := [M.OutputSpace(snd.buf.Left())];
      }
      if state.Established? || state.FinWait1? || state.Closing? || state.LastAck? {
        if !snd.timer.Off? && ack >= snd.mark {
          if snd.una < snd.nxt {
            SetTimeout();
          } else {
            snd := snd.(timer := M.Off);
          }
          snd := snd.(cwnd := snd.cwnd + snd.mss);
        }
      }
    }

    /** The switch of handle_tcp for snd_una == snd_nxt. */
    method CheckAllAcked() returns (v: M.Verdict, calls: Calls)
      requires state.SynRecvd? ==> attached
      modifies this`state, this`trail, this`snd
      ensures (View(), v) == M.AllAcked(old(View()))
      ensures calls == if old(state).SynRecvd? && state.Established? then [M.OutputSpace(snd.buf.Left())] else []
    {
      v, calls := M.Continue, [];
      if snd.una == snd.nxt {
        match state
        case SynRecvd =>
          Enter(M.Established);
          assert attached;
          calls := [M.OutputSpace(snd.buf.Left())];
        case LastAck =>
          v := M.Delete;
        case FinWait1 =>
          if snd.buf.Avail(snd.nxt) == -1 {
            Enter(M.FinWait2);
          }
        case Closing =>
          if snd.buf.Avail(snd.nxt) == -1 {
            Enter(M.TimeWait);
            snd := snd.(timer := M.Remove);
          }
          v := M.Return;
        case _ =>
      }
    }

    /** tcp_recv_data; returns whether the segment has a FIN. */
    method RecvData(seg: Segment) returns (fin: bool, calls: Calls)
      modifies this`rcv, this`armed
      ensures View() == M.RecvData(old(View()), seg) && fin == seg.fin
      ensures calls == M.RecvCalls(old(View()), seg)
    {
      calls := [];
      if |seg.payload| > 0 {
        rcv := rcv.(nxt := rcv.nxt + |seg.payload|);
        Mark();
        if attached {
          rcv := rcv.(buf := rcv.buf.Write(seg.payload));
          rcv := rcv.(wnd := rcv.buf.Left());
          calls := [M.DataAvailable(rcv.buf.Avail(rcv.readSeq))];
        }
      }
      if seg.fin {
        rcv := rcv.(nxt := rcv.nxt + 1);
        Mark();
      }
      fin := seg.fin;
    }

    /** The last switch of handle_tcp, with tcp_remote_close. */
    method ByState(seg: Segment) returns (calls: Calls)
      modifies this
      ensures M.ByState(old(View()), seg) == M.Effect(true, View(), [], calls)
    {
      calls := [];
      var fin;
      match state
      case FinWait2 =>
        fin, calls := RecvData(seg);
        if fin {
          Enter(M.TimeWait);
          snd := snd.(timer := M.Remove);
        }
      case FinWait1 =>
        fin, calls := RecvData(seg);
        if fin {
          Enter(M.Closing);
        }
      case Established =>
        fin, calls := RecvData(seg);
        if fin {
          Enter(M.CloseWait);
          if attached {
            calls := calls + [M.ClosingCall(false)];
          }
          var alive, sent := Close(false);
        }
      case _ =>
    }

    /** The window part of handle_tcp: start sending again if the window opens. */
    method TakeWindow(wnd: int)
      requires snd.mss > 0
      modifies this`snd, this`armed
      ensures View() == M.NewWindow(old(View()), wnd)
    {
      snd := snd.(wnd := wnd);
      var opens := false;
      if snd.max - snd.nxt <= 0 {
        var w := UpdateWindow();
        opens := w > 0;
      }
      if opens {
        Mark();
      } else {
        var w := UpdateWindow();
      }
    }

    /** handle_tcp after the ACK part. */
    method TakeData(seg: Segment) returns (calls: Calls)
      requires snd.mss > 0
      modifies this
      ensures M.DataPart(old(View()), seg) == M.Effect(true, View(), [], calls)
    {
      if seg.seqno < rcv.nxt {
        if !state.SynRecvd? {
          rcv := rcv.(lastAcked := rcv.lastAcked - 1);
          Mark();
        }
        return [];
      }
      TakeWindow(seg.wnd);
      calls := ByState(seg);
    }

    /** handle_tcp for an existing connection. The callback table is there whenever it is used. */
    method Receive(seg: Segment, diff: int) returns (alive: bool, calls: Calls)
      requires snd.mss > 0 && snd.buf.Base() <= snd.una + 1 && (state.SynRecvd? || state.Established? ==> attached)
      modifies this
      ensures M.Receive(old(View()), seg, diff) == M.Effect(alive, View(), [], calls)
    {
      if seg.rst {
        return false, if attached then [M.ClosingCall(true)] else [];
      }
      calls := [];
      if seg.ack {
        if seg.ackno > snd.una {
          calls := TakeAck(seg.ackno, diff);
        }
        var v, more := CheckAllAcked();
        calls := calls + more;
        if v.Delete? {
          return false, calls;
        }
        if v.Return? {
          return true, calls;
        }
      }
      var more := TakeData(seg);
      return true, calls + more;
    }

    // ----- Whole runs -----

    /** The object stands where the world `w` does, and everything proved of reachable worlds holds
        there. */
    ghost predicate At(w: R.World)
      reads this
    {
      View() == w.t && R.WorldInv(w)
    }

    /** One event, handled by the method for it, is one step of the world. */
    method Dispatch(e: R.Event, ghost w: R.World)
      returns (alive: bool, sent: seq<Segment>, calls: Calls, data: seq<Byte>)
      requires At(w) && R.Enabled(w.t, e)
      modifies this
      ensures R.Do(w.t, e) == M.Effect(alive, View(), sent, calls)
      ensures data == if e.AppRead? then M.ReadBytes(w.t.rcv, e.len) else []
      ensures alive ==> At(R.Next(w, e)) && Grown(w, R.Next(w, e), sent, data)
    {
      alive, sent, calls, data := Handle(e);
      if alive {
        R.StepInv(w, e);
      }
    }

    /** The method for each event. */
    method Handle(e: R.Event) returns (alive: bool, sent: seq<Segment>, calls: Calls, data: seq<Byte>)
      requires R.Ready(View()) && R.Enabled(View(), e) && R.Attachment(View()) && snd.mss > 0
      modifies this
      ensures R.Do(old(View()), e) == M.Effect(alive, View(), sent, calls)
      ensures data == if e.AppRead? then M.ReadBytes(old(rcv), e.len) else []
    {
      alive, sent, calls, data := true, [], [], [];
      match e {
        case Arrives(seg, diff) => alive, calls := Receive(seg, diff);
        case SendEvent => sent := DoWrite();
        case RetransmitTimer => Timeout();
        case RemoveTimer => alive := false;
        case AppAccept => Mark();
        case AppWrite(d) => Send(d);
        case AppRead(len) => data := Read(len);
        case AppClose(hard) => alive, sent := Close(hard);
      }
    }

    /** The `i`-th event of a run. */
    method Follow(events: seq<R.Event>, i: nat, ghost w: R.World, ghost w': R.World)
      returns (sent: seq<Segment>, data: seq<Byte>, ghost w1: R.World)
      requires At(w) && i < |events| && T.Runs(w, events[i..], w')
      modifies this
      ensures At(w1) && T.Runs(w1, events[i + 1..], w') && Grown(w, w1, sent, data)
    {
      T.RunsStep(w, events, i, w');
      var alive, calls;
      alive, sent, calls, data := Dispatch(events[i], w);
      w1 := R.Next(w, events[i]);
    }

    /** A run of events on the object is a run of the world: it sends the same segments and hands the
        application the same bytes. */
    method Drive(events: seq<R.Event>, ghost w0: R.World, ghost w': R.World)
      returns (sent: seq<Segment>, read: seq<Byte>)
      requires At(w0) && T.Runs(w0, events, w')
      modifies this
      ensures At(w') && Grown(w0, w', sent, read)
    {
      sent, read := [], [];
      ghost var w := w0;
      var i := 0;
      while i < |events|
        invariant 0 <= i <= |events| && At(w) && T.Runs(w, events[i..], w')
        invariant Grown(w0, w, sent, read)
      {
        var out, data;
        ghost var was := w;
        out, data, w := Follow(events, i, w, w');
        GrownMore(w0, was, w, sent, out, read, data);
        sent, read := sent + out, read + data;
        i := i + 1;
      }
    }
  }

  /** From `w` to `w'` the segments `sent` went out and the application read `read`. */
  ghost predicate Grown(w: R.World, w': R.World, sent: seq<Segment>, read: seq<Byte>) {
    w'.sent == w.sent + sent && w'.read == w.read + read
  }

  lemma GrownMore(w: R.World, w1: R.World, w2: R.World,
                  s1: seq<Segment>, s2: seq<Segment>, r1: seq<Byte>, r2: seq<Byte>)
    requires Grown(w, w1, s1, r1) && Grown(w1, w2, s2, r2)
    ensures Grown(w, w2, s1 + s2, r1 + r2)
  {
  }

  /** A connection from its SYN on: whatever the events, the object ends where the run does, so the
      theorems on runs are theorems on the object. */
  method Connection(seqno: int, wnd: nat, iss: int, events: seq<R.Event>, ghost w0: R.World, ghost w: R.World)
    returns (c: Endpoint, sent: seq<Segment>, read: seq<Byte>)
    requires w0 == T.Start(seqno, wnd, iss) && T.Runs(w0, events, w)
    ensures c.At(w) && sent == w.sent && read == w.read
  {
    c := new Endpoint(seqno, wnd, iss);
    T.StartInv(seqno, wnd, iss);
    assert c.At(w0) && w0.sent == [] && w0.read == [];
    sent, read := c.Drive(events, w0, w);
  }
}
