/** Segments on the wire: the packet that the sender builds for a segment, and the segment that handle_tcp
    reads from a packet. */
module TcpWire {
  import opened Basics
  import opened Checksum
  import opened TcpModel
  import H = TcpHeader

  function Flag(on: bool, value: int): int { if on then value else 0 }

  /** The flags byte: FIN 1, SYN 2, RST 4, PSH 8, ACK 16. */
  function FlagsOf(seg: Segment): Byte {
    Flag(seg.fin, 1) + Flag(seg.syn, 2) + Flag(seg.rst, 4) + Flag(seg.psh, 8) + Flag(seg.ack, 16)
  }

  /** Whether the bit of that value is set in the flags byte. */
  predicate Bit(flags: Byte, value: int)
    requires value > 0
  {
    flags / value % 2 == 1
  }

  function FieldsOf(seg: Segment, laddr: Addr, lport: int, raddr: Addr, rport: int): H.Fields {
    H.Fields(laddr, raddr, lport, rport, seg.seqno, seg.ackno, FlagsOf(seg), seg.wnd)
  }

  /** What handle_tcp and tcp_recv_data read from a packet. */
  function Parse(p: seq<Byte>): Segment
    requires |p| >= 60
  {
    var flags, doff := p[53], 40 + 4 * (p[52] / 16);
    Segment(Get32(p, 44), Get32(p, 48), Get16(p, 54), Bit(flags, 2), Bit(flags, 1), Bit(flags, 4), Bit(flags, 8),
            Bit(flags, 16), if doff < |p| then p[doff..] else [])
  }

  lemma FlagsRead(seg: Segment)
    ensures var f := FlagsOf(seg);
      && Bit(f, 1) == seg.fin && Bit(f, 2) == seg.syn && Bit(f, 4) == seg.rst && Bit(f, 8) == seg.psh
      && Bit(f, 16) == seg.ack
  {
  }

  /** The flags of the segments that tcp.c sends. */
  lemma FlagValues(seg: Segment)
    requires seg.ack && !(seg.syn && (seg.fin || seg.rst || seg.psh)) && !(seg.rst && (seg.fin || seg.psh))
    ensures seg.syn ==> FlagsOf(seg) == 0x12
    ensures seg.rst ==> FlagsOf(seg) == 0x14
    ensures !seg.syn && !seg.rst ==> FlagsOf(seg) == 0x10 + (if seg.psh then 8 else 0) + (if seg.fin then 1 else 0)
  {
  }

  /** What is sent is what the other side reads: the same segment, its numbers cut to 32 bits and its window to
      16, whatever addresses, ports and options the packet has. */
  lemma WireRoundTrip(seg: Segment, laddr: Addr, lport: int, raddr: Addr, rport: int, opts: seq<Byte>)
    requires |opts| % 4 == 0 && |opts| <= 40
    ensures var p := H.TcpPacket(FieldsOf(seg, laddr, lport, raddr, rport), opts, seg.payload);
      && |p| >= 60
      && Parse(p) ==
           seg.(seqno := seg.seqno % 0x1_0000_0000, ackno := seg.ackno % 0x1_0000_0000, wnd := seg.wnd % 65536)
      && Get16(p, 40) == lport % 65536 && Get16(p, 42) == rport % 65536 && p[8..24] == laddr && p[24..40] == raddr
  {
    var f := FieldsOf(seg, laddr, lport, raddr, rport);
    var p := H.TcpPacket(f, opts, seg.payload);
    H.HeaderRoundTrip(f, opts, seg.payload);
    H.HeaderBytes(f, opts, seg.payload);
    FlagsRead(seg);
    assert p[40 + 4 * (p[52] / 16)..] == seg.payload;
  }
}
