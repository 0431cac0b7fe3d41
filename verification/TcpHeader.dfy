/** make_tcp_hdr of tcp.c, and the reading of the same fields in handle_tcp and tcp_recv_data. */
module TcpHeader {
  import opened Basics
  import opened Checksum

  /** What make_tcp_hdr takes from the control block and its arguments. */
  datatype Fields = Fields(laddr: seq<Byte>, raddr: seq<Byte>, lport: int, rport: int, seqno: int, ackno: int,
                           flags: Byte, wnd: int)

  ghost predicate WellFormed(f: Fields, opts: seq<Byte>) {
    |f.laddr| == 16 && |f.raddr| == 16 && |opts| % 4 == 0 && |opts| <= 40
  }

  function Ip6(f: Fields, len: int): seq<Byte> {
    [0x60, 0, 0, 0] + Put16(len) + [6, 0x40] + f.laddr + f.raddr
  }

  function Ports(f: Fields): seq<Byte> { Put16(f.lport) + Put16(f.rport) }

  function Numbers(f: Fields): seq<Byte> { Put32(f.seqno) + Put32(f.ackno) }

  function Tail(f: Fields, optwords: nat): seq<Byte>
    requires optwords <= 10
  {
    [(optwords + 5) * 16, f.flags] + Put16(f.wnd) + [0, 0, 0, 0]
  }

  /** The packet with its checksum field still zero. */
  function Unsealed(f: Fields, opts: seq<Byte>, data: seq<Byte>): seq<Byte>
    requires |opts| <= 40
  {
    Ip6(f, 20 + |opts| + |data|) + (Ports(f) + (Numbers(f) + (Tail(f, |opts| / 4) + (opts + data))))
  }

  /** make_tcp_hdr, options and data being in place. */
  function TcpPacket(f: Fields, opts: seq<Byte>, data: seq<Byte>): seq<Byte>
    requires WellFormed(f, opts)
  {
    var p := Unsealed(f, opts, data);
    Filled(p, 56, Fold(Sum(p, |p|)))
  }

  lemma Piece16(pre: seq<Byte>, v: int, post: seq<Byte>)
    ensures Get16(pre + (Put16(v) + post), |pre|) == v % 65536
  {
  }

  lemma Piece32(pre: seq<Byte>, v: int, post: seq<Byte>)
    ensures Get32(pre + (Put32(v) + post), |pre|) == v % 0x1_0000_0000
  {
    PutGet32(v);
    var s, b := pre + (Put32(v) + post), Put32(v);
    assert Get16(s, |pre|) == Get16(b, 0) && Get16(s, |pre| + 2) == Get16(b, 2);
  }

  lemma Outline(f: Fields, opts: seq<Byte>, data: seq<Byte>)
    requires WellFormed(f, opts)
    ensures var p := Unsealed(f, opts, data);
      && |p| == 60 + |opts| + |data| && p[56] == 0 && p[57] == 0
      && p[52] / 16 == 5 + |opts| / 4 && p[53] == f.flags && Get16(p, 54) == f.wnd % 65536
      && p[8..24] == f.laddr && p[24..40] == f.raddr && p[60 + |opts|..] == data
  {
  }

  /** Where the ports and numbers stand in the packet. */
  lemma Layout(f: Fields, opts: seq<Byte>, data: seq<Byte>)
    requires WellFormed(f, opts)
    ensures var p := Unsealed(f, opts, data);
      && |p| >= 60
      && Get16(p, 40) == f.lport % 65536 && Get16(p, 42) == f.rport % 65536
      && Get32(p, 44) == f.seqno % 0x1_0000_0000 && Get32(p, 48) == f.ackno % 0x1_0000_0000
  {
    var p, ip := Unsealed(f, opts, data), Ip6(f, 20 + |opts| + |data|);
    var rest := Tail(f, |opts| / 4) + (opts + data);
    assert |ip| == 40 && |Ports(f)| == 4 && |Numbers(f)| == 8 && |Tail(f, |opts| / 4)| == 8;
    assert Get16(p, 40) == f.lport % 65536 by {
      Piece16(ip, f.lport, Put16(f.rport) + (Numbers(f) + rest));
      assert p == ip + (Put16(f.lport) + (Put16(f.rport) + (Numbers(f) + rest)));
    }
    assert Get16(p, 42) == f.rport % 65536 by {
      Piece16(ip + Put16(f.lport), f.rport, Numbers(f) + rest);
      assert p == (ip + Put16(f.lport)) + (Put16(f.rport) + (Numbers(f) + rest));
    }
    assert Get32(p, 44) == f.seqno % 0x1_0000_0000 by {
      Piece32(ip + Ports(f), f.seqno, Put32(f.ackno) + rest);
      assert p == (ip + Ports(f)) + (Put32(f.seqno) + (Put32(f.ackno) + rest));
    }
    assert Get32(p, 48) == f.ackno % 0x1_0000_0000 by {
      Piece32(ip + Ports(f) + Put32(f.seqno), f.ackno, rest);
      assert p == (ip + Ports(f) + Put32(f.seqno)) + (Put32(f.ackno) + rest);
    }
  }

  /** Sealing a packet touches only the checksum field. */
  lemma SealedElsewhere(p: seq<Byte>, c: int)
    requires |p| >= 60
    ensures var q := Filled(p, 56, c); |q| == |p| && q[..56] == p[..56] && q[58..] == p[58..]
  {
  }

  lemma SameWords(p: seq<Byte>, q: seq<Byte>, i: nat)
    requires i + 4 <= 56 <= |p| == |q| && q[..56] == p[..56]
    ensures Get16(q, i) == Get16(p, i) && Get32(q, i) == Get32(p, i)
  {
  }

  /** What make_tcp_hdr writes, handle_tcp reads back, numbers and window as the bits on the wire
      allow; the payload starts where the data offset says; and the checksum verifies. */
  lemma HeaderRoundTrip(f: Fields, opts: seq<Byte>, data: seq<Byte>)
    requires WellFormed(f, opts)
    ensures var p := TcpPacket(f, opts, data);
      && |p| == 60 + |opts| + |data|
      && Get16(p, 40) == f.lport % 65536 && Get16(p, 42) == f.rport % 65536
      && Get32(p, 44) == f.seqno % 0x1_0000_0000 && Get32(p, 48) == f.ackno % 0x1_0000_0000
      && p[53] == f.flags && Get16(p, 54) == f.wnd % 65536
      && p[40 + 4 * (p[52] / 16)..] == data
      && Fold(Sum(p, |p|)) == 0xffff
  {
    var u := Unsealed(f, opts, data);
    Layout(f, opts, data);
    Outline(f, opts, data);
    var c := Fold(Sum(u, |u|));
    var p := TcpPacket(f, opts, data);
    SealedElsewhere(u, c);
    SameWords(u, p, 40);
    SameWords(u, p, 42);
    SameWords(u, p, 44);
    SameWords(u, p, 48);
    SameWords(u, p, 52);
    assert p[52] == p[..56][52] && p[53] == p[..56][53] && p[54] == p[..56][54] && p[55] == p[..56][55];
    assert p[60 + |opts|..] == p[58..][2 + |opts|..] == u[60 + |opts|..];
    FilledVerifies(u, |u|, 56);
  }

  /** The IPv6 header of the packet, byte by byte: version, payload length, TCP as the next header, hop limit
      and the two addresses; options and urgent pointer behind. */
  lemma HeaderBytes(f: Fields, opts: seq<Byte>, data: seq<Byte>)
    requires WellFormed(f, opts)
    ensures var p := TcpPacket(f, opts, data);
      && |p| == 60 + |opts| + |data|
      && p[0] == 0x60 && p[1] == 0 && p[2] == 0 && p[3] == 0 && Get16(p, 4) == (|p| - 40) % 65536
      && p[6] == 6 && p[7] == 0x40 && p[8..24] == f.laddr && p[24..40] == f.raddr
      && p[58] == 0 && p[59] == 0 && p[60..60 + |opts|] == opts
  {
    var u, p := Unsealed(f, opts, data), TcpPacket(f, opts, data);
    Outline(f, opts, data);
    SealedElsewhere(u, Fold(Sum(u, |u|)));
    UnsealedBytes(f, opts, data);
    SameFront(u, p, 0, 4);
    SameFront(u, p, 4, 6);
    SameFront(u, p, 6, 8);
    SameFront(u, p, 8, 24);
    SameFront(u, p, 24, 40);
    SameBack(u, p, 58, 60);
    SameBack(u, p, 60, 60 + |opts|);
    FirstBytes(p, 20 + |opts| + |data|);
  }

  lemma SameFront(u: seq<Byte>, p: seq<Byte>, i: nat, j: nat)
    requires i <= j <= 56 <= |p| == |u| && p[..56] == u[..56]
    ensures p[i..j] == u[i..j]
  {
    forall k | i <= k < j ensures p[k] == u[k] {
      assert p[k] == p[..56][k] && u[k] == u[..56][k];
    }
  }

  lemma SameBack(u: seq<Byte>, p: seq<Byte>, i: nat, j: nat)
    requires 58 <= i <= j <= |p| == |u| && p[58..] == u[58..]
    ensures p[i..j] == u[i..j]
  {
    forall k | i <= k < j ensures p[k] == u[k] {
      assert p[k] == p[58..][k - 58] && u[k] == u[58..][k - 58];
    }
  }

  lemma FirstBytes(p: seq<Byte>, len: int)
    requires |p| >= 60 && p[0..4] == [0x60, 0, 0, 0] && p[4..6] == Put16(len) && p[6..8] == [6, 0x40]
    requires p[58..60] == [0, 0]
    ensures p[0] == 0x60 && p[1] == 0 && p[2] == 0 && p[3] == 0 && Get16(p, 4) == len % 65536
    ensures p[6] == 6 && p[7] == 0x40 && p[58] == 0 && p[59] == 0
  {
    assert p[0] == p[0..4][0] && p[1] == p[0..4][1] && p[2] == p[0..4][2] && p[3] == p[0..4][3];
    assert p[4] == p[4..6][0] && p[5] == p[4..6][1] && p[6] == p[6..8][0] && p[7] == p[6..8][1];
    assert p[58] == p[58..60][0] && p[59] == p[58..60][1];
    PutGet16(len);
  }

  lemma UnsealedBytes(f: Fields, opts: seq<Byte>, data: seq<Byte>)
    requires WellFormed(f, opts)
    ensures var u, len := Unsealed(f, opts, data), 20 + |opts| + |data|;
      && |u| == 40 + len && u[..4] == [0x60, 0, 0, 0] && u[4..6] == Put16(len) && u[6..8] == [6, 0x40]
      && u[8..24] == f.laddr && u[24..40] == f.raddr && u[58..60] == [0, 0] && u[60..60 + |opts|] == opts
  {
  }
}
