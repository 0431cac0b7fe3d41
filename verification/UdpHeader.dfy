/** The packet udp_send of udp.c builds, and when its checksum field comes out as zero. */
module UdpHeader {
  import opened Basics
  import opened Checksum

  datatype Fields = Fields(laddr: seq<Byte>, raddr: seq<Byte>, lport: int, rport: int)

  predicate WellFormed(f: Fields) { |f.laddr| == 16 && |f.raddr| == 16 }

  /** What precedes the local port. */
  function Front(f: Fields, len: int): seq<Byte> {
    [0x60, 0, 0, 0] + Put16(len) + [17, 0x40] + f.laddr + f.raddr
  }

  function Back(f: Fields, data: seq<Byte>): seq<Byte> {
    Put16(f.rport) + Put16(|data| + 8) + [0, 0] + data
  }

  /** The packet with its checksum field still zero. */
  function Unsealed(f: Fields, data: seq<Byte>): seq<Byte> {
    Front(f, |data| + 8) + Put16(f.lport) + Back(f, data)
  }

  /** The data that fits into a packet of 1280 bytes. */
  function Fitting(data: seq<Byte>): seq<Byte> { if |data| > 1232 then data[..1232] else data }

  lemma Outline(f: Fields, data: seq<Byte>)
    requires WellFormed(f)
    ensures var p := Unsealed(f, data);
      && |p| == 48 + |data| && p[6] == 17 && p[46] == 0 && p[47] == 0 && p[48..] == data
      && p[40..42] == Put16(f.lport) && p[..40] == Front(f, |data| + 8) && p[42..] == Back(f, data)
  {
  }

  function UdpPacket(f: Fields, data: seq<Byte>): seq<Byte>
    requires WellFormed(f)
  {
    Outline(f, Fitting(data));
    var p := Unsealed(f, Fitting(data));
    Filled(p, 46, Fold(Sum(p, |p|)))
  }

  /** The packet carries the data that fits, and its checksum verifies. */
  lemma UdpVerifies(f: Fields, data: seq<Byte>)
    requires WellFormed(f)
    ensures var p := UdpPacket(f, data);
      && |p| == (if |data| <= 1232 then 48 + |data| else 1280) && p[48..] == Fitting(data) <= data
      && Fold(Sum(p, |p|)) == 0xffff
  {
    var p := Unsealed(f, Fitting(data));
    Outline(f, Fitting(data));
    FilledVerifies(p, |p|, 46);
  }

  /** The rest of the packet, byte by byte: version, payload length, UDP as the next header, hop limit, the two
      addresses, the ports and the length. */
  lemma HeaderBytes(f: Fields, data: seq<Byte>)
    requires WellFormed(f)
    ensures var p := UdpPacket(f, data);
      && |p| == 48 + |Fitting(data)|
      && p[0] == 0x60 && p[1] == 0 && p[2] == 0 && p[3] == 0 && Get16(p, 4) == |p| - 40
      && p[6] == 17 && p[7] == 0x40 && p[8..24] == f.laddr && p[24..40] == f.raddr
      && Get16(p, 40) == f.lport % 65536 && Get16(p, 42) == f.rport % 65536 && Get16(p, 44) == |p| - 40
  {
    var d := Fitting(data);
    var u, p := Unsealed(f, d), UdpPacket(f, data);
    UdpVerifies(f, data);
    Outline(f, d);
    UnsealedBytes(f, d);
    assert forall k :: 0 <= k < 46 ==> p[k] == u[k];
    PutGet16(|d| + 8);
    PutGet16(f.lport);
    PutGet16(f.rport);
  }

  lemma UnsealedBytes(f: Fields, data: seq<Byte>)
    requires WellFormed(f)
    ensures var u, len := Unsealed(f, data), |data| + 8;
      && |u| == 48 + |data| && u[..4] == [0x60, 0, 0, 0] && u[4..6] == Put16(len) && u[6..8] == [17, 0x40]
      && u[8..24] == f.laddr && u[24..40] == f.raddr
      && u[40..42] == Put16(f.lport) && u[42..44] == Put16(f.rport) && u[44..46] == Put16(len)
  {
  }

  /** The checksum field as it goes out. */
  function Stored(f: Fields, data: seq<Byte>): Word
    requires WellFormed(f)
  {
    UdpVerifies(f, data);
    Get16(UdpPacket(f, data), 46)
  }

  lemma StoredZero(f: Fields, data: seq<Byte>)
    requires WellFormed(f)
    ensures var p := Unsealed(f, Fitting(data)); |p| >= 48 && (Stored(f, data) == 0 <==> Sum(p, |p|) % 65535 == 0)
  {
    Outline(f, Fitting(data));
    var p := Unsealed(f, Fitting(data));
    ZeroField(p, |p|);
    var c := Put16(-(Fold(Sum(p, |p|)) as int) - 1);
    assert UdpPacket(f, data)[46] == c[0] && UdpPacket(f, data)[47] == c[1];
  }

  /** The local port is added to the sum as it is. */
  lemma SumOfPort(f: Fields, data: seq<Byte>, port: Word)
    requires WellFormed(f)
    ensures var p, q := Unsealed(f.(lport := 0), data), Unsealed(f.(lport := port), data);
      |p| == |q| >= 48 && Sum(q, |q|) == Sum(p, |p|) + port
  {
    var p, q := Unsealed(f.(lport := 0), data), Unsealed(f.(lport := port), data);
    Outline(f.(lport := 0), data);
    Outline(f.(lport := port), data);
    PutGet16(port);
    assert q[40] == q[40..42][0] && q[41] == q[40..42][1] && p[40] == p[40..42][0] && p[41] == p[40..42][1];
    forall k | 0 <= k < |p| && k != 40 && k != 41 ensures p[k] == q[k] {
      if k < 40 {
        assert p[k] == p[..40][k] && q[k] == q[..40][k];
      } else {
        assert p[k] == p[42..][k - 42] && q[k] == q[42..][k - 42];
      }
    }
    SumReplaced(p, q, 8, |p|, 40);
  }

  /** Whatever the addresses, the remote port and the data, there is a local port for which the
      packet goes out with a zero checksum. */
  lemma SomePortStoresZero(f: Fields, data: seq<Byte>) returns (port: Word)
    requires WellFormed(f)
    ensures Stored(f.(lport := port), data) == 0
  {
    var d := Fitting(data);
    Outline(f.(lport := 0), d);
    var p := Unsealed(f.(lport := 0), d);
    var r := Sum(p, |p|) % 65535;
    port := if r == 0 then 0 else 65535 - r;
    SumOfPort(f, d, port);
    StoredZero(f.(lport := port), data);
    assert Sum(p, |p|) == Sum(p, |p|) / 65535 * 65535 + r;
    ModShift(r + port, Sum(p, |p|) / 65535);
  }

  const NONE: seq<Byte> := [0, 0, 0, 0, 0, 0, 0, 0, 0, 0, 0, 0, 0, 0, 0, 0]

  /** Such a packet, with nothing but its port, length and protocol to add up: from port 65502 of the
      unspecified address to port 0, without data. */
  lemma ZeroChecksumSent(f: Fields, data: seq<Byte>)
    requires f == Fields(NONE, NONE, 65502, 0) && data == []
    ensures Stored(f, data) == 0
  {
    var p := Unsealed(f, data);
    Outline(f, data);
    FrontOfNone(f);
    BackOfNone(f, data);
    SumOfNone(p);
    StoredZero(f, data);
  }

  lemma BackOfNone(f: Fields, data: seq<Byte>)
    requires f.lport == 65502 && f.rport == 0 && data == []
    ensures Put16(f.lport) == [0xff, 0xde] && Back(f, data) == [0, 0, 0, 8, 0, 0]
  {
  }

  lemma FrontOfNone(f: Fields)
    requires f.laddr == NONE && f.raddr == NONE
    ensures var b := Front(f, 8); |b| == 40 && Get16(b, 4) == 8 && b[6] == 17 && b[8..] == NONE + NONE
  {
  }

  lemma SumOfNone(p: seq<Byte>)
    requires |p| == 48 && p[40..42] == [0xff, 0xde] && p[42..] == [0, 0, 0, 8, 0, 0]
    requires var b := p[..40]; Get16(b, 4) == 8 && b[6] == 17 && b[8..] == NONE + NONE
    ensures Sum(p, 48) == 65535
  {
    var b := p[..40];
    assert forall k :: 8 <= k < 40 ==> p[k] == b[8..][k - 8] == 0;
    SumOfZeros(p, 8, 40, 48);
    EndSum(p);
    assert p[4] == b[4] && p[5] == b[5] && p[6] == b[6];
  }

  lemma EndSum(p: seq<Byte>)
    requires |p| == 48 && p[40..42] == [0xff, 0xde] && p[42..] == [0, 0, 0, 8, 0, 0]
    ensures SumFrom(p, 40, 48) == 65510
  {
    assert p[40] == p[40..42][0] && p[41] == p[40..42][1] && p[42] == p[42..][0] && p[43] == p[42..][1];
    assert p[44] == p[42..][2] && p[45] == p[42..][3] && p[46] == p[42..][4] && p[47] == p[42..][5];
    assert SumFrom(p, 46, 48) == 0 && SumFrom(p, 44, 48) == 8 && SumFrom(p, 42, 48) == 8;
  }

  lemma {:induction false} SumOfZeros(p: seq<Byte>, i: nat, j: nat, len: nat)
    requires i <= j <= len <= |p| && forall k :: i <= k < j ==> p[k] == 0
    ensures SumFrom(p, i, len) == SumFrom(p, j, len)
    decreases j - i
  {
    if i < j {
      SumOfZeros(p, i + 1, j, len);
    }
  }
}
