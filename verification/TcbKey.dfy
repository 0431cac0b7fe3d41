/** The key order of tcb.c. */
module TcbKey {
  import opened Basics

  /** The fields of a control block that identify its connection. */
  datatype Ends = Ends(laddr: Addr, lport: int, raddr: Addr, rport: int)

  /** What tcbcmp looks at. */
  datatype Key = Key(rport: int, lport: int, raddr: Addr)

  function KeyOf(e: Ends): Key { Key(e.rport, e.lport, e.raddr) }

  const ANY: Addr := [0, 0, 0, 0, 0, 0, 0, 0, 0, 0, 0, 0, 0, 0, 0, 0]
  const WILDCARD := Ends(ANY, 0, ANY, 0)
  const LISTENER := KeyOf(WILDCARD)

  /** memcmp: the difference at the first place where the two differ. */
  function MemCmp(a: seq<Byte>, b: seq<Byte>): int
    requires |a| == |b|
  {
    if a == [] then 0 else if a[0] != b[0] then a[0] - b[0] else MemCmp(a[1..], b[1..])
  }

  /** tcbcmp; its second address comparison repeats the first. */
  function TcbCmp(a: Ends, b: Ends): int {
    if b.rport != a.rport then b.rport - a.rport
    else if b.lport != a.lport then b.lport - a.lport
    else if MemCmp(a.raddr, b.raddr) != 0 then MemCmp(a.raddr, b.raddr)
    else MemCmp(a.raddr, b.raddr)
  }

  lemma {:induction false} MemCmpZero(a: seq<Byte>, b: seq<Byte>)
    requires |a| == |b|
    ensures MemCmp(a, b) == 0 <==> a == b
  {
    if a != [] {
      MemCmpZero(a[1..], b[1..]);
      assert a == [a[0]] + a[1..] && b == [b[0]] + b[1..];
    }
  }

  lemma {:induction false} MemCmpSwap(a: seq<Byte>, b: seq<Byte>)
    requires |a| == |b|
    ensures MemCmp(a, b) == -MemCmp(b, a)
  {
    if a != [] {
      MemCmpSwap(a[1..], b[1..]);
    }
  }

  lemma {:induction false} MemCmpTrans(a: seq<Byte>, b: seq<Byte>, c: seq<Byte>)
    requires |a| == |b| == |c| && MemCmp(a, b) < 0 && MemCmp(b, c) < 0
    ensures MemCmp(a, c) < 0
  {
    if a[0] == b[0] && b[0] == c[0] {
      MemCmpTrans(a[1..], b[1..], c[1..]);
    }
  }

  /** tcbcmp orders control blocks strictly and totally by their keys, and 0 means the same key. */
  lemma TotalOrder(a: Ends, b: Ends, c: Ends)
    ensures TcbCmp(a, b) == 0 <==> KeyOf(a) == KeyOf(b)
    ensures TcbCmp(a, b) < 0 <==> TcbCmp(b, a) > 0
    ensures TcbCmp(a, b) < 0 && TcbCmp(b, c) < 0 ==> TcbCmp(a, c) < 0
  {
    MemCmpZero(a.raddr, b.raddr);
    MemCmpSwap(a.raddr, b.raddr);
    if MemCmp(a.raddr, b.raddr) < 0 && MemCmp(b.raddr, c.raddr) < 0 {
      MemCmpTrans(a.raddr, b.raddr, c.raddr);
    }
  }

  /** memcmp is negative exactly if the first place where the two differ has the smaller byte. */
  lemma {:induction false} MemCmpFirst(a: seq<Byte>, b: seq<Byte>)
    requires |a| == |b|
    ensures MemCmp(a, b) < 0 <==> exists k :: 0 <= k < |a| && a[..k] == b[..k] && a[k] < b[k]
  {
    if a != [] {
      MemCmpFirst(a[1..], b[1..]);
      if a[0] != b[0] {
        assert a[..0] == b[..0];
      } else {
        ShiftFirst(a, b);
      }
    }
  }

  lemma ShiftFirst(a: seq<Byte>, b: seq<Byte>)
    requires |a| == |b| > 0 && a[0] == b[0]
    ensures (exists k :: 0 <= k < |a| && a[..k] == b[..k] && a[k] < b[k]) <==>
      exists k :: 0 <= k < |a| - 1 && a[1..][..k] == b[1..][..k] && a[1..][k] < b[1..][k]
  {
    if k :| 0 <= k < |a| && a[..k] == b[..k] && a[k] < b[k] {
      assert a[1..][..k - 1] == a[..k][1..] && b[1..][..k - 1] == b[..k][1..];
      assert a[1..][k - 1] < b[1..][k - 1];
    }
    if k :| 0 <= k < |a| - 1 && a[1..][..k] == b[1..][..k] && a[1..][k] < b[1..][k] {
      assert a[..k + 1] == [a[0]] + a[1..][..k] && b[..k + 1] == [b[0]] + b[1..][..k];
      assert a[k + 1] < b[k + 1];
    }
  }

  /** Control blocks are ordered by falling remote port, then falling local port, then rising remote address. */
  lemma OrderIs(a: Ends, b: Ends)
    ensures TcbCmp(a, b) < 0 <==>
      || a.rport > b.rport
      || (a.rport == b.rport && a.lport > b.lport)
      || (a.rport == b.rport && a.lport == b.lport &&
          exists k :: 0 <= k < 16 && a.raddr[..k] == b.raddr[..k] && a.raddr[k] < b.raddr[k])
  {
    MemCmpFirst(a.raddr, b.raddr);
  }

  /** Two control blocks compare equal exactly if ports and remote address agree: the local address
      tells nothing apart. */
  lemma LocalAddressNotCompared(a: Ends, b: Ends)
    ensures TcbCmp(a, b) == 0 <==> a == b.(laddr := a.laddr)
  {
    MemCmpZero(a.raddr, b.raddr);
  }
}
