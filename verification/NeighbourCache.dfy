/** icmp.c on its own structures: the list of neighbours and the queues of packets waiting for each,
    both doubly linked, against the values of `Neighbour`. Memory is a map from addresses to records;
    address 0 is the null pointer. */
module NeighbourCache {
  import opened Basics
  import opened Neighbour

  type Ref = nat
  const NIL: Ref := 0

  datatype Pbuf = Pbuf(next: Ref, prev: Ref, packet: Packet)

  datatype Entry = Entry(next: Ref, prev: Ref, addr: Addr, state: NdState, linkaddr: Option<Link>, queue: Ref)

  type Pbufs = map<Ref, Pbuf>
  type Entries = map<Ref, Entry>

  /** An entry of the list with the packet buffers in its queue. */
  datatype Row = Row(id: Ref, bufs: seq<Ref>)

  function First(ids: seq<Ref>): Ref { if ids == [] then NIL else ids[0] }

  ghost function Members(ids: seq<Ref>): set<Ref> { set x | x in ids }

  ghost function Ids(rows: seq<Row>): set<Ref> { if rows == [] then {} else {rows[0].id} + Ids(rows[1..]) }

  ghost function Bufs(rows: seq<Row>): set<Ref> {
    if rows == [] then {} else Members(rows[0].bufs) + Bufs(rows[1..])
  }

  /** The packet buffers `ids` are linked one after the other. */
  ghost predicate Chain(pbufs: Pbufs, ids: seq<Ref>) {
    ids == [] ||
    (&& ids[0] != NIL && ids[0] in pbufs && ids[0] !in ids[1..] && pbufs[ids[0]].next == First(ids[1..])
     && (|ids| > 1 && ids[1] in pbufs ==> pbufs[ids[1]].prev == ids[0])
     && Chain(pbufs, ids[1..]))
  }

  /** The entries of `rows` are linked one after the other, from `p` on, and lead to their queues; no
      entry or packet buffer is there twice. Entry `x`, if it is one of them, is reachable, and need
      not lead to its queue, which is being released. */
  ghost predicate Holds(es: Entries, ps: Pbufs, p: Ref, prev: Ref, rows: seq<Row>, x: Ref)
    decreases |rows|
  {
    if rows == [] then p == NIL else
      && p == rows[0].id != NIL && p in es && es[p].prev == prev
      && (if p == x then es[p].state.Reachable? else es[p].queue == First(rows[0].bufs))
      && Chain(ps, rows[0].bufs) && p !in Ids(rows[1..]) && Members(rows[0].bufs) !! Bufs(rows[1..])
      && Holds(es, ps, es[p].next, p, rows[1..], x)
  }

  ghost function Contents(ps: Pbufs, ids: seq<Ref>): seq<Packet> {
    if ids == [] then [] else (if ids[0] in ps then [ps[ids[0]].packet] else []) + Contents(ps, ids[1..])
  }

  ghost function Shown(es: Entries, ps: Pbufs, r: Row): seq<Neighbor> {
    if r.id !in es then []
    else [Neighbor(es[r.id].addr, es[r.id].state, es[r.id].linkaddr, Contents(ps, r.bufs))]
  }

  /** The list of neighbours as a value. */
  ghost function Listing(es: Entries, ps: Pbufs, rows: seq<Row>): seq<Neighbor> {
    if rows == [] then [] else Shown(es, ps, rows[0]) + Listing(es, ps, rows[1..])
  }

  // ----- Framing -----

  ghost predicate Same<T>(m: map<Ref, T>, m': map<Ref, T>, ids: set<Ref>) {
    forall x :: x in ids && x in m ==> x in m' && m'[x] == m[x]
  }

  lemma {:induction false} ChainFrame(ps: Pbufs, ps': Pbufs, ids: seq<Ref>)
    requires Chain(ps, ids) && Same(ps, ps', Members(ids))
    ensures Chain(ps', ids) && Contents(ps', ids) == Contents(ps, ids)
  {
    if ids != [] {
      ChainFrame(ps, ps', ids[1..]);
      assert |ids| > 1 ==> ids[1] == ids[1..][0] && ids[1] in ps;
    }
  }

  lemma {:induction false} HoldsFrame(es: Entries, es': Entries, ps: Pbufs, ps': Pbufs, p: Ref, prev: Ref,
                                      rows: seq<Row>, x: Ref, x': Ref)
    requires Holds(es, ps, p, prev, rows, x) && Same(es, es', Ids(rows)) && Same(ps, ps', Bufs(rows))
    requires x !in Ids(rows) && x' !in Ids(rows)
    ensures Holds(es', ps', p, prev, rows, x') && Listing(es', ps', rows) == Listing(es, ps, rows)
    decreases |rows|
  {
    if rows != [] {
      ChainFrame(ps, ps', rows[0].bufs);
      HoldsFrame(es, es', ps, ps', es[p].next, p, rows[1..], x, x');
    }
  }

  lemma {:induction false} ListingLength(es: Entries, ps: Pbufs, p: Ref, prev: Ref, rows: seq<Row>, x: Ref)
    requires Holds(es, ps, p, prev, rows, x)
    ensures |Listing(es, ps, rows)| == |rows|
    decreases |rows|
  {
    if rows != [] {
      ListingLength(es, ps, es[p].next, p, rows[1..], x);
    }
  }

  /** The `i`-th row: its entry and queue are there, and apart from all others. */
  lemma {:induction false} RowAt(es: Entries, ps: Pbufs, p: Ref, prev: Ref, rows: seq<Row>, x: Ref, i: nat)
    requires Holds(es, ps, p, prev, rows, x) && i < |rows|
    ensures |Listing(es, ps, rows)| == |rows| && rows[i].id in es && rows[i].id in Ids(rows)
    ensures [Listing(es, ps, rows)[i]] == Shown(es, ps, rows[i]) && Chain(ps, rows[i].bufs)
    ensures if rows[i].id == x then es[x].state.Reachable? else es[rows[i].id].queue == First(rows[i].bufs)
    ensures Members(rows[i].bufs) <= Bufs(rows)
    decreases |rows|
  {
    ListingLength(es, ps, p, prev, rows, x);
    if i > 0 {
      RowAt(es, ps, es[p].next, p, rows[1..], x, i - 1);
    }
  }

  /** What the new row `r` in place of the `i`-th has to satisfy; the rest of memory stays. */
  ghost predicate Fits(es: Entries, es': Entries, ps: Pbufs, ps': Pbufs, rows: seq<Row>, i: nat, r: Row, x': Ref)
    requires i < |rows|
  {
    && r.id == rows[i].id && r.id in es && r.id in es'
    && es'[r.id].next == es[r.id].next && es'[r.id].prev == es[r.id].prev
    && (if r.id == x' then es'[r.id].state.Reachable? else es'[r.id].queue == First(r.bufs))
    && Chain(ps', r.bufs)
    && Same(es, es', Ids(rows) - {r.id})
    && Same(ps, ps', Bufs(rows) - Members(rows[i].bufs))
    && Members(r.bufs) !! (Bufs(rows) - Members(rows[i].bufs))
  }

  /** Changing one row changes just that neighbour. */
  lemma {:induction false} RowReplaced(es: Entries, es': Entries, ps: Pbufs, ps': Pbufs, p: Ref, prev: Ref,
                                       rows: seq<Row>, i: nat, r: Row, x: Ref, x': Ref)
    requires Holds(es, ps, p, prev, rows, x) && i < |rows| && Fits(es, es', ps, ps', rows, i, r, x')
    requires x in {NIL, r.id} && x' in {NIL, r.id} && NIL !in Ids(rows)
    ensures Holds(es', ps', p, prev, rows[i := r], x')
    ensures |Listing(es, ps, rows)| == |rows| == |Listing(es', ps', rows[i := r])|
    ensures Listing(es', ps', rows[i := r]) ==
      Listing(es, ps, rows)[i := Neighbor(es'[r.id].addr, es'[r.id].state, es'[r.id].linkaddr, Contents(ps', r.bufs))]
    decreases |rows|
  {
    if i == 0 {
      HeadReplaced(es, es', ps, ps', p, prev, rows, r, x, x');
    } else {
      RowAt(es, ps, es[p].next, p, rows[1..], x, i - 1);
      FitsRest(es, es', ps, ps', rows, i, r, x');
      RowReplaced(es, es', ps, ps', es[p].next, p, rows[1..], i - 1, r, x, x');
      RestReplaced(es, es', ps, ps', p, prev, rows, i, r, x, x');
      ReplacedInTail(Shown(es, ps, rows[0]), Listing(es, ps, rows[1..]), i - 1,
                     Neighbor(es'[r.id].addr, es'[r.id].state, es'[r.id].linkaddr, Contents(ps', r.bufs)));
    }
  }

  lemma ReplacedInTail(a: seq<Neighbor>, b: seq<Neighbor>, i: nat, n: Neighbor)
    requires |a| == 1 && i < |b|
    ensures a + b[i := n] == (a + b)[i + 1 := n]
  {
  }

  lemma HeadReplaced(es: Entries, es': Entries, ps: Pbufs, ps': Pbufs, p: Ref, prev: Ref,
                     rows: seq<Row>, r: Row, x: Ref, x': Ref)
    requires Holds(es, ps, p, prev, rows, x) && rows != [] && Fits(es, es', ps, ps', rows, 0, r, x')
    requires x in {NIL, r.id} && x' in {NIL, r.id} && NIL !in Ids(rows)
    ensures Holds(es', ps', p, prev, rows[0 := r], x')
    ensures |Listing(es, ps, rows)| == |rows| == |Listing(es', ps', rows[0 := r])|
    ensures Listing(es', ps', rows[0 := r]) ==
      Listing(es, ps, rows)[0 := Neighbor(es'[r.id].addr, es'[r.id].state, es'[r.id].linkaddr, Contents(ps', r.bufs))]
  {
    var rest := rows[1..];
    ListingLength(es, ps, p, prev, rows, x);
    assert rows[0 := r][1..] == rest;
    assert Ids(rest) <= Ids(rows) - {r.id} && Bufs(rest) <= Bufs(rows) - Members(rows[0].bufs);
    assert Members(r.bufs) !! Bufs(rest) && x !in Ids(rest) && x' !in Ids(rest);
    HoldsFrame(es, es', ps, ps', es[p].next, p, rest, x, x');
    ListingHead(es, ps, rows, es', ps', r);
  }

  lemma ListingHead(es: Entries, ps: Pbufs, rows: seq<Row>, es': Entries, ps': Pbufs, r: Row)
    requires rows != [] && rows[0].id in es && r.id in es' && Listing(es', ps', rows[1..]) == Listing(es, ps, rows[1..])
    ensures |Listing(es, ps, rows)| > 0
    ensures Listing(es', ps', rows[0 := r]) == Listing(es, ps, rows)[0 := Shown(es', ps', r)[0]]
  {
    assert rows[0 := r][1..] == rows[1..];
  }

  lemma FitsRest(es: Entries, es': Entries, ps: Pbufs, ps': Pbufs, rows: seq<Row>, i: nat, r: Row, x': Ref)
    requires 0 < i < |rows| && Fits(es, es', ps, ps', rows, i, r, x')
    ensures Fits(es, es', ps, ps', rows[1..], i - 1, r, x')
  {
    assert Ids(rows[1..]) <= Ids(rows) && Bufs(rows[1..]) <= Bufs(rows);
  }

  lemma RestReplaced(es: Entries, es': Entries, ps: Pbufs, ps': Pbufs, p: Ref, prev: Ref,
                     rows: seq<Row>, i: nat, r: Row, x: Ref, x': Ref)
    requires Holds(es, ps, p, prev, rows, x) && 0 < i < |rows| && Fits(es, es', ps, ps', rows, i, r, x')
    requires x in {NIL, r.id} && x' in {NIL, r.id} && NIL !in Ids(rows)
    requires r.id in Ids(rows[1..]) && Members(rows[i].bufs) <= Bufs(rows[1..])
    requires Holds(es', ps', es[p].next, p, rows[1..][i - 1 := r], x')
    ensures rows[i := r][1..] == rows[1..][i - 1 := r]
    ensures Holds(es', ps', p, prev, rows[i := r], x')
    ensures Listing(es', ps', rows[i := r]) == Shown(es, ps, rows[0]) + Listing(es', ps', rows[1..][i - 1 := r])
  {
    assert rows[i := r][1..] == rows[1..][i - 1 := r];
    assert p in Ids(rows) - {r.id} && Members(rows[0].bufs) <= Bufs(rows) - Members(rows[i].bufs);
    ChainFrame(ps, ps', rows[0].bufs);
    BufsReplaced(rows[1..], i - 1, r);
  }

  lemma {:induction false} BufsReplaced(rows: seq<Row>, i: nat, r: Row)
    requires i < |rows| && r.id == rows[i].id
    ensures Bufs(rows[i := r]) <= Bufs(rows) + Members(r.bufs) && Ids(rows[i := r]) == Ids(rows)
    decreases |rows|
  {
    if i == 0 {
      assert rows[i := r][1..] == rows[1..];
    } else {
      assert rows[i := r][1..] == rows[1..][i - 1 := r];
      BufsReplaced(rows[1..], i - 1, r);
    }
  }

  lemma {:induction false} NotNil(es: Entries, ps: Pbufs, p: Ref, prev: Ref, rows: seq<Row>, x: Ref)
    requires Holds(es, ps, p, prev, rows, x)
    ensures NIL !in Ids(rows) && Ids(rows) <= es.Keys
    decreases |rows|
  {
    if rows != [] {
      NotNil(es, ps, es[p].next, p, rows[1..], x);
    }
  }

  // ----- Queues -----

  /** The writes of queue_packet behind the last buffer `q`. */
  function Appended(ps: Pbufs, q: Ref, p: Ref): Pbufs
    requires q in ps && p in ps
  {
    var a := ps[q := ps[q].(next := p)];
    a[p := a[p].(prev := q)]
  }

  lemma {:induction false} ChainAppended(ps: Pbufs, ids: seq<Ref>, p: Ref)
    requires Chain(ps, ids) && ids != [] && p !in ids && p != NIL && p in ps && ps[p].next == NIL
    ensures ids[|ids| - 1] in ps
    ensures var a := Appended(ps, ids[|ids| - 1], p);
      Chain(a, ids + [p]) && Contents(a, ids + [p]) == Contents(ps, ids) + [ps[p].packet]
    decreases |ids|
  {
    if |ids| == 1 {
      assert (ids + [p])[1..] == [p];
      assert Contents(ps, ids) == [ps[ids[0]].packet] + Contents(ps, []);
      var a := Appended(ps, ids[0], p);
      assert Contents(a, [p]) == [ps[p].packet] + Contents(a, []);
    } else {
      var rest := ids[1..];
      ChainAppended(ps, rest, p);
      assert (ids + [p])[1..] == rest + [p] && (rest + [p])[0] == ids[1];
    }
  }

  lemma {:induction false} ContentsLength(ps: Pbufs, ids: seq<Ref>)
    requires Chain(ps, ids)
    ensures |Contents(ps, ids)| == |ids|
  {
    if ids != [] {
      ContentsLength(ps, ids[1..]);
    }
  }

  /** Below a new entry `at`, the former first one has `at` before it. */
  lemma HeadRelinked(es: Entries, es': Entries, ps: Pbufs, p: Ref, rows: seq<Row>, at: Ref)
    requires Holds(es, ps, p, NIL, rows, NIL) && Same(es, es', Ids(rows) - {p})
    requires p != NIL && p in es ==> p in es' && es'[p] == es[p].(prev := at)
    ensures Holds(es', ps, p, at, rows, NIL) && Listing(es', ps, rows) == Listing(es, ps, rows)
  {
    if rows != [] {
      NotNil(es, ps, p, NIL, rows, NIL);
      HoldsFrame(es, es', ps, ps, es[p].next, p, rows[1..], NIL, NIL);
    }
  }

  class Cache {
    const hw: nat
    var nlist: Ref
    var entries: Entries
    var pbufs: Pbufs
    var sent: seq<Tx>
    ghost var rows: seq<Row>

    ghost predicate ValidBut(x: Ref)
      reads this
    {
      Holds(entries, pbufs, nlist, NIL, rows, x)
    }

    ghost predicate Valid()
      reads this
    {
      ValidBut(NIL)
    }

    ghost function View(): Net
      reads this
    {
      Net(hw, Listing(entries, pbufs, rows), sent)
    }

    constructor (hwaddrLen: nat)
      ensures Valid() && View() == Net(hwaddrLen, [], [])
    {
      hw, nlist, entries, pbufs, sent, rows := hwaddrLen, NIL, map[], map[], [], [];
    }

    /** find_neighbor; `i` is its place in the list, the length of the list if there is none. */
    method FindNeighbor(a: Addr, ghost x: Ref) returns (n: Ref, ghost i: nat)
      requires ValidBut(x)
      ensures i == Find(View().list, a) && |View().list| == |rows|
      ensures n == if Find(View().list, a) < |rows| then rows[Find(View().list, a)].id else NIL
      ensures n == NIL <==> Find(View().list, a) == |rows|
    {
      n, i := nlist, 0;
      ghost var prev := NIL;
      ListingLength(entries, pbufs, nlist, NIL, rows, x);
      while n != NIL
        invariant i <= |rows| && Holds(entries, pbufs, n, prev, rows[i..], x)
        invariant Find(View().list, a) == i + Find(Listing(entries, pbufs, rows[i..]), a)
        decreases |rows| - i
      {
        if entries[n].addr == a {
          return;
        }
        assert rows[i..][1..] == rows[i + 1..];
        assert Listing(entries, pbufs, rows[i..])[1..] == Listing(entries, pbufs, rows[i + 1..]);
        prev, n, i := n, entries[n].next, i + 1;
      }
    }

    /** add_neighbor: at the head of the list; `at` is the address allocated. */
    method AddNeighbor(a: Addr, link: Option<Link>, at: Ref)
      requires Valid() && at != NIL && at !in entries
      modifies this`nlist, this`entries, this`rows
      ensures Valid() && View() == old(View()).(list := Added(hw, old(View().list), a, link))
      ensures rows == [Row(at, [])] + old(rows) && nlist == at && entries.Keys == old(entries.Keys) + {at}
    {
      var state := if hw == 0 || link.Some? then Reachable else Incomplete;
      ghost var es := entries;
      NotNil(entries, pbufs, nlist, NIL, rows, NIL);
      entries := entries[at := Entry(nlist, NIL, a, state, link, NIL)];
      if nlist != NIL {
        entries := entries[nlist := entries[nlist].(prev := at)];
      }
      HeadRelinked(es, entries, pbufs, nlist, rows, at);
      nlist := at;
      assert ([Row(at, [])] + rows)[1..] == rows;
      rows := [Row(at, [])] + rows;
    }

    /** queue_packet: behind the last packet in the queue of the `i`-th neighbour. */
    method QueuePacket(n: Ref, p: Ref, ghost i: nat)
      requires Valid() && i < |rows| && n == rows[i].id
      requires p != NIL && p in pbufs && pbufs[p].next == NIL && p !in Bufs(rows)
      modifies this`entries, this`pbufs, this`rows
      ensures Valid() && |old(View().list)| == |old(rows)|
      ensures View() == old(View()).(list := Queued(old(View().list), i, old(pbufs[p].packet)))
    {
      RowAt(entries, pbufs, nlist, NIL, rows, NIL, i);
      NotNil(entries, pbufs, nlist, NIL, rows, NIL);
      if entries[n].queue == NIL {
        Begin(n, p, i);
        return;
      }
      var q := entries[n].queue;
      ghost var ids, k := rows[i].bufs, 0;
      while pbufs[q].next != NIL
        invariant k < |ids| && q == ids[k] && Chain(pbufs, ids[k..])
        decreases |ids| - k
      {
        assert ids[k..][1..] == ids[k + 1..];
        q, k := pbufs[q].next, k + 1;
      }
      assert ids[k..][1..] == [];
      Append(q, p, i);
    }

    /** The first packet of a queue. */
    method Begin(n: Ref, p: Ref, ghost i: nat)
      requires Valid() && i < |rows| && n == rows[i].id && rows[i].bufs == []
      requires p != NIL && p in pbufs && pbufs[p].next == NIL && p !in Bufs(rows)
      modifies this`entries, this`rows
      ensures Valid() && |old(View().list)| == |old(rows)|
      ensures View() == old(View()).(list := Queued(old(View().list), i, pbufs[p].packet))
    {
      ghost var es, r := entries, Row(n, [p]);
      RowAt(entries, pbufs, nlist, NIL, rows, NIL, i);
      NotNil(entries, pbufs, nlist, NIL, rows, NIL);
      entries := entries[n := entries[n].(queue := p)];
      assert Contents(pbufs, r.bufs) == [pbufs[p].packet] == Contents(pbufs, rows[i].bufs) + [pbufs[p].packet];
      RowReplaced(es, entries, pbufs, pbufs, nlist, NIL, rows, i, r, NIL, NIL);
      rows := rows[i := r];
    }

    /** The two writes behind the last packet `q` of a queue. */
    method Append(q: Ref, p: Ref, ghost i: nat)
      requires Valid() && i < |rows| && rows[i].bufs != [] && q == rows[i].bufs[|rows[i].bufs| - 1]
      requires p != NIL && p in pbufs && pbufs[p].next == NIL && p !in Bufs(rows)
      modifies this`pbufs, this`rows
      ensures Valid() && |old(View().list)| == |old(rows)|
      ensures View() == old(View()).(list := Queued(old(View().list), i, old(pbufs[p].packet)))
    {
      ghost var ps, ids := pbufs, rows[i].bufs;
      ghost var r := Row(rows[i].id, ids + [p]);
      RowAt(entries, pbufs, nlist, NIL, rows, NIL, i);
      NotNil(entries, pbufs, nlist, NIL, rows, NIL);
      assert p !in ids && q in ids;
      ChainAppended(pbufs, ids, p);
      pbufs := pbufs[q := pbufs[q].(next := p)];
      pbufs := pbufs[p := pbufs[p].(prev := q)];
      assert Members(r.bufs) == Members(ids) + {p};
      RowReplaced(entries, entries, ps, pbufs, nlist, NIL, rows, i, r, NIL, NIL);
      rows := rows[i := r];
    }

    /** The interface transmits a packet and frees its buffer. */
    method Transmit(p: Ref, tx: Tx, ghost x: Ref)
      requires ValidBut(x) && p !in Bufs(rows)
      modifies this`pbufs, this`sent
      ensures ValidBut(x) && View() == old(View()).(sent := old(sent) + [tx]) && pbufs == old(pbufs) - {p}
    {
      sent := sent + [tx];
      ReleasedFrame(entries, pbufs, pbufs - {p}, nlist, NIL, rows, x);
      pbufs := pbufs - {p};
    }

    /** send_pkt. While the queue of neighbour `x` is being released, for its packets only. */
    method Send(p: Ref, at: Ref, ghost x: Ref)
      requires ValidBut(x) && p != NIL && p in pbufs && p !in Bufs(rows) && at != NIL && at !in entries
      requires !Leaves(View(), pbufs[p].packet) ==> x == NIL && pbufs[p].next == NIL
      modifies this
      ensures ValidBut(x) && View() == SendPkt(old(View()), old(pbufs[p].packet))
      ensures old(Leaves(View(), pbufs[p].packet)) ==>
        nlist == old(nlist) && entries == old(entries) && rows == old(rows) && pbufs == old(pbufs) - {p}
    {
      var packet := pbufs[p].packet;
      if packet.dest[0] == 0xff {
        Transmit(p, Multicast(packet), x);
      } else if hw > 0 {
        var dest := Hop(packet);
        var n;
        ghost var i;
        n, i := FindNeighbor(dest, x);
        if n != NIL {
          RowAt(entries, pbufs, nlist, NIL, rows, x, i);
          if entries[n].state.Reachable? {
            Transmit(p, Unicast(packet, entries[n].linkaddr), x);
          } else {
            QueuePacket(n, p, i);
          }
        } else {
          Resolve(dest, p, at);
        }
      } else {
        Transmit(p, Unicast(packet, None), x);
      }
    }

    /** The branch of send_pkt for a neighbour that is not known. */
    method Resolve(dest: Addr, p: Ref, at: Ref)
      requires Valid() && hw > 0 && at != NIL && at !in entries
      requires p != NIL && p in pbufs && pbufs[p].next == NIL && p !in Bufs(rows)
      modifies this
      ensures Valid()
      ensures View() == Net(hw, [Neighbor(dest, Incomplete, None, [old(pbufs[p].packet)])] + old(View().list),
                            old(sent) + [Solicit(dest)])
    {
      ghost var was := View().list;
      sent := sent + [Solicit(dest)];
      AddNeighbor(dest, None, at);
      assert rows[1..] == old(rows);
      QueuedAtHead(Neighbor(dest, Incomplete, None, []), was, pbufs[p].packet);
      QueuePacket(at, p, 0);
    }

    /** One iteration of the loop in got_neighbor: the first packet leaves the queue and goes through
        send_pkt again. */
    method ReleaseOne(n: Ref, p: Ref, at: Ref, ghost i: nat) returns (next: Ref)
      requires ValidBut(n) && i < |rows| && rows[i].id == n && rows[i].bufs != [] && p == rows[i].bufs[0]
      requires n in entries && p in pbufs && hw > 0 && at != NIL && at !in entries
      requires Hop(pbufs[p].packet) == entries[n].addr && !IsMulticast(pbufs[p].packet)
      requires Find(View().list, entries[n].addr) == i
      modifies this
      ensures ValidBut(n) && nlist == old(nlist) && entries == old(entries) && pbufs == old(pbufs) - {p}
      ensures rows == old(rows)[i := Row(n, old(rows[i].bufs)[1..])] && next == First(old(rows[i].bufs)[1..])
      ensures |old(View().list)| == |old(rows)| && View().list == Popped(old(View().list), i)
      ensures sent == old(sent) + [Unicast(old(pbufs[p].packet), entries[n].linkaddr)]
    {
      RowAt(entries, pbufs, nlist, NIL, rows, n, i);
      next := pbufs[p].next;
      TakeOut(n, i);
      Send(p, at, n);
    }

    /** The first packet is no longer part of the queue. */
    ghost method TakeOut(n: Ref, i: nat)
      requires ValidBut(n) && i < |rows| && rows[i].id == n && rows[i].bufs != [] && n in entries
      modifies this`rows
      ensures ValidBut(n) && rows == old(rows)[i := Row(n, old(rows[i].bufs)[1..])]
      ensures old(rows[i].bufs)[0] !in Bufs(rows)
      ensures |old(View().list)| == |old(rows)| && View().list == Popped(old(View().list), i)
      ensures Find(View().list, entries[n].addr) == Find(old(View().list), entries[n].addr)
    {
      var was, ids := View().list, rows[i].bufs;
      RowAt(entries, pbufs, nlist, NIL, rows, n, i);
      NotNil(entries, pbufs, nlist, NIL, rows, n);
      var r := Row(n, ids[1..]);
      assert Members(ids) == {ids[0]} + Members(ids[1..]) && ids[0] !in Members(ids[1..]);
      RowReplaced(entries, entries, pbufs, pbufs, nlist, NIL, rows, i, r, n, n);
      BufsWithout(entries, pbufs, nlist, NIL, rows, n, i);
      rows := rows[i := r];
      assert View().list == Popped(was, i);
      FindKept(was, i, View().list[i], entries[n].addr);
    }

    /** The first `done` packets of the `i`-th neighbour's queue, `q` in the buffers `ids`, have gone
        out, starting from `was`. */
    ghost predicate Releasing(n: Ref, i: nat, was: Net, ids: seq<Ref>, q: seq<Packet>, done: nat)
      reads this
    {
      && ValidBut(n) && i < |rows| && done <= |ids| == |q| && n in entries
      && rows[i] == Row(n, ids[done..]) && Contents(pbufs, ids[done..]) == q[done..]
      && |was.list| == |rows| && View().list == was.list[i := was.list[i].(queue := q[done..])]
      && sent == was.sent + Unicasts(q[..done], entries[n].linkaddr)
      && Find(was.list, entries[n].addr) == i
    }

    method ReleaseNext(n: Ref, p: Ref, at: Ref, ghost i: nat, ghost was: Net,
                       ghost ids: seq<Ref>, ghost q: seq<Packet>, ghost done: nat) returns (next: Ref)
      requires Releasing(n, i, was, ids, q, done) && done < |ids| && p == ids[done]
      requires hw > 0 && at != NIL && at !in entries && AllFor(q, entries[n].addr)
      modifies this
      ensures Releasing(n, i, was, ids, q, done + 1) && next == First(ids[done + 1..])
      ensures entries == old(entries)
    {
      ReleasePoint(n, i, was, ids, q, done);
      PoppedNext(was.list, i, q, done);
      assert ids[done..][1..] == ids[done + 1..] && q[..done + 1][..done] == q[..done];
      next := ReleaseOne(n, p, at, i);
      RowContents(i, n);
    }

    lemma ReleasePoint(n: Ref, i: nat, was: Net, ids: seq<Ref>, q: seq<Packet>, done: nat)
      requires Releasing(n, i, was, ids, q, done) && done < |ids|
      ensures ids[done] in pbufs && pbufs[ids[done]].packet == q[done] && Find(View().list, entries[n].addr) == i
    {
      RowAt(entries, pbufs, nlist, NIL, rows, n, i);
      assert q[done..][0] == q[done];
      FindKept(was.list, i, View().list[i], entries[n].addr);
    }

    lemma RowContents(i: nat, x: Ref)
      requires ValidBut(x) && i < |rows|
      ensures |View().list| == |rows| && View().list[i].queue == Contents(pbufs, rows[i].bufs)
    {
      RowAt(entries, pbufs, nlist, NIL, rows, x, i);
    }

    /** Reachable entry `n` need not lead to its queue any more. */
    lemma Unpin(n: Ref, i: nat)
      requires Valid() && i < |rows| && rows[i].id == n && n in entries && entries[n].state.Reachable?
      ensures ValidBut(n)
    {
      RowAt(entries, pbufs, nlist, NIL, rows, NIL, i);
      NotNil(entries, pbufs, nlist, NIL, rows, NIL);
      RowReplaced(entries, entries, pbufs, pbufs, nlist, NIL, rows, i, rows[i], NIL, n);
      assert rows[i := rows[i]] == rows;
    }

    /** The loop of got_neighbor. */
    method Flush(n: Ref, at: Ref, ghost i: nat, ghost ids: seq<Ref>, ghost q: seq<Packet>)
      requires Valid() && i < |rows| && rows[i] == Row(n, ids) && n in entries && entries[n].state.Reachable?
      requires q == Contents(pbufs, ids) && (q != [] ==> hw > 0) && at != NIL && at !in entries
      requires AllFor(q, entries[n].addr)
      requires Find(View().list, entries[n].addr) == i
      modifies this
      ensures Releasing(n, i, old(View()), ids, q, |q|) && entries == old(entries)
    {
      ghost var was, done := View(), 0;
      BeginRelease(n, i, ids, q);
      var p := entries[n].queue;
      while p != NIL
        invariant Releasing(n, i, was, ids, q, done) && entries == old(entries) && p == First(ids[done..])
        decreases |ids| - done
      {
        p := ReleaseNext(n, p, at, i, was, ids, q, done);
        done := done + 1;
      }
      ReleaseEnd(n, i, was, ids, q, done);
    }

    ghost method ReleaseEnd(n: Ref, i: nat, was: Net, ids: seq<Ref>, q: seq<Packet>, done: nat)
      requires Releasing(n, i, was, ids, q, done) && First(ids[done..]) == NIL
      ensures done == |q|
    {
      RowAt(entries, pbufs, nlist, NIL, rows, n, i);
    }

    ghost method BeginRelease(n: Ref, i: nat, ids: seq<Ref>, q: seq<Packet>)
      requires Valid() && i < |rows| && rows[i] == Row(n, ids) && n in entries && entries[n].state.Reachable?
      requires q == Contents(pbufs, ids) && Find(View().list, entries[n].addr) == i
      ensures Releasing(n, i, View(), ids, q, 0) && entries[n].queue == First(ids)
    {
      RowAt(entries, pbufs, nlist, NIL, rows, NIL, i);
      NotNil(entries, pbufs, nlist, NIL, rows, NIL);
      ContentsLength(pbufs, ids);
      Unpin(n, i);
      var list := View().list;
      assert ids[0..] == ids && q[0..] == q && list[i].queue == q && list[i := list[i]] == list;
    }

    /** The field writes of got_neighbor for a neighbour it finds. */
    method Heard(n: Ref, a: Addr, link: Option<Link>, ghost i: nat)
      requires Valid() && i < |rows| && rows[i].id == n
      modifies this`entries
      ensures Valid() && n in entries && entries[n].state.Reachable? && entries[n].queue == First(rows[i].bufs)
      ensures |old(View().list)| == |rows| && entries.Keys == old(entries.Keys)
      ensures var o := old(View().list)[i]; var l := if link.Some? then link else o.linkaddr;
        View().list == old(View().list)[i := o.(state := Reachable, linkaddr := l)]
      ensures [View().list[i]] == Shown(entries, pbufs, rows[i])
    {
      ghost var es := entries;
      RowAt(entries, pbufs, nlist, NIL, rows, NIL, i);
      NotNil(entries, pbufs, nlist, NIL, rows, NIL);
      if link.Some? {
        entries := entries[n := entries[n].(linkaddr := link)];
      }
      entries := entries[n := entries[n].(state := Reachable)];
      RowReplaced(es, entries, pbufs, pbufs, nlist, NIL, rows, i, rows[i], NIL, NIL);
      assert rows[i := rows[i]] == rows;
    }

    /** The queue pointer is cleared once all has gone out. */
    method Emptied(n: Ref, ghost i: nat, ghost was: Net, ghost ids: seq<Ref>, ghost q: seq<Packet>)
      requires Releasing(n, i, was, ids, q, |q|)
      modifies this`entries
      ensures Valid()
      ensures View() == Net(hw, was.list[i := was.list[i].(queue := [])],
                            was.sent + Unicasts(q, old(entries[n].linkaddr)))
    {
      ghost var es := entries;
      RowAt(entries, pbufs, nlist, NIL, rows, n, i);
      NotNil(entries, pbufs, nlist, NIL, rows, n);
      entries := entries[n := entries[n].(queue := NIL)];
      assert q[|q|..] == [] && q[..|q|] == q && ids[|q|..] == [];
      RowReplaced(es, entries, pbufs, pbufs, nlist, NIL, rows, i, rows[i], n, NIL);
      assert rows[i := rows[i]] == rows;
    }

    /** got_neighbor */
    method Got(a: Addr, link: Option<Link>, at: Ref)
      requires Valid() && Tidy(View()) && at != NIL && at !in entries
      modifies this
      ensures Valid() && View() == GotNeighbor(old(View()), a, link)
    {
      var n;
      ghost var i;
      n, i := FindNeighbor(a, NIL);
      if n == NIL {
        AddNeighbor(a, link, at);
        return;
      }
      ghost var was := View();
      RowContents(i, NIL);
      ghost var q := was.list[i].queue;
      Heard(n, a, link, i);
      FindKept(was.list, i, View().list[i], a);
      Empty(n, at, i, q);
    }

    /** The rest of got_neighbor: the queue, if there is one, goes out and is cleared. */
    method Empty(n: Ref, at: Ref, ghost i: nat, ghost q: seq<Packet>)
      requires Valid() && i < |rows| && rows[i].id == n && n in entries && entries[n].state.Reachable?
      requires q == Contents(pbufs, rows[i].bufs) && (q != [] ==> hw > 0) && at != NIL && at !in entries
      requires AllFor(q, entries[n].addr)
      requires Find(View().list, entries[n].addr) == i
      modifies this
      ensures Valid() && |old(View().list)| == |old(rows)|
      ensures View() == Net(hw, old(View().list)[i := old(View().list)[i].(queue := [])],
                            old(sent) + Unicasts(q, old(entries[n].linkaddr)))
    {
      RowAt(entries, pbufs, nlist, NIL, rows, NIL, i);
      NotNil(entries, pbufs, nlist, NIL, rows, NIL);
      ghost var was, ids := View(), rows[i].bufs;
      if entries[n].queue != NIL {
        Flush(n, at, i, ids, q);
        Emptied(n, i, was, ids, q);
      } else {
        assert q == [] && sent + [] == sent && was.list[i := was.list[i]] == was.list;
      }
    }

    /** Any run of packets and advertisements takes the linked cache where it takes the value, so what
        is proved of runs holds of it. */
    method Drive(events: seq<Event>)
      requires Valid() && Tidy(View())
      modifies this
      ensures Valid() && View() == Run(old(View()), events)
    {
      var i := 0;
      assert events[..0] == [];
      while i < |events|
        invariant i <= |events| && Valid() && Tidy(View()) && View() == Run(old(View()), events[..i])
      {
        assert events[..i + 1][..i] == events[..i];
        Serve(events[i]);
        i := i + 1;
      }
      assert events[..|events|] == events;
    }

    method Serve(e: Event)
      requires Valid() && Tidy(View())
      modifies this
      ensures Valid() && Tidy(View()) && View() == Step(old(View()), e)
    {
      var at := Unused(entries);
      match e
      case Submit(packet) =>
        var p := Unused(pbufs);
        SubmitTidy(View(), packet);
        Submit(packet, p, at);
      case Learn(a, link) =>
        LearnTidy(View(), a, link);
        Got(a, link, at);
    }

    /** A packet handed to send_pkt in a new buffer `p`. */
    method Submit(packet: Packet, p: Ref, at: Ref)
      requires Valid() && p != NIL && p !in pbufs && at != NIL && at !in entries
      modifies this
      ensures Valid() && View() == SendPkt(old(View()), packet)
    {
      BufsThere(entries, pbufs, nlist, NIL, rows, NIL);
      ReleasedFrame(entries, pbufs, pbufs[p := Pbuf(NIL, NIL, packet)], nlist, NIL, rows, NIL);
      pbufs := pbufs[p := Pbuf(NIL, NIL, packet)];
      Send(p, at, NIL);
    }
  }

  /** An address that is not in use. */
  method Unused<T>(m: map<Ref, T>) returns (r: Ref)
    ensures r != NIL && r !in m
  {
    r := 1;
    ghost var seen: set<Ref> := {};
    while r in m
      invariant r != NIL && forall x :: x in seen ==> x < r
      decreases m.Keys - seen
    {
      seen := seen + {r};
      r := r + 1;
    }
  }

  lemma {:induction false} BufsThere(es: Entries, ps: Pbufs, p: Ref, prev: Ref, rows: seq<Row>, x: Ref)
    requires Holds(es, ps, p, prev, rows, x)
    ensures Bufs(rows) <= ps.Keys
    decreases |rows|
  {
    if rows != [] {
      ChainThere(ps, rows[0].bufs);
      BufsThere(es, ps, es[p].next, p, rows[1..], x);
    }
  }

  lemma {:induction false} ChainThere(ps: Pbufs, ids: seq<Ref>)
    requires Chain(ps, ids)
    ensures Members(ids) <= ps.Keys
  {
    if ids != [] {
      ChainThere(ps, ids[1..]);
    }
  }

  /** The packets are for neighbour `a`. */
  ghost predicate AllFor(q: seq<Packet>, a: Addr) {
    forall k :: 0 <= k < |q| ==> Hop(q[k]) == a && !IsMulticast(q[k])
  }

  function Popped(list: seq<Neighbor>, i: nat): seq<Neighbor>
    requires i < |list|
  {
    list[i := list[i].(queue := if list[i].queue == [] then [] else list[i].queue[1..])]
  }

  lemma PoppedNext(list: seq<Neighbor>, i: nat, q: seq<Packet>, k: nat)
    requires i < |list| && k < |q|
    ensures Popped(list[i := list[i].(queue := q[k..])], i) == list[i := list[i].(queue := q[k + 1..])]
  {
    assert q[k..][1..] == q[k + 1..];
  }

  lemma FindKept(list: seq<Neighbor>, i: nat, n: Neighbor, a: Addr)
    requires i < |list| && n.addr == list[i].addr
    ensures Find(list[i := n], a) == Find(list, a)
  {
    var list' := list[i := n];
    assert forall j :: 0 <= j < |list| ==> list'[j].addr == list[j].addr;
  }

  lemma QueuedAtHead(n: Neighbor, list: seq<Neighbor>, p: Packet)
    ensures Queued([n] + list, 0, p) == [n.(queue := n.queue + [p])] + list
    ensures n.queue == [] ==> n.queue + [p] == [p]
  {
  }

  /** Once taken out of its queue, the first buffer of the `i`-th is in no queue. */
  lemma {:induction false} BufsWithout(es: Entries, ps: Pbufs, p: Ref, prev: Ref, rows: seq<Row>, x: Ref, i: nat)
    requires Holds(es, ps, p, prev, rows, x) && i < |rows| && rows[i].bufs != []
    ensures rows[i].bufs[0] !in Bufs(rows[i := Row(rows[i].id, rows[i].bufs[1..])])
    decreases |rows|
  {
    var r := Row(rows[i].id, rows[i].bufs[1..]);
    if i == 0 {
      assert rows[i := r][1..] == rows[1..];
      assert rows[i].bufs[0] in Members(rows[i].bufs);
    } else {
      assert rows[i := r][1..] == rows[1..][i - 1 := r];
      RowAt(es, ps, es[p].next, p, rows[1..], x, i - 1);
      assert rows[i].bufs[0] in Members(rows[i].bufs);
      BufsWithout(es, ps, es[p].next, p, rows[1..], x, i - 1);
    }
  }

  /** The packet is transmitted at once. */
  predicate Leaves(net: Net, p: Packet) { IsMulticast(p) || GoesOut(net, p) }

  lemma {:induction false} ReleasedFrame(es: Entries, ps: Pbufs, ps': Pbufs, p: Ref, prev: Ref, rows: seq<Row>, x: Ref)
    requires Holds(es, ps, p, prev, rows, x) && Same(ps, ps', Bufs(rows))
    ensures Holds(es, ps', p, prev, rows, x) && Listing(es, ps', rows) == Listing(es, ps, rows)
    decreases |rows|
  {
    if rows != [] {
      ChainFrame(ps, ps', rows[0].bufs);
      ReleasedFrame(es, ps, ps', es[p].next, p, rows[1..], x);
    }
  }
}
