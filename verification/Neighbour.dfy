/** The neighbour cache of icmp.c: packets wait in the queue of an unresolved neighbour until its
    link address is known (section 7.2.2 of RFC 4861). */
module Neighbour {
  import opened Basics

  type Link = seq<int>

  datatype NdState = Incomplete | Reachable

  datatype Packet = Packet(id: nat, dest: Addr)

  datatype Neighbor = Neighbor(addr: Addr, state: NdState, linkaddr: Option<Link>, queue: seq<Packet>)

  /** What the interface is asked to transmit. */
  datatype Tx = Multicast(p: Packet) | Unicast(p: Packet, to: Option<Link>) | Solicit(target: Addr)

  /** `hw` is the length of link addresses on the interface; `sent` is what went out so far. */
  datatype Net = Net(hw: nat, list: seq<Neighbor>, sent: seq<Tx>)

  const OTHER: Addr := [0xfe, 0x80, 0, 0, 0, 0, 0, 0, 0, 0, 0, 0, 0, 0, 0, 1]

  predicate IsMulticast(p: Packet) { p.dest[0] == 0xff }

  /** The neighbour a packet goes through: itself if link-local, else the one router. */
  function Hop(p: Packet): Addr {
    if p.dest[0] == 0xfe && p.dest[1] == 0x80 then p.dest else OTHER
  }

  /** find_neighbor; the length of the list if there is none. */
  function Find(list: seq<Neighbor>, a: Addr): (i: nat)
    ensures i <= |list|
    ensures i < |list| ==> list[i].addr == a
    ensures forall j :: 0 <= j < i ==> list[j].addr != a
  {
    if list == [] then 0 else if list[0].addr == a then 0 else 1 + Find(list[1..], a)
  }

  function Added(hw: nat, list: seq<Neighbor>, a: Addr, link: Option<Link>): seq<Neighbor> {
    [Neighbor(a, if hw == 0 || link.Some? then Reachable else Incomplete, link, [])] + list
  }

  function Queued(list: seq<Neighbor>, i: nat, p: Packet): seq<Neighbor>
    requires i < |list|
  {
    list[i := list[i].(queue := list[i].queue + [p])]
  }

  /** send_pkt */
  function SendPkt(net: Net, p: Packet): Net {
    if IsMulticast(p) then net.(sent := net.sent + [Multicast(p)])
    else if net.hw == 0 then net.(sent := net.sent + [Unicast(p, None)])
    else
      var i := Find(net.list, Hop(p));
      if i == |net.list| then
        Net(net.hw, [Neighbor(Hop(p), Incomplete, None, [p])] + net.list, net.sent + [Solicit(Hop(p))])
      else if net.list[i].state.Reachable? then net.(sent := net.sent + [Unicast(p, net.list[i].linkaddr)])
      else net.(list := Queued(net.list, i, p))
  }

  function Unicasts(q: seq<Packet>, link: Option<Link>): (r: seq<Tx>)
    ensures |r| == |q| && forall i :: 0 <= i < |q| ==> r[i] == Unicast(q[i], link)
  {
    if q == [] then [] else Unicasts(q[..|q| - 1], link) + [Unicast(q[|q| - 1], link)]
  }

  /** got_neighbor: the queue goes out in order and is emptied. */
  function GotNeighbor(net: Net, a: Addr, link: Option<Link>): Net {
    var i := Find(net.list, a);
    if i == |net.list| then net.(list := Added(net.hw, net.list, a, link)) else
    var n := net.list[i];
    var l := if link.Some? then link else n.linkaddr;
    Net(net.hw, net.list[i := Neighbor(a, Reachable, l, [])], net.sent + Unicasts(n.queue, l))
  }

  // ----- What every run keeps -----

  datatype Event = Submit(p: Packet) | Learn(a: Addr, link: Option<Link>)

  function Step(net: Net, e: Event): Net {
    match e
    case Submit(p) => SendPkt(net, p)
    case Learn(a, link) => GotNeighbor(net, a, link)
  }

  function Run(net: Net, events: seq<Event>): Net
    decreases |events|
  {
    if events == [] then net else Step(Run(net, events[..|events| - 1]), events[|events| - 1])
  }

  /** The packets for neighbour `a`, in order. */
  function ToHop(ps: seq<Packet>, a: Addr): seq<Packet> {
    if ps == [] then [] else
    ToHop(ps[..|ps| - 1], a) + if Hop(ps[|ps| - 1]) == a then [ps[|ps| - 1]] else []
  }

  /** The packets that went out by unicast, in order. */
  function Released(sent: seq<Tx>): seq<Packet> {
    if sent == [] then [] else
    Released(sent[..|sent| - 1]) + if sent[|sent| - 1].Unicast? then [sent[|sent| - 1].p] else []
  }

  /** The packets submitted for unicast, in order. */
  function Submitted(events: seq<Event>): seq<Packet>
    decreases |events|
  {
    if events == [] then [] else
    var e := events[|events| - 1];
    Submitted(events[..|events| - 1]) + if e.Submit? && !IsMulticast(e.p) then [e.p] else []
  }

  function Waiting(list: seq<Neighbor>, a: Addr): seq<Packet> {
    if Find(list, a) < |list| then list[Find(list, a)].queue else []
  }

  /** Addresses are unique, a reachable neighbour has an empty queue, and a queue holds only
      packets for its own neighbour; without link addresses nothing waits. */
  ghost predicate Tidy(net: Net) {
    && (forall i, j :: 0 <= i < j < |net.list| ==> net.list[i].addr != net.list[j].addr)
    && (forall i :: 0 <= i < |net.list| ==>
          var n := net.list[i];
          && (n.state.Reachable? || net.hw == 0 ==> n.queue == [])
          && forall k :: 0 <= k < |n.queue| ==> Hop(n.queue[k]) == n.addr && !IsMulticast(n.queue[k]))
  }

  /** Conservation and order, neighbour by neighbour: what was submitted for `a` is what went out
      to `a` followed by what waits for `a`. */
  ghost predicate Conserved(net: Net, sub: seq<Packet>) {
    forall a :: ToHop(sub, a) == ToHop(Released(net.sent), a) + Waiting(net.list, a)
  }

  lemma TidyAdded(net: Net, n: Neighbor, sent: seq<Tx>)
    requires Tidy(net) && Find(net.list, n.addr) == |net.list|
    requires n.state.Reachable? || net.hw == 0 ==> n.queue == []
    requires forall k :: 0 <= k < |n.queue| ==> Hop(n.queue[k]) == n.addr && !IsMulticast(n.queue[k])
    ensures Tidy(Net(net.hw, [n] + net.list, sent))
  {
  }

  lemma TidyUpdated(net: Net, i: nat, n: Neighbor, sent: seq<Tx>)
    requires Tidy(net) && i < |net.list| && n.addr == net.list[i].addr
    requires n.state.Reachable? || net.hw == 0 ==> n.queue == []
    requires forall k :: 0 <= k < |n.queue| ==> Hop(n.queue[k]) == n.addr && !IsMulticast(n.queue[k])
    ensures Tidy(Net(net.hw, net.list[i := n], sent))
  {
  }

  lemma SubmitTidy(net: Net, p: Packet)
    requires Tidy(net)
    ensures Tidy(SendPkt(net, p))
  {
    var i := Find(net.list, Hop(p));
    if !IsMulticast(p) && net.hw > 0 {
      if i == |net.list| {
        TidyAdded(net, Neighbor(Hop(p), Incomplete, None, [p]), net.sent + [Solicit(Hop(p))]);
      } else if net.list[i].state.Incomplete? {
        TidyUpdated(net, i, net.list[i].(queue := net.list[i].queue + [p]), net.sent);
      }
    }
  }

  lemma LearnTidy(net: Net, a: Addr, link: Option<Link>)
    requires Tidy(net)
    ensures Tidy(GotNeighbor(net, a, link))
  {
  }

  lemma {:induction false} ToHopConcat(s: seq<Packet>, t: seq<Packet>, a: Addr)
    ensures ToHop(s + t, a) == ToHop(s, a) + ToHop(t, a)
    decreases |t|
  {
    if t == [] {
      assert s + t == s;
    } else {
      var u, x := t[..|t| - 1], t[|t| - 1];
      assert (s + t)[..|s + t| - 1] == s + u;
      ToHopConcat(s, u, a);
    }
  }

  lemma {:induction false} ReleasedConcat(s: seq<Tx>, t: seq<Tx>)
    ensures Released(s + t) == Released(s) + Released(t)
    decreases |t|
  {
    if t == [] {
      assert s + t == s;
    } else {
      assert (s + t)[..|s + t| - 1] == s + t[..|t| - 1];
      ReleasedConcat(s, t[..|t| - 1]);
    }
  }

  lemma {:induction false} ReleasedUnicasts(q: seq<Packet>, link: Option<Link>)
    ensures Released(Unicasts(q, link)) == q
    decreases |q|
  {
    if q != [] {
      ReleasedUnicasts(q[..|q| - 1], link);
      assert Unicasts(q, link)[..|q| - 1] == Unicasts(q[..|q| - 1], link);
    }
  }

  lemma {:induction false} AllToHop(q: seq<Packet>, b: Addr, a: Addr)
    requires forall k :: 0 <= k < |q| ==> Hop(q[k]) == b
    ensures ToHop(q, a) == if a == b then q else []
    decreases |q|
  {
    if q != [] {
      AllToHop(q[..|q| - 1], b, a);
    }
  }

  lemma WaitingAdded(n: Neighbor, list: seq<Neighbor>, a: Addr)
    ensures Waiting([n] + list, a) == if n.addr == a then n.queue else Waiting(list, a)
  {
  }

  lemma {:induction false} WaitingUpdated(list: seq<Neighbor>, i: nat, n: Neighbor, a: Addr)
    requires i < |list| && n.addr == list[i].addr && Find(list, n.addr) == i
    ensures Waiting(list[i := n], a) == if n.addr == a then n.queue else Waiting(list, a)
  {
    var list' := list[i := n];
    assert forall j :: 0 <= j < |list| ==> list'[j].addr == list[j].addr;
    assert Find(list', a) == Find(list, a);
  }

  /** Whether send_pkt transmits the packet at once. */
  predicate GoesOut(net: Net, p: Packet) {
    net.hw == 0 || (Find(net.list, Hop(p)) < |net.list| && net.list[Find(net.list, Hop(p))].state.Reachable?)
  }

  lemma {:induction false} WaitingAfterSend(net: Net, p: Packet, a: Addr)
    requires Tidy(net) && !IsMulticast(p)
    ensures Waiting(SendPkt(net, p).list, a) ==
      if !GoesOut(net, p) && a == Hop(p) then Waiting(net.list, a) + [p] else Waiting(net.list, a)
    ensures GoesOut(net, p) ==> Waiting(net.list, Hop(p)) == []
  {
    var i, h := Find(net.list, Hop(p)), Hop(p);
    if !GoesOut(net, p) {
      if i == |net.list| {
        WaitingAdded(Neighbor(h, Incomplete, None, [p]), net.list, a);
      } else {
        WaitingUpdated(net.list, i, net.list[i].(queue := net.list[i].queue + [p]), a);
      }
    }
  }

  lemma ReleasedAfterSend(net: Net, p: Packet)
    ensures Released(SendPkt(net, p).sent) ==
      if !IsMulticast(p) && GoesOut(net, p) then Released(net.sent) + [p] else Released(net.sent)
  {
  }

  lemma ToHopSnoc(s: seq<Packet>, p: Packet, a: Addr)
    ensures ToHop(s + [p], a) == if Hop(p) == a then ToHop(s, a) + [p] else ToHop(s, a)
  {
  }

  /** A packet that is sent at once while nothing waits, or queued behind what waits. */
  lemma Balance(s: seq<Packet>, o: seq<Packet>, q: seq<Packet>, p: Packet)
    requires s == o + q
    ensures q == [] ==> s + [p] == (o + [p]) + q
    ensures s + [p] == o + (q + [p])
  {
  }

  lemma {:induction false} SubmitConserved(net: Net, p: Packet, sub: seq<Packet>)
    requires Tidy(net) && Conserved(net, sub)
    ensures Conserved(SendPkt(net, p), sub + if IsMulticast(p) then [] else [p])
  {
    var net' := SendPkt(net, p);
    ReleasedAfterSend(net, p);
    if IsMulticast(p) {
      assert sub + [] == sub;
    } else {
      forall a ensures ToHop(sub + [p], a) == ToHop(Released(net'.sent), a) + Waiting(net'.list, a) {
        assert ToHop(sub, a) == ToHop(Released(net.sent), a) + Waiting(net.list, a);
        WaitingAfterSend(net, p, a);
        ToHopSnoc(sub, p, a);
        ToHopSnoc(Released(net.sent), p, a);
        Balance(ToHop(sub, a), ToHop(Released(net.sent), a), Waiting(net.list, a), p);
      }
    }
  }

  lemma {:induction false} LearnConserved(net: Net, b: Addr, link: Option<Link>, sub: seq<Packet>)
    requires Tidy(net) && Conserved(net, sub)
    ensures Conserved(GotNeighbor(net, b, link), sub)
  {
    var net', i := GotNeighbor(net, b, link), Find(net.list, b);
    forall a ensures ToHop(sub, a) == ToHop(Released(net'.sent), a) + Waiting(net'.list, a) {
      assert ToHop(sub, a) == ToHop(Released(net.sent), a) + Waiting(net.list, a);
      LearnWaiting(net, b, link, a);
    }
  }

  lemma {:induction false} LearnWaiting(net: Net, b: Addr, link: Option<Link>, a: Addr)
    requires Tidy(net)
    ensures var net' := GotNeighbor(net, b, link);
      ToHop(Released(net'.sent), a) + Waiting(net'.list, a) == ToHop(Released(net.sent), a) + Waiting(net.list, a)
  {
    var net', i := GotNeighbor(net, b, link), Find(net.list, b);
    if i == |net.list| {
      WaitingAdded(net'.list[0], net.list, a);
    } else {
      WaitingUpdated(net.list, i, net'.list[i], a);
      ReleasedByLearning(net, b, link, a);
    }
  }

  lemma {:induction false} ReleasedByLearning(net: Net, b: Addr, link: Option<Link>, a: Addr)
    requires Tidy(net) && Find(net.list, b) < |net.list|
    ensures ToHop(Released(GotNeighbor(net, b, link).sent), a) ==
      ToHop(Released(net.sent), a) + if a == b then Waiting(net.list, b) else []
  {
    var n := net.list[Find(net.list, b)];
    var l := if link.Some? then link else n.linkaddr;
    ReleasedConcat(net.sent, Unicasts(n.queue, l));
    ReleasedUnicasts(n.queue, l);
    ToHopConcat(Released(net.sent), n.queue, a);
    AllToHop(n.queue, b, a);
  }

  /** The packets that went out by multicast, in order. */
  function Flooded(sent: seq<Tx>): seq<Packet> {
    if sent == [] then [] else
    Flooded(sent[..|sent| - 1]) + if sent[|sent| - 1].Multicast? then [sent[|sent| - 1].p] else []
  }

  /** The packets submitted for multicast, in order. */
  function Floods(events: seq<Event>): seq<Packet>
    decreases |events|
  {
    if events == [] then [] else
    var e := events[|events| - 1];
    Floods(events[..|events| - 1]) + if e.Submit? && IsMulticast(e.p) then [e.p] else []
  }

  lemma {:induction false} UnicastsFloodNothing(s: seq<Tx>, q: seq<Packet>, link: Option<Link>)
    ensures Flooded(s + Unicasts(q, link)) == Flooded(s)
    decreases |q|
  {
    if q == [] {
      assert s + Unicasts(q, link) == s;
    } else {
      var t := s + Unicasts(q, link);
      assert t[..|t| - 1] == s + Unicasts(q[..|q| - 1], link);
      UnicastsFloodNothing(s, q[..|q| - 1], link);
    }
  }

  lemma StepFloods(net: Net, e: Event)
    ensures Flooded(Step(net, e).sent) == Flooded(net.sent) + if e.Submit? && IsMulticast(e.p) then [e.p] else []
  {
    var net' := Step(net, e);
    if e.Submit? && |net'.sent| > |net.sent| {
      assert net'.sent[..|net'.sent| - 1] == net.sent;
    } else if e.Learn? && Find(net.list, e.a) < |net.list| {
      var n := net.list[Find(net.list, e.a)];
      UnicastsFloodNothing(net.sent, n.queue, if e.link.Some? then e.link else n.linkaddr);
    }
  }

  /** Over every run of send_pkt and got_neighbor, from an empty cache: addresses are unique, a
      reachable neighbour has an empty queue, every unicast packet has been transmitted exactly once
      or waits in exactly one queue, to each neighbour they go out in the order they came, and every
      multicast packet has been transmitted once, in order. */
  lemma {:induction false} RunConserves(hw: nat, events: seq<Event>)
    ensures var net := Run(Net(hw, [], []), events);
      && Tidy(net) && net.hw == hw && Conserved(net, Submitted(events))
      && Flooded(net.sent) == Floods(events)
    decreases |events|
  {
    if events != [] {
      var most, e := events[..|events| - 1], events[|events| - 1];
      RunConserves(hw, most);
      var net := Run(Net(hw, [], []), most);
      StepFloods(net, e);
      match e
      case Submit(p) =>
        SubmitTidy(net, p);
        SubmitConserved(net, p, Submitted(most));
      case Learn(a, link) =>
        LearnTidy(net, a, link);
        LearnConserved(net, a, link, Submitted(most));
        assert Submitted(most) + [] == Submitted(most);
    }
  }

  // ----- Routes -----

  /** Addresses that begin with 0xfe, 0x80. */
  predicate LinkLocal(a: Addr) { a[0] == 0xfe && a[1] == 0x80 }

  /** The one router: fe80::1. */
  predicate IsRouter(a: Addr) {
    a[0] == 0xfe && a[1] == 0x80 && (forall k :: 2 <= k < 15 ==> a[k] == 0) && a[15] == 1
  }

  /** A packet goes through `a`: a link-local one through its own destination, any other through the router. */
  predicate Through(p: Packet, a: Addr) { if LinkLocal(p.dest) then a == p.dest else IsRouter(a) }

  lemma ThroughIsHop(p: Packet, a: Addr)
    ensures Through(p, a) <==> a == Hop(p)
  {
    if Through(p, a) && !LinkLocal(p.dest) {
      assert forall k :: 0 <= k < 16 ==> a[k] == OTHER[k];
    }
  }

  /** Where send_pkt puts a packet, told without the list's order: multicast to the interface's multicast, all
      else without link addresses to the interface at once; and with them through the neighbour on its route,
      `i` being its place: to its link address if it is reachable, else into its queue. */
  lemma SubmitRoutes(net: Net, p: Packet, i: nat)
    requires Tidy(net) && i < |net.list| && Through(p, net.list[i].addr)
    ensures var n := net.list[i];
      SendPkt(net, p) ==
        if p.dest[0] == 0xff then net.(sent := net.sent + [Multicast(p)])
        else if net.hw == 0 then net.(sent := net.sent + [Unicast(p, None)])
        else if n.state.Reachable? then net.(sent := net.sent + [Unicast(p, n.linkaddr)])
        else net.(list := net.list[i := n.(queue := n.queue + [p])])
  {
    ThroughIsHop(p, net.list[i].addr);
    var j := Find(net.list, Hop(p));
    assert j == i;
  }

  /** If that neighbour is not known yet, it is entered, solicited once, and the packet waits there. */
  lemma SubmitResolves(net: Net, p: Packet, a: Addr)
    requires Through(p, a) && (forall i :: 0 <= i < |net.list| ==> net.list[i].addr != a)
    ensures SendPkt(net, p) ==
      if p.dest[0] == 0xff then net.(sent := net.sent + [Multicast(p)])
      else if net.hw == 0 then net.(sent := net.sent + [Unicast(p, None)])
      else Net(net.hw, [Neighbor(a, Incomplete, None, [p])] + net.list, net.sent + [Solicit(a)])
  {
    ThroughIsHop(p, a);
  }

  /** What got_neighbor does to a known neighbour `i`: it becomes reachable at the address heard, or the one it
      had; its queue goes out there, in order; all others stay. */
  lemma LearnReleases(net: Net, a: Addr, link: Option<Link>, i: nat)
    requires Tidy(net) && i < |net.list| && net.list[i].addr == a
    ensures var n, net' := net.list[i], GotNeighbor(net, a, link);
      var l := if link.Some? then link else n.linkaddr;
      && net'.list == net.list[i := Neighbor(a, Reachable, l, [])] && net'.hw == net.hw
      && |net'.sent| == |net.sent| + |n.queue| && net.sent <= net'.sent
      && forall k :: 0 <= k < |n.queue| ==> net'.sent[|net.sent| + k] == Unicast(n.queue[k], l)
  {
    assert Find(net.list, a) == i;
    var n, l := net.list[i], if link.Some? then link else net.list[i].linkaddr;
    assert GotNeighbor(net, a, link) ==
      Net(net.hw, net.list[i := Neighbor(a, Reachable, l, [])], net.sent + Unicasts(n.queue, l));
  }

  /** An unknown one is entered, reachable exactly if its link address was heard or none is needed, and nothing
      is sent. */
  lemma LearnEnters(net: Net, a: Addr, link: Option<Link>)
    requires forall i :: 0 <= i < |net.list| ==> net.list[i].addr != a
    ensures GotNeighbor(net, a, link) ==
      net.(list := [Neighbor(a, if link.Some? || net.hw == 0 then Reachable else Incomplete, link, [])] + net.list)
  {
  }

  /** Every packet waits at the neighbour on its route, every solicitation is for a link-local address, and
      multicast is for the packets to it. */
  ghost predicate Routed(net: Net) {
    && (forall i, k :: 0 <= i < |net.list| && 0 <= k < |net.list[i].queue| ==>
          Through(net.list[i].queue[k], net.list[i].addr))
    && (forall i :: 0 <= i < |net.sent| ==>
          match net.sent[i]
          case Solicit(a) => LinkLocal(a)
          case Multicast(p) => p.dest[0] == 0xff
          case Unicast(p, _) => p.dest[0] != 0xff)
  }

  lemma QueuesRouted(net: Net)
    requires Tidy(net)
    ensures forall i, k :: 0 <= i < |net.list| && 0 <= k < |net.list[i].queue| ==>
      Through(net.list[i].queue[k], net.list[i].addr)
  {
    forall i, k | 0 <= i < |net.list| && 0 <= k < |net.list[i].queue|
      ensures Through(net.list[i].queue[k], net.list[i].addr)
    {
      ThroughIsHop(net.list[i].queue[k], net.list[i].addr);
    }
  }

  lemma StepRouted(net: Net, e: Event)
    requires Tidy(net) && Routed(net)
    ensures Routed(Step(net, e))
  {
    match e
    case Submit(p) => SubmitRouted(net, p);
    case Learn(a, link) => LearnRouted(net, a, link);
  }

  lemma SubmitRouted(net: Net, p: Packet)
    requires Tidy(net) && Routed(net)
    ensures Routed(SendPkt(net, p))
  {
    SubmitTidy(net, p);
    QueuesRouted(SendPkt(net, p));
    ThroughIsHop(p, Hop(p));
  }

  lemma LearnRouted(net: Net, a: Addr, link: Option<Link>)
    requires Tidy(net) && Routed(net)
    ensures Routed(GotNeighbor(net, a, link))
  {
    LearnTidy(net, a, link);
    QueuesRouted(GotNeighbor(net, a, link));
    if Find(net.list, a) < |net.list| {
      LearnReleases(net, a, link, Find(net.list, a));
    }
  }

  /** In every run: packets wait and go out through the neighbour on their route, only link-local addresses are
      solicited, and a packet is multicast exactly if its destination begins with 0xff. */
  lemma {:induction false} RunRouted(hw: nat, events: seq<Event>)
    ensures Routed(Run(Net(hw, [], []), events))
    decreases |events|
  {
    if events != [] {
      RunConserves(hw, events[..|events| - 1]);
      RunRouted(hw, events[..|events| - 1]);
      StepRouted(Run(Net(hw, [], []), events[..|events| - 1]), events[|events| - 1]);
    }
  }

  // ----- Solicitation -----

  ghost predicate Known(list: seq<Neighbor>, a: Addr) { Find(list, a) < |list| }

  /** Every unresolved neighbour has been solicited, and only known ones have. */
  ghost predicate Asked(net: Net) {
    && (forall i :: 0 <= i < |net.list| && net.list[i].state.Incomplete? ==> Solicit(net.list[i].addr) in net.sent)
    && (forall a :: Solicit(a) in net.sent ==> Known(net.list, a))
  }

  /** An advertisement without a link address from an unknown neighbour: it is entered as
      unresolved, and no solicitation is ever sent for it. */
  predicate Unasked(net: Net, e: Event) {
    e.Learn? && e.link.None? && net.hw > 0 && Find(net.list, e.a) == |net.list|
  }

  lemma KnownAdded(n: Neighbor, list: seq<Neighbor>, a: Addr)
    ensures Known([n] + list, a) <==> n.addr == a || Known(list, a)
  {
  }

  lemma {:induction false} KnownKept(list: seq<Neighbor>, i: nat, n: Neighbor, a: Addr)
    requires i < |list| && n.addr == list[i].addr
    ensures Known(list[i := n], a) <==> Known(list, a)
  {
    var list' := list[i := n];
    assert forall j :: 0 <= j < |list| ==> list'[j].addr == list[j].addr;
  }

  lemma {:induction false} SubmitAsked(net: Net, p: Packet)
    requires Asked(net)
    ensures Asked(SendPkt(net, p))
  {
    var net', i := SendPkt(net, p), Find(net.list, Hop(p));
    forall a | Solicit(a) in net'.sent ensures Known(net'.list, a) {
      if i < |net.list| {
        KnownKept(net.list, i, net.list[i].(queue := net.list[i].queue + [p]), a);
      } else if net'.list != net.list {
        KnownAdded(net'.list[0], net.list, a);
      }
    }
  }

  lemma {:induction false} LearnAsked(net: Net, b: Addr, link: Option<Link>)
    requires Asked(net)
    ensures Asked(GotNeighbor(net, b, link)) <==> !Unasked(net, Learn(b, link))
  {
    var net', i := GotNeighbor(net, b, link), Find(net.list, b);
    forall a | Solicit(a) in net'.sent ensures Known(net'.list, a) {
      if i < |net.list| {
        KnownKept(net.list, i, net'.list[i], a);
      } else {
        KnownAdded(net'.list[0], net.list, a);
      }
    }
    if Unasked(net, Learn(b, link)) {
      assert net'.list[0].state.Incomplete? && Solicit(b) !in net'.sent;
    }
  }

  /** A step leaves every unresolved neighbour solicited, exactly unless it is such an
      advertisement. */
  lemma {:induction false} StepAsked(net: Net, e: Event)
    requires Asked(net)
    ensures Asked(Step(net, e)) <==> !Unasked(net, e)
  {
    match e
    case Submit(p) => SubmitAsked(net, p);
    case Learn(a, link) => LearnAsked(net, a, link);
  }

  lemma {:induction false} StepUnasked(net: Net, e: Event, a: Addr)
    requires Known(net.list, a) && Solicit(a) !in net.sent
    ensures Known(Step(net, e).list, a) && Solicit(a) !in Step(net, e).sent
  {
    var net', b := Step(net, e), if e.Submit? then Hop(e.p) else e.a;
    var i := Find(net.list, b);
    if i < |net.list| {
      var n := if e.Submit? then net.list[i].(queue := net.list[i].queue + [e.p]) else net'.list[i];
      KnownKept(net.list, i, n, a);
    } else if net'.list != net.list {
      KnownAdded(net'.list[0], net.list, a);
    }
  }

  /** A neighbour entered without being asked for is never asked for: in no run is a solicitation
      for it sent. */
  lemma {:induction false} NeverAsked(net: Net, events: seq<Event>, a: Addr)
    requires Known(net.list, a) && Solicit(a) !in net.sent
    ensures Known(Run(net, events).list, a) && Solicit(a) !in Run(net, events).sent
    decreases |events|
  {
    if events != [] {
      NeverAsked(net, events[..|events| - 1], a);
      StepUnasked(Run(net, events[..|events| - 1]), events[|events| - 1], a);
    }
  }

  /** No target has been solicited twice, and every target is known. */
  ghost predicate AskedOnce(net: Net) {
    && (forall i, j :: 0 <= i < j < |net.sent| && net.sent[i].Solicit? && net.sent[j].Solicit? ==>
          net.sent[i].target != net.sent[j].target)
    && (forall i :: 0 <= i < |net.sent| && net.sent[i].Solicit? ==> Known(net.list, net.sent[i].target))
  }

  lemma {:induction false} StepKnows(net: Net, e: Event, a: Addr)
    requires Known(net.list, a)
    ensures Known(Step(net, e).list, a)
  {
    var net', b := Step(net, e), if e.Submit? then Hop(e.p) else e.a;
    var i := Find(net.list, b);
    if i < |net.list| {
      var n := if e.Submit? then net.list[i].(queue := net.list[i].queue + [e.p]) else net'.list[i];
      KnownKept(net.list, i, n, a);
    } else if net'.list != net.list {
      KnownAdded(net'.list[0], net.list, a);
    }
  }

  /** What a step sends beyond what was sent: at most one solicitation, for a neighbour that was not
      known and is known then. */
  lemma {:induction false} StepSolicits(net: Net, e: Event, i: nat)
    requires i < |Step(net, e).sent|
    ensures net.sent <= Step(net, e).sent
    ensures var tx := Step(net, e).sent[i];
      i >= |net.sent| && tx.Solicit? ==>
        i == |net.sent| && !Known(net.list, tx.target) && Known(Step(net, e).list, tx.target)
  {
    var net' := Step(net, e);
    if i >= |net.sent| && net'.sent[i].Solicit? {
      KnownAdded(net'.list[0], net.list, Hop(e.p));
    }
  }

  lemma {:induction false} StepAskedOnce(net: Net, e: Event)
    requires AskedOnce(net)
    ensures AskedOnce(Step(net, e))
  {
    var net' := Step(net, e);
    forall i | 0 <= i < |net'.sent| && net'.sent[i].Solicit? ensures Known(net'.list, net'.sent[i].target) {
      StepSolicits(net, e, i);
      if i < |net.sent| {
        StepKnows(net, e, net.sent[i].target);
      }
    }
    forall i, j | 0 <= i < j < |net'.sent| && net'.sent[i].Solicit? && net'.sent[j].Solicit?
      ensures net'.sent[i].target != net'.sent[j].target
    {
      StepSolicits(net, e, i);
      StepSolicits(net, e, j);
    }
  }

  /** In no run is a neighbour solicited twice, however long it does not answer. */
  lemma {:induction false} SolicitedOnce(hw: nat, events: seq<Event>)
    ensures AskedOnce(Run(Net(hw, [], []), events))
    decreases |events|
  {
    if events != [] {
      SolicitedOnce(hw, events[..|events| - 1]);
      StepAskedOnce(Run(Net(hw, [], []), events[..|events| - 1]), events[|events| - 1]);
    }
  }

  /** Such an advertisement enters its sender that way. */
  lemma UnaskedAfterAdvert(net: Net, a: Addr)
    requires Asked(net) && Unasked(net, Learn(a, None))
    ensures var net' := Step(net, Learn(a, None));
      && Known(net'.list, a) && Solicit(a) !in net'.sent && net'.list[Find(net'.list, a)].state.Incomplete?
  {
    KnownAdded(Step(net, Learn(a, None)).list[0], net.list, a);
  }

  // ----- Link addresses -----

  /** On a link with addresses, every reachable neighbour has one. */
  ghost predicate Addressed(net: Net) {
    net.hw > 0 ==>
      forall i :: 0 <= i < |net.list| && net.list[i].state.Reachable? ==> net.list[i].linkaddr.Some?
  }

  /** An advertisement without a link address from a neighbour whose link address is not known. */
  predicate Blind(net: Net, e: Event) {
    && e.Learn? && e.link.None? && net.hw > 0
    && var i := Find(net.list, e.a); i < |net.list| && net.list[i].linkaddr.None?
  }

  /** The packet that was waiting for a link address then goes out to none. */
  lemma BlindSends(hw: nat, p: Packet)
    requires hw > 0 && !IsMulticast(p)
    ensures Unicast(p, None) in Run(Net(hw, [], []), [Submit(p), Learn(Hop(p), None)]).sent
  {
    var net0, e0, e1 := Net(hw, [], []), Submit(p), Learn(Hop(p), None);
    assert [e0, e1][..1] == [e0] && [e0][..0] == [];
    var net1, n := Run(net0, [e0]), Neighbor(Hop(p), Incomplete, None, [p]);
    assert Run(net0, []) == net0 && net1 == SendPkt(net0, p);
    assert net1.list == [n] + [] == [n] && net1.sent == [] + [Solicit(Hop(p))] == [Solicit(Hop(p))];
    assert Unicasts([p], None)[0] == Unicast(p, None);
    assert Run(net0, [e0, e1]).sent == net1.sent + Unicasts([p], None);
    assert (net1.sent + Unicasts([p], None))[1] == Unicast(p, None);
  }

  /** A step leaves every reachable neighbour with a link address exactly unless it is a blind
      advertisement, which makes its sender reachable at no address. */
  lemma StepAddressed(net: Net, e: Event)
    requires Addressed(net)
    ensures Addressed(Step(net, e)) <==> !Blind(net, e)
  {
    var net' := Step(net, e);
    if Blind(net, e) {
      var i := Find(net.list, e.a);
      assert net'.list[i].state.Reachable? && net'.list[i].linkaddr.None?;
    }
  }
}
