/** tcb_find with its wildcard fallback, tcb_new, tcb_delete, and the part of handle_tcp that
    decides which control block a packet goes to. */
module TcbDispatch {
  import opened Basics
  import opened RbHeap
  import opened RbTree
  import opened TcbKey
  import opened TcbIndex

  /** The arguments of tcb_find; a null address is `None`. */
  datatype Query = Query(laddr: Option<Addr>, lport: int, raddr: Option<Addr>, rport: int)

  function OrAny(a: Option<Addr>): Addr { if a.None? then ANY else a.value }

  /** The control block tcb_find compares with. */
  function Needle(q: Query): Ends { Ends(OrAny(q.laddr), q.lport, OrAny(q.raddr), q.rport) }

  function Wanted(q: Query): Key { KeyOf(Needle(q)) }

  /** The arguments with which tcb_find calls itself after a miss. */
  function Retry(q: Query): Option<Query> {
    if q.raddr.None? then Some(Query(q.laddr, q.lport, None, 0))
    else if q.laddr.None? then Some(Query(None, q.lport, None, 0))
    else if q.lport > 0 then Some(Query(None, 0, None, 0))
    else None
  }

  /** tcb_find returns `r` after at most `n` calls of itself. */
  ghost predicate Returns(index: map<Key, Ptr>, q: Query, n: nat, r: Option<Ptr>)
    decreases n
  {
    if Wanted(q) in index then r == Some(index[Wanted(q)])
    else if Retry(q).None? then r == None
    else n > 0 && Returns(index, Retry(q).value, n - 1, r)
  }

  /** The key tried second. */
  function Fallback(q: Query): Key {
    if q.laddr.Some? && q.raddr.Some? then LISTENER else Key(0, q.lport, ANY)
  }

  predicate Answerable(index: map<Key, Ptr>, q: Query) {
    Wanted(q) in index || (q.laddr.Some? && q.raddr.Some? && q.lport <= 0) || Fallback(q) in index
  }

  function Found(index: map<Key, Ptr>, q: Query): Option<Ptr>
    requires Answerable(index, q)
  {
    if Wanted(q) in index then Some(index[Wanted(q)])
    else if q.laddr.Some? && q.raddr.Some? && q.lport <= 0 then None
    else Some(index[Fallback(q)])
  }

  lemma {:induction false} WildcardMissRepeats(index: map<Key, Ptr>, q: Query, n: nat, r: Option<Ptr>)
    requires q.raddr.None? && q.rport == 0 && Wanted(q) !in index
    ensures !Returns(index, q, n, r)
    decreases n
  {
    if n > 0 {
      WildcardMissRepeats(index, Retry(q).value, n - 1, r);
    }
  }

  ghost predicate Terminates(index: map<Key, Ptr>, q: Query) {
    exists n: nat, r: Option<Ptr> :: Returns(index, q, n, r)
  }

  /** The recursion ends exactly for answerable queries, and then with `Found`. */
  lemma FindTerminates(index: map<Key, Ptr>, q: Query)
    ensures Terminates(index, q) <==> Answerable(index, q)
    ensures forall n: nat, r :: Answerable(index, q) && Returns(index, q, n, r) ==> r == Found(index, q)
  {
    if Answerable(index, q) {
      assert Returns(index, q, 1, Found(index, q));
      forall n: nat, r | Returns(index, q, n, r) ensures r == Found(index, q) {
        if Wanted(q) !in index && Retry(q).Some? {
          assert Returns(index, Retry(q).value, n - 1, r);
        }
      }
    } else {
      forall n: nat, r ensures !Returns(index, q, n, r) {
        if n > 0 {
          WildcardMissRepeats(index, Retry(q).value, n - 1, r);
        }
      }
    }
  }

  /** So which control block a packet finds does not depend on its local address, as long as it has
      one: connections that differ in nothing else share their block. */
  lemma {:induction false} LocalAddressIgnored(index: map<Key, Ptr>, q: Query, a: Addr, n: nat, r: Option<Ptr>)
    requires q.laddr.Some?
    ensures TcbCmp(Needle(q), Needle(q.(laddr := Some(a)))) == 0
    ensures Returns(index, q, n, r) <==> Returns(index, q.(laddr := Some(a)), n, r)
    decreases n
  {
    LocalAddressNotCompared(Needle(q), Needle(q.(laddr := Some(a))));
    if n > 0 && q.raddr.None? {
      LocalAddressIgnored(index, Retry(q).value, a, n - 1, r);
    }
  }

  // ----- The set of connections -----

  /** `linked` records whether tcb_insert put the block into the tree. */
  datatype Tcb = Tcb(ends: Ends, listening: bool, linked: bool)

  /** Which control blocks are in the tree under which key, and which are allocated. */
  datatype Net = Net(index: map<Key, Ptr>, live: map<Ptr, Tcb>)

  /** tcb_new: the block stays out of the tree if its key is taken. */
  function TcbNew(net: Net, p: Ptr, e: Ends, listening: bool): Net {
    Net(if KeyOf(e) in net.index then net.index else net.index[KeyOf(e) := p],
        net.live[p := Tcb(e, listening, KeyOf(e) !in net.index)])
  }

  /** The block was put into a tree that has been lost since. */
  predicate Stale(net: Net, p: Ptr)
    requires p in net.live
  {
    var k := KeyOf(net.live[p].ends);
    net.live[p].linked && !(k in net.index && net.index[k] == p)
  }

  /** tcb_delete. A block that never was in the tree takes the whole index with it. */
  function TcbDelete(net: Net, p: Ptr): Net
    requires p in net.live && !Stale(net, p)
  {
    Net(if net.live[p].linked then net.index - {KeyOf(net.live[p].ends)} else map[], net.live - {p})
  }

  /** What is in the tree is a live block under its own key. */
  ghost predicate Sound(net: Net) {
    forall k :: k in net.index ==>
      net.index[k] in net.live && KeyOf(net.live[net.index[k]].ends) == k && net.live[net.index[k]].linked
  }

  /** A packet, with the address tcb_new would allocate and whether it ends its connection; or a
      block deleted by a timer or by the application. */
  datatype Event = Packet(q: Query, syn: bool, ends: bool, at: Ptr) | Close(p: Ptr)

  predicate Enabled(net: Net, e: Event) {
    match e
    case Packet(q, _, _, at) => q.laddr.Some? && q.raddr.Some? && at != NULL && at !in net.live
    case Close(p) => p in net.live && !net.live[p].listening && !Stale(net, p)
  }

  /** What a packet or a close does; `None` if tcb_find does not return. */
  function Step(net: Net, e: Event): Option<Net>
    requires Sound(net) && Enabled(net, e)
  {
    match e
    case Close(p) => Some(TcbDelete(net, p))
    case Packet(q, syn, ends, at) =>
      if !Answerable(net.index, q) then None else
      match Found(net.index, q)
      case None => Some(net)
      case Some(t) =>
        if net.live[t].listening then Some(if syn then TcbNew(net, at, Needle(q), false) else net)
        else Some(if ends then TcbDelete(net, t) else net)
  }

  lemma StepSound(net: Net, e: Event)
    requires Sound(net) && Enabled(net, e) && Step(net, e).Some?
    ensures Sound(Step(net, e).value)
  {
  }

  /** Every block is in the tree under its key, and `l` is the one listener, under the wildcard key. */
  ghost predicate Consistent(net: Net, l: Ptr) {
    && Sound(net)
    && (forall p :: p in net.live ==>
          var k := KeyOf(net.live[p].ends); net.live[p].linked && k in net.index && net.index[k] == p)
    && l in net.live && KeyOf(net.live[l].ends) == LISTENER
    && (forall p :: p in net.live ==> (net.live[p].listening <==> p == l))
  }

  /** The packets for which tcb_new would meet its own key: a SYN that carries the wildcard key. */
  predicate Clashes(e: Event) { e.Packet? && e.syn && Wanted(e.q) == LISTENER }

  /** One step keeps the agreement exactly if the packet does not clash. */
  lemma StepConsistent(net: Net, e: Event, l: Ptr)
    requires Consistent(net, l) && Enabled(net, e)
    ensures Step(net, e).Some?
    ensures Consistent(Step(net, e).value, l) <==> !Clashes(e)
  {
    if Clashes(e) {
      assert e.at in Step(net, e).value.live;
    }
  }

  /** A new block is made only for a key that is absent, except by a clashing packet. */
  lemma NewOnlyWhenAbsent(net: Net, e: Event, l: Ptr)
    requires Consistent(net, l) && Enabled(net, e) && e.Packet?
    ensures Step(net, e).Some?
    ensures e.at in Step(net, e).value.live ==> (Wanted(e.q) !in net.index <==> !Clashes(e))
  {
  }

  /** What a packet does to the connections, case by case: one that belongs to a connection ends it or changes
      nothing; a SYN for none, to a nonzero port, makes a connection with just its addresses and ports, which
      its next packet finds at once; every other packet changes nothing. */
  lemma PacketEffect(net: Net, e: Event, l: Ptr)
    requires Consistent(net, l) && Enabled(net, e) && e.Packet? && !Clashes(e)
    ensures Step(net, e).Some?
    ensures var q, net', k := e.q, Step(net, e).value, Key(e.q.rport, e.q.lport, e.q.raddr.value);
      if k in net.index && net.index[k] != l then
        net' == if e.ends then Net(net.index - {k}, net.live - {net.index[k]}) else net
      else if k !in net.index && q.lport > 0 && e.syn then
        && net' == Net(net.index[k := e.at],
                       net.live[e.at := Tcb(Ends(q.laddr.value, q.lport, q.raddr.value, q.rport), false, true)])
        && Returns(net'.index, q, 0, Some(e.at))
      else net' == net
  {
  }

  /** A close removes exactly that connection. */
  lemma CloseRemoves(net: Net, e: Event, l: Ptr)
    requires Consistent(net, l) && Enabled(net, e) && e.Close?
    ensures Step(net, e) == Some(Net(net.index - {KeyOf(net.live[e.p].ends)}, net.live - {e.p}))
  {
  }

  ghost predicate Runs(net: Net, events: seq<Event>, net': Net)
    decreases |events|
  {
    if events == [] then net == net' else
      && Sound(net) && Enabled(net, events[0]) && Step(net, events[0]).Some?
      && Runs(Step(net, events[0]).value, events[1..], net')
  }

  lemma RunsStep(net: Net, events: seq<Event>, i: nat, net': Net)
    requires i < |events| && Runs(net, events[i..], net')
    ensures Sound(net) && Enabled(net, events[i]) && Step(net, events[i]).Some?
    ensures Runs(Step(net, events[i]).value, events[i + 1..], net')
  {
    assert events[i..][0] == events[i] && events[i..][1..] == events[i + 1..];
  }

  /** tcp_listen with a null address and port 0. */
  function Listening(l: Ptr): Net { TcbNew(Net(map[], map[]), l, WILDCARD, true) }

  lemma {:induction false} RunKeeps(net: Net, events: seq<Event>, net': Net, l: Ptr)
    requires Consistent(net, l) && Runs(net, events, net')
    requires forall i :: 0 <= i < |events| ==> !Clashes(events[i])
    ensures Consistent(net', l)
    decreases |events|
  {
    if events != [] {
      StepConsistent(net, events[0], l);
      RunKeeps(Step(net, events[0]).value, events[1..], net', l);
    }
  }

  /** After tcp_listen, every run of packets to nonzero local ports, and of closings, keeps tree
      and control blocks in agreement: the listener stays, every block is linked, and every lookup
      returns the exact match or else the listener. */
  lemma RunConsistent(l: Ptr, events: seq<Event>, net: Net, q: Query)
    requires Runs(Listening(l), events, net)
    requires forall i :: 0 <= i < |events| && events[i].Packet? ==> events[i].q.lport > 0
    requires q.laddr.Some? && q.raddr.Some? && q.lport > 0
    ensures Consistent(net, l)
    ensures Returns(net.index, q, 1, Some(if Wanted(q) in net.index then net.index[Wanted(q)] else l))
  {
    ListeningConsistent(l);
    RunKeeps(Listening(l), events, net, l);
    assert Wanted(Retry(q).value) == LISTENER && net.index[LISTENER] == l;
  }

  lemma ListeningConsistent(l: Ptr)
    ensures Consistent(Listening(l), l)
  {
  }

  /** Without the condition the agreement is lost: a SYN that carries the wildcard key leaves an
      unlinked block, deleting that block empties the index, and from then on no lookup for a packet
      to a nonzero port returns. */
  lemma ClashLosesListener(l: Ptr, p: Ptr, a: Addr)
    requires l != NULL && p != NULL && p != l
    ensures var q := Query(Some(a), 0, Some(ANY), 0);
      exists net :: Lost(net, l) && Runs(Listening(l), [Packet(q, true, false, p), Close(p)], net)
  {
    var q := Query(Some(a), 0, Some(ANY), 0);
    var net0, e0, e1 := Listening(l), Packet(q, true, false, p), Close(p);
    var net1 := Step(net0, e0).value;
    var net2 := Step(net1, e1).value;
    assert [e0, e1][1..] == [e1] && [e1][1..] == [];
    assert Runs(net2, [], net2);
    assert Runs(net1, [e1], net2);
    assert Runs(net0, [e0, e1], net2);
    forall q: Query | q.laddr.Some? && q.raddr.Some? && q.lport > 0 ensures !Terminates(net2.index, q) {
      FindTerminates(net2.index, q);
    }
  }

  /** The listener is there but cannot be found. */
  ghost predicate Lost(net: Net, l: Ptr) {
    && net.index == map[] && l in net.live
    && forall q: Query :: q.laddr.Some? && q.raddr.Some? && q.lport > 0 ==> !Terminates(net.index, q)
  }

  // ----- The methods on the tree -----

  /** The nodes of the live blocks are those in the tree's memory, which were linked, and the idle
      ones, which were not and are blank. */
  ghost predicate Nodes(linked: set<Ptr>, idle: Mem, live: map<Ptr, Tcb>) {
    && linked !! idle.Keys && linked + idle.Keys == live.Keys
    && (forall p :: p in live ==> (live[p].linked <==> p in linked))
    && (forall p :: p in idle ==> idle[p] == BLANK)
  }

  lemma NodesAdded(linked: set<Ptr>, idle: Mem, live: map<Ptr, Tcb>, p: Ptr, t: Tcb)
    requires Nodes(linked, idle, live) && p !in live
    ensures t.linked ==> Nodes(linked + {p}, idle - {p}, live[p := t])
    ensures !t.linked ==> Nodes(linked, idle[p := BLANK], live[p := t])
  {
  }

  lemma NodesRemoved(linked: set<Ptr>, idle: Mem, live: map<Ptr, Tcb>, p: Ptr)
    requires Nodes(linked, idle, live) && p in live
    ensures Nodes(linked - {p}, idle - {p}, live - {p})
  {
  }

  class Dispatcher {
    const table: TcbTable
    var live: map<Ptr, Tcb>

    ghost function View(): Net
      reads this, table
    {
      Net(table.index, live)
    }

    /** Every live block is a node, linked or idle, and holds its ends. */
    ghost predicate Valid()
      reads this, table, table.list
    {
      && table.Valid() && NULL !in live && Nodes(table.list.mem.Keys, table.list.idle, live)
      && forall p :: p in live ==> EndsAt(table.blocks, p) == live[p].ends
    }

    /** tcp_listen (NULL, 0) on the empty index. */
    constructor (l: Ptr)
      requires l != NULL
      ensures Valid() && View() == Listening(l) && fresh(table) && fresh(table.list)
    {
      table := new TcbTable();
      live := map[l := Tcb(WILDCARD, true, true)];
      new;
      NodesAdded({}, map[], map[], l, live[l]);
      var ok := table.New(l, WILDCARD);
    }

    /** tcb_find; null is `NULL`. */
    method TcbFind(q: Query) returns (t: Ptr)
      requires table.Valid() && Answerable(table.index, q)
      ensures t == match Found(table.index, q) case None => NULL case Some(p) => p
      decreases if q.raddr.None? && q.rport == 0 then 0 else 1
    {
      ghost var visits;
      t, visits := table.FindRb(Needle(q));
      if t != NULL {
        return;
      }
      if q.raddr.None? {
        t := TcbFind(Query(q.laddr, q.lport, None, 0));
      } else if q.laddr.None? {
        t := TcbFind(Query(None, q.lport, None, 0));
      } else if q.lport > 0 {
        t := TcbFind(Query(None, 0, None, 0));
      }
    }

    /** The control block part of handle_tcp, for every packet whose lookup returns. `ends` says
        whether what the packet makes of an existing connection deletes it; `at` is the address
        tcb_new would allocate. */
    method Handle(q: Query, syn: bool, ends: bool, at: Ptr) returns (t: Ptr)
      requires Valid() && Enabled(View(), Packet(q, syn, ends, at)) && Answerable(table.index, q)
      modifies this, table, table.list
      ensures Valid() && Sound(old(View()))
      ensures Step(old(View()), Packet(q, syn, ends, at)) == Some(View())
      ensures t == match Found(old(table.index), q) case None => NULL case Some(p) => p
    {
      ValidSound(this);
      t := TcbFind(q);
      if t == NULL {
        return;
      }
      if live[t].listening {
        if syn {
          TcbAlloc(at, Needle(q));
        }
      } else if ends {
        TcbFree(t);
      }
    }

    /** A packet or a close, on the tree. */
    method Serve(e: Event)
      requires Valid() && Sound(View()) && Enabled(View(), e) && Step(View(), e).Some?
      modifies this, table, table.list
      ensures Valid() && Step(old(View()), e) == Some(View())
    {
      match e
      case Packet(q, syn, ends, at) => var t := Handle(q, syn, ends, at);
      case Close(p) => TcbFree(p);
    }

    /** Every run of packets and closings, clashing ones included, takes the tree where it takes the
        finite map. */
    method Drive(events: seq<Event>, ghost net: Net)
      requires Valid() && Runs(View(), events, net)
      modifies this, table, table.list
      ensures Valid() && View() == net
    {
      var i := 0;
      while i < |events|
        invariant 0 <= i <= |events| && Valid() && Runs(View(), events[i..], net)
      {
        RunsStep(View(), events, i, net);
        Serve(events[i]);
        i := i + 1;
      }
    }

    /** tcb_new, whether or not the key is taken. */
    method TcbAlloc(at: Ptr, e: Ends)
      requires Valid() && at != NULL && at !in live
      modifies this, table, table.list
      ensures Valid() && View() == TcbNew(old(View()), at, e, false)
    {
      NotInTree(table.list, at);
      ghost var linked, idle := table.list.mem.Keys, table.list.idle;
      var ok := table.New(at, e);
      NodesAdded(linked, idle, live, at, Tcb(e, false, ok));
      live := live[at := Tcb(e, false, ok)];
    }

    /** tcb_delete, of a block in the tree or one that never was. */
    method TcbFree(p: Ptr)
      requires Valid() && p in live && !Stale(View(), p)
      modifies this, table, table.list
      ensures Valid() && View() == TcbDelete(old(View()), p)
    {
      NodesRemoved(table.list.mem.Keys, table.list.idle, live, p);
      if live[p].linked {
        table.Delete(p);
      } else {
        assert table.list.mem.Keys - {p} == table.list.mem.Keys;
        table.DeleteIdle(p);
      }
      live := live - {p};
    }
  }

  /** That run on the tree: tcp_listen, a SYN with the wildcard key, and the deletion of its block end
      with a null root while the listener is still allocated. */
  method LoseListener(l: Ptr, p: Ptr, a: Addr) returns (d: Dispatcher)
    requires l != NULL && p != NULL && p != l
    ensures d.Valid() && Lost(d.View(), l) && d.table.list.root == NULL
  {
    var q := Query(Some(a), 0, Some(ANY), 0);
    ClashLosesListener(l, p, a);
    ghost var net :| Lost(net, l) && Runs(Listening(l), [Packet(q, true, false, p), Close(p)], net);
    d := new Dispatcher(l);
    d.Drive([Packet(q, true, false, p), Close(p)], net);
    EmptyIndex(d.table);
  }

  lemma EmptyIndex(table: TcbTable)
    requires table.Valid() && table.index == map[]
    ensures table.list.root == NULL
  {
    if table.list.tree.Node? {
      RootIndexed(table);
    }
  }

  lemma RootIndexed(table: TcbTable)
    requires table.Valid() && table.list.tree.Node?
    ensures table.index != map[]
  {
    var t := table.list.tree;
    assert Inorder(t)[|Inorder(t.left)|] == t.id;
    assert KeyAt(table.blocks, t.id) in table.index;
  }

  lemma NotInTree(list: RbRoot, p: Ptr)
    requires list.Valid() && p !in list.mem
    ensures p !in Inorder(list.tree)
  {
    MemberIds(list.tree, p);
    NodesThere(list.mem, NULL, list.tree);
  }

  lemma {:induction false} NodesThere(h: Mem, par: Ptr, t: Tree)
    requires Is(h, par, t)
    ensures Ids(t) <= h.Keys
    decreases t
  {
    if t.Node? {
      NodesThere(h, t.id, t.left);
      NodesThere(h, t.id, t.right);
    }
  }

  lemma ValidSound(d: Dispatcher)
    requires d.Valid()
    ensures Sound(d.View())
  {
    var net, list := d.View(), d.table.list;
    forall k | k in net.index
      ensures net.index[k] in net.live && KeyOf(net.live[net.index[k]].ends) == k && net.live[net.index[k]].linked
    {
      if net.index[k] !in list.mem {
        NotInTree(list, net.index[k]);
      }
    }
  }
}
