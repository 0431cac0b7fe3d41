# A verified model of ptrtd's TCP/IPv6 core

ptrtd is a transport relay translator with its own user-space TCP/IPv6 stack. This project models
the parts of that stack whose correctness is not visible from any single function, in the form the
C code has (classes with fields updated in place, arrays, loops), and proves what they promise over
all inputs and all runs. `dafny verify dfyconfig.toml` checks all of it.

| files | what they model |
|---|---|
| `RbHeap`, `RbShapes`, `RbMemory`, `RbTree`, `RbWord` | `rbtree.c`, `rbtree.h`: a node memory with parent links; insertion, deletion, stepping |
| `TcbKey`, `TcbIndex`, `TcbDispatch` | `tcb.c` and the control block part of `handle_tcp`: the keyed index against a finite map |
| `StreamBuffer`, `RingBuffer` | `buffer.c`: the unbounded stream, and the circular store with 32-bit numbers that implements it |
| `Rtt`, `TcpModel`, `TcpEndpoint` | `tcp.c`: the estimator, the handlers as functions, and the handlers in place |
| `TcpRuns`, `TcpTheorems`, `TcpEffects`, `TcpOutputs`, `TcpLimits` | `tcp.c`: what every run keeps, what each event does in every reachable state, and what is not promised |
| `TimerList` | `event.c`: time arithmetic and the doubly linked timer list |
| `Checksum`, `TcpHeader`, `TcpWire`, `UdpHeader` | `util.c`, the macros of `defs.h`, `make_tcp_hdr` and its reading in `handle_tcp`, the packet of `udp_send` |
| `Neighbour`, `NeighbourCache` | `icmp.c`: the neighbour cache on values, and on its linked list and linked packet queues |

## How the proofs are built

- **Red-black tree.** Memory is a map from addresses to node records. `View(mem, base, root, c, t)`
  says that memory holds the tree `t` inside the context `c`, a zipper, with every parent link in
  place and no node shared. `RbMemory` says what each group of pointer writes does to such a view,
  `RbShapes` proves on pure trees that each rotation and recolouring keeps the loop invariants and
  the order, and the methods of `RbTree` join the two. A `Side` parameter covers both mirrored halves
  of the C code. No method can read through a null pointer: every read of memory has to be proved to
  lie in its domain. Nodes that are initialised and not linked are held apart (`idle`), so that
  `rb_erase` on such a node can be run as well.
- **Buffer and endpoint.** `RingBuf` is proved to be the stream `Buf`. `TcpModel` holds each handler
  of `tcp.c` as a function; `TcpEndpoint` has the handlers as methods that write the fields in the
  order of the source, each proved to leave what its function says. `TcpRuns` proves one invariant
  preserved by every step; `TcpTheorems` states what follows for every run; `TcpEffects` and `TcpOutputs`
  say what each event does in every reachable state, in numbers and on the wire and not in the
  functions of `TcpModel`; and `TcpLimits` gives the exact conditions under which the code falls short,
  with runs that meet them. `Endpoint.Dispatch`, `Drive`
  and `Connection` make every run of the object one of these runs, so the theorems hold of it.

## What the environment is assumed to do

The theorems on whole runs of the endpoint hold under these conditions, which are
`Enabled` and `Honest` in `TcpRuns` and nothing more:

- The peer acknowledges only after the SYN was sent, with `iss + 1 <= ack <=` the highest number ever
  sent. `LimitIsHighestSent` proves that the field used for this bound is exactly that number.
- Before its first acknowledgement the peer's segments lie below `rcv_nxt` (repetitions of its SYN).
- The application accepts a session before the SYN is answered, writes only while the connection is
  established, and makes no call after closing. Callbacks do not call back into the endpoint.
- Only `ReceiveConservation` and `DeliversPeerStream` assume that every payload taken in fitted the
  offered window (`World.fitting`); the latter also assumes that it started at `rcv_nxt`.
- Sequence numbers in the endpoint are unbounded, because `tcp.c` lines 498, 520 and 580 compare them
  without regard to wrap-around. `RingBuffer` models the 32-bit numbers of `buffer.c`.

## What the code does that one might not expect

- `tcbcmp` compares the remote address twice and the local address never, so connections that differ
  only in the local address share a control block (`TcbKey.LocalAddressNotCompared`,
  `TcbDispatch.LocalAddressIgnored`).
- `tcb_find` recurses without end exactly if the key asked for and the fallback key are both absent,
  unless both addresses are given and the local port is 0 (`TcbDispatch.FindTerminates`); after
  `tcp_listen` it always ends.
- A SYN that carries the wildcard key itself (ports 0, address `::`) leaves an unlinked control block.
  Deleting it runs `rb_erase` on an unlinked node, which sets the root to null (`RbRoot.EraseIdle`),
  and from then on no lookup for a nonzero port returns (`StepConsistent` gives the exact condition,
  `ClashLosesListener` the input, `LoseListener` the run on the tree).
- A FIN sent without data while no timer runs starts none (`LoneFinUntimed` gives the exact condition,
  `FinAloneUntimed` a run).
- LAST_ACK is left as soon as `snd_una == snd_nxt`, also with data or the FIN unsent (`LastAckExit`,
  `LastAckLosesData`).
- In CLOSING with `snd_una == snd_nxt`, the handler returns before it looks at the window or answers a
  duplicate (`StopsEarly`). A connection there that has not sent its FIN is stalled exactly if neither
  its send event nor its timer is armed (`StalledExactlyIf`), and then it never sends again, with the
  FIN and perhaps data left (`StalledForever`, `ClosingStalls`, `ClosingStallsWithData`).
- There are no window probes, which section 3.8.6.1 of RFC 9293 asks for: an established connection
  whose window is shut sends nothing until a segment arrives, whatever is written (`NoWindowProbe`,
  `WindowAwaited`).
- A repeated SYN is ignored, so a lost SYN-ACK is not sent again (`SegmentsAnswered`, `SynAckNotResent`).
- Closing sets `rcv_wnd` to 1000, which takes back part of a larger window on offer (`CloseMovesEdge`,
  `CloseShrinksWindow`); no other step of a run does (`RightEdgeAdvances`).
- Bytes that exceed the offered window are acknowledged and dropped (`OverrunLosesData`, `OverrunReached`). A segment
  beyond `rcv_nxt` is taken as if it started there, so the application can read what the peer did not
  send (`GapIsClosed`, `GapMisleads`); the comment at `tcp.c` line 579 says that this is not handled.
- The timer list compares rounded differences, so it is sorted only up to half a millisecond
  (`SortedExactlyIf` says exactly when an insertion keeps it sorted outright).
- `udp_send` stores a zero checksum where the sum calls for it, although zero means "none" and
  section 8.1 of RFC 8200 asks for 0xffff: for all addresses, remote ports and data there is a local
  port for which it does (`ZeroField`, `SomePortStoresZero`, `ZeroChecksumSent`).
- After a timer's callback has removed its own event, the event loop removes it again
  (`TimerQueue.Fire`). Removing an event that is not in the list is harmless exactly if its links,
  where they lead into the list, still lead to neighbours (`TimerQueue.DelOutside`): not if another
  event came between them, nor if the one behind it has left while the one before it is still there
  (`TimerQueue.SuccessorGone`). Scheduling such an event anew in an empty list leaves it with links to
  events that are gone (`TimerQueue.Resched`).
- An advertisement without a link address from an unknown neighbour enters it as unresolved, and no
  solicitation is ever sent for it, so packets queued there wait for the next advertisement
  (`StepAsked`, `NeverAsked`). Nor is a solicitation ever repeated, as section 7.2.2 of RFC 4861 asks
  (`SolicitedOnce`). From a neighbour that was solicited, it makes the neighbour reachable at
  no link address, and the waiting packets go out to none (`StepAddressed`, `BlindSends`).

## Model

| member | source | states |
|---|---|---|
| RbTree.RbRoot.Rotate | rbtree.c:25-69 | the pointer writes turn the subtree at the node, in any context, parent links and root pointer included |
| RbMemory.RotateView | rbtree.c:25-69 | the six or fewer changed pointers leave memory holding exactly the rotated tree |
| RbShapes.RotatedInorder | rbtree.c:25-69 | a rotation keeps the in-order sequence |
| RbTree.RbRoot.LinkNode | rbtree.h:161-168 | a red leaf stands in the empty place; everything else is as before |
| RbWord.TwoFields | rbtree.h:123-140 | on the packed parent-and-colour word of an aligned node every accessor reads or writes its own field and leaves the other |
| RbTree.RbRoot.Recolor | rbtree.c:82-88 | red uncle: recolouring moves the one possible violation to the grandparent |
| RbTree.RbRoot.TurnInner | rbtree.c:91-97 | an inner grandchild is turned to the outer side |
| RbTree.RbRoot.TurnOuter | rbtree.c:99-101 | the outer rotation puts the parent in the grandparent's place |
| RbTree.RbRoot.InsertStep | rbtree.c:76-127 | one iteration keeps the loop invariant and the order and moves strictly up, both mirror images |
| RbTree.RbRoot.InsertColor | rbtree.c:71-130 | from a tree with one red leaf linked anywhere: all red-black rules hold again and the order is the old one with the leaf at its place |
| RbShapes.InsertRecolor | rbtree.c:82-88 | why recolouring leaves at most one red-red pair |
| RbShapes.InsertInner | rbtree.c:91-97 | the inner turn keeps black heights and the one red-red pair |
| RbShapes.InsertOuter | rbtree.c:99-101 | the outer turn removes the red-red pair |
| RbTree.RbRoot.RaiseRedSibling | rbtree.c:140-145 | red sibling: rotation above the parent, the deficient node moving one level down |
| RbTree.RbRoot.TurnNephew | rbtree.c:152-157 | only the near nephew red: it is turned above the sibling |
| RbTree.RbRoot.Settle | rbtree.c:158-161 | far nephew red: one rotation and three colours settle the deficit |
| RbShapes.RaiseInv | rbtree.c:140-145 | the deficit stays with the same node and its new sibling exists and is black |
| RbShapes.AbsorbInv | rbtree.c:146-150 | colouring the sibling red moves the deficit to the parent |
| RbShapes.TurnInv | rbtree.c:152-157 | afterwards the far nephew is red, the deficit unchanged |
| RbShapes.SettleInv | rbtree.c:158-161 | afterwards no rule is broken |
| RbTree.RbRoot.EraseStepBlack | rbtree.c:146-164 | with a black sibling the iteration settles everything or moves the deficit up one level |
| RbTree.RbRoot.EraseStep | rbtree.c:137-194 | one iteration, sibling and nephews proved to exist when read, ends the loop, or goes up, or stays level at a red node |
| RbTree.RbRoot.EraseColor | rbtree.c:132-197 | the fix-up loop terminates and turns any tree one black node short into a valid red-black tree with the same order |
| RbTree.RbRoot.SpliceOut | rbtree.c:248-260 | a node with at most one child is replaced by that child |
| RbTree.RbRoot.Uproot | rbtree.c:216-239 | the writes that detach the successor and hand it the right subtree |
| RbTree.RbRoot.MoveSuccessor | rbtree.c:216-243 | the successor stands in the erased node's place with its colour and both subtrees |
| RbTree.RbRoot.SpliceSuccessor | rbtree.c:209-246 | memory holds the tree with the node replaced by its successor, whether or not that was its child |
| RbTree.RbRoot.Unhook | rbtree.c:205-262 | all three splice cases: what is left is valid or one black node short, and its order lacks just the node |
| RbTree.RbRoot.Erase | rbtree.c:199-265 | for every valid tree and every node in it: the result is valid and its order is the old one with exactly that node removed |
| RbTree.RbRoot.EraseIdle | rbtree.c:199-265 | on a node that was never linked rb_erase sets the root to null, losing the whole tree |
| RbTree.RbRoot.End | rbtree.c:270-294 | rb_first and rb_last return the first and last node of the order, null for the empty tree |
| RbTree.RbRoot.Step | rbtree.c:296-348 | rb_next and rb_prev return the neighbour in the order, null at its end |
| RbTree.RbRoot.Climb | rbtree.c:319-322 | climbing ends at the node next to the subtree |
| RbTree.RbRoot.Walk | rbtree.c:270-323 | rb_first and repeated rb_next visit every node once, in order, and end |
| RbTree.RbRoot.ThereAndBack | rbtree.c:296-348 | rb_prev undoes rb_next wherever rb_next has a result |
| RbHeap.ZipRedBlack | rbtree.c:132-265 | a tree in a context is a valid whole exactly if tree, context and the seam between them are |
| RbHeap.ViewWhole | rbtree.h:107-120 | memory holds a tree in a context exactly if it holds the whole |
| RbHeap.HeightBound | rbtree.c:71-265 | the height of a valid tree of n nodes is at most 2 log2(n + 1) |
| TcbKey.TotalOrder | tcb.c:37-51 | tcbcmp is a strict total order of control blocks by (rport, lport, raddr), and 0 means equal keys |
| TcbKey.OrderIs | tcb.c:37-51 | the order: falling remote port, falling local port, then the remote address by its first differing byte |
| TcbKey.LocalAddressNotCompared | tcb.c:37-51 | two blocks compare equal if and only if ports and remote address agree, whatever their local addresses |
| TcbIndex.SearchDown | tcb.c:82-92 | turning where the comparison says keeps the searched key's place within the subtree |
| TcbIndex.SearchFails | tcb.c:77-95 | a search that falls off the tree proves the key absent |
| TcbIndex.TcbTable.FindRb | tcb.c:77-95 | the lookup returns what the finite map holds, looking at no more than 2 log2(n + 1) nodes |
| TcbIndex.TcbTable.Descend | tcb.c:58-69 | finds the key, or the one empty place where it belongs |
| TcbIndex.TcbTable.Insert | tcb.c:53-75 | the map gains the key, or nothing changes and false is returned if it was there; order and red-black rules hold |
| TcbIndex.TcbTable.New | tcb.c:97-130 | a zeroed block is linked under an absent key, or stays an idle node if its key is taken |
| TcbIndex.TcbTable.Delete | tcb.c:132-144 | the map loses exactly this block's key |
| TcbIndex.TcbTable.DeleteIdle | tcb.c:132-144 | deleting a block that was never linked empties the map |
| TcbIndex.InsertedSorted | tcb.c:53-75 | the order with the new node at the end of the descent is sorted |
| TcbIndex.ErasedIndex | tcb.c:132-144 | the order without the node is sorted and agrees with the map without its key |
| TcbDispatch.FindTerminates | tcb.c:146-183 | tcb_find's recursion ends if and only if the query is answerable, and then with the exact match or the fallback |
| TcbDispatch.LocalAddressIgnored | tcb.c:146-183 | the needles of lookups that differ only in a given local address compare equal, and the lookups return the same |
| TcbDispatch.StepSound | tcb.c:97-144 | whatever comes, what the index holds are live blocks under their own keys |
| TcbDispatch.StepConsistent | tcp.c:432-480 | a packet or a close keeps every block linked and the listener in place if and only if it is not a SYN carrying the wildcard key |
| TcbDispatch.PacketEffect | tcp.c:423-480 | a packet of a connection ends exactly it or changes nothing; a SYN for none, to a nonzero port, makes and links a block with just its addresses and ports, which the next packet finds; every other packet changes nothing |
| TcbDispatch.CloseRemoves | tcb.c:132-144 | a close removes exactly that connection and its key |
| TcbDispatch.NewOnlyWhenAbsent | tcp.c:446-453 | tcb_new is reached only for an absent key, that packet excepted |
| TcbDispatch.RunConsistent | tcp.c:423-480 | after tcp_listen, over every run of packets to nonzero ports and of closings, every lookup ends with the exact match or else the listener |
| TcbDispatch.ClashLosesListener | tcb.c:97-144 | the input that empties the index: a SYN with the wildcard key, then its deletion; afterwards no lookup for a nonzero port terminates |
| TcbDispatch.LoseListener | tcb.c:97-144 | the same run on the tree ends with a null root while the listener is allocated |
| TcbDispatch.Dispatcher.constructor | tcp.c:693-702 | the index holds the wildcard listener alone |
| TcbDispatch.Dispatcher.TcbFind | tcb.c:146-183 | on the tree, with its recursion, returns the exact match, the fallback or null |
| TcbDispatch.Dispatcher.Handle | tcp.c:423-480 | for every packet whose lookup returns, clashing ones included, the tree and the set of blocks step as the finite map does |
| TcbDispatch.Dispatcher.TcbAlloc | tcb.c:97-130 | a new block is linked if its key is absent, else allocated and not linked; the others stay |
| TcbDispatch.Dispatcher.TcbFree | tcb.c:132-144 | exactly this block is gone from the tree and from the live ones, or with a block never linked the whole index |
| TcbDispatch.Dispatcher.Drive | tcp.c:423-480 | every run of packets and closings takes the tree where it takes the finite map |
| StreamBuffer.ReadsWhatWasWritten | buffer.c:62-177 | after any run of writes and in-window advances, a read at any retained number yields exactly the bytes written there |
| StreamBuffer.WriteAdvanceIs | buffer.c:62-146 | a write takes the longest prefix that fits, an advance forgets exactly what lies before the number |
| StreamBuffer.OutsideIs | buffer.c:92-177 | outside what is retained nothing is read; rb_avail is 0 before it and negative beyond the end |
| StreamBuffer.RunWindow | buffer.c:62-146 | the buffer is always the tail of all bytes accepted, never longer than its size |
| RingBuffer.DiffExact | buffer.c:62-103 | the signed 32-bit difference is the true one across wrap-around, less than half the space apart |
| RingBuffer.RingBuf.constructor | buffer.c:34-46 | an empty stream at number 0 |
| RingBuffer.RingBuf.Set | buffer.c:56-60 | the stream's end is moved to the given number |
| RingBuffer.RingBuf.Advance | buffer.c:62-78 | the stream forgets what lies below the number, if and only if the number is not below what is retained, else more is counted as held than there is; the store is freed exactly when nothing is left |
| RingBuffer.RingBuf.Left | buffer.c:80-84 | the free space of the stream |
| RingBuffer.RingBuf.Avail | buffer.c:92-103 | the bytes from a number to the end, 0 if it is no longer retained, negative beyond the end |
| RingBuffer.RingBuf.Store | buffer.c:122-141 | the one or two copies place the data around the physical end and touch nothing else |
| RingBuffer.RingBuf.Write | buffer.c:105-146 | the stream gains the longest prefix that fits; its length is returned; counters stay in range |
| RingBuffer.RingBuf.Fetch | buffer.c:160-174 | the one or two copies take the bytes in ring order |
| RingBuffer.RingBuf.Read | buffer.c:148-177 | the caller's array receives exactly the stream's bytes, elsewhere it is untouched |
| RingBuffer.RingBuf.Drive | buffer.c:62-146 | a run of writes and in-window advances takes the store where it takes the stream |
| RingBuffer.Session | buffer.c:34-177 | a buffer from its making on: after any such run a read fills the array with exactly the bytes written at those sequence numbers |
| Rtt.SampleInRange | tcp.c:499-517 | one sample keeps mean and deviation within the range of the samples |
| Rtt.RunInRange | tcp.c:499-517 | over every sequence of samples in [lo, hi] the mean stays in [lo, hi] and the deviation in [0, hi - lo] |
| Rtt.ErrorFalls | tcp.c:505-508 | under a constant sample the error of the mean falls strictly until it is at most 2, and stays there |
| Rtt.DeviationFalls | tcp.c:511-514 | then the deviation falls strictly until it is at most 4, and stays there |
| Rtt.TimeoutSettles | tcp.c:283-294 | from any start a constant round-trip time d brings the unclamped timeout to at most d + 18, for good, with a bound on the number of samples |
| Rtt.Timeout | tcp.c:289-293 | the delay is within 500 to 30000 and is the estimate itself wherever that is in range |
| TcpEndpoint.Endpoint.constructor | tcp.c:446-470 | the control block a SYN at the listener makes |
| TcpEndpoint.Endpoint.UpdateWindow | tcp.c:151-162 | new usable window, capped by the peer's |
| TcpEndpoint.Endpoint.SetTimeout | tcp.c:283-300 | the timer runs for the clamped estimate and marks snd_nxt |
| TcpEndpoint.Endpoint.Timeout | tcp.c:164-178 | everything from snd_una on is to be sent again, from the smallest window |
| TcpEndpoint.Endpoint.Choose | tcp.c:311-333 | the data, the PSH flag and the FIN that may go out now |
| TcpEndpoint.Endpoint.Emit | tcp.c:344-365 | marks, header and counters for one segment |
| TcpEndpoint.Endpoint.SendAndAck | tcp.c:302-387 | one segment or none, and whether to come again |
| TcpEndpoint.Endpoint.DoWrite | tcp.c:676-691 | the send event: SYN-ACK first, segments later; it stays armed only while more can go |
| TcpEndpoint.Endpoint.Send | tcp.c:638-645 | the output gains what fits; the send event is armed if the window is open |
| TcpEndpoint.Endpoint.Read | tcp.c:647-674 | returns the oldest bytes, widens the window, and asks for a window update if it was closed |
| TcpEndpoint.Endpoint.Close | tcp.c:248-273 | reset and deletion, or detachment and the state that sends the FIN |
| TcpEndpoint.Endpoint.TakeAck | tcp.c:495-545 | the round-trip sample, snd_una, the output buffer and the timer after a new acknowledgement |
| TcpEndpoint.Endpoint.CheckAllAcked | tcp.c:546-577 | the state changes once snd_una equals snd_nxt |
| TcpEndpoint.Endpoint.RecvData | tcp.c:389-421 | payload into the input buffer or dropped if detached, FIN counted |
| TcpEndpoint.Endpoint.ByState | tcp.c:600-627 | what data and FIN do in each state, the peer's close included |
| TcpEndpoint.Endpoint.TakeWindow | tcp.c:590-598 | the peer's window; the send event is armed if it opens |
| TcpEndpoint.Endpoint.TakeData | tcp.c:579-627 | duplicates are answered only; the rest goes on to the window and the state |
| TcpEndpoint.Endpoint.Receive | tcp.c:482-627 | the whole of handle_tcp for an existing connection: new control block, callbacks in order, deletion |
| TcpEndpoint.Endpoint.Dispatch | tcp.c:164-691 | whatever the event, the object makes the step of the model and keeps the whole invariant |
| TcpEndpoint.Endpoint.Drive | tcp.c:164-691 | a run of events on the object is a run of the model, with the same segments sent and bytes read |
| TcpEndpoint.Connection | tcp.c:446-470 | from its SYN on, the object stands where the run does, so the theorems on runs hold of it |
| TcpRuns.AckInv | tcp.c:495-577 | every honest acknowledgement keeps the sending invariant in every state, and snd_una does not fall |
| TcpRuns.AckedClosing | tcp.c:519-545 | in the closing states an acknowledgement covers the FIN exactly when it leaves everything acknowledged and no timer |
| TcpRuns.PendingOk | tcp.c:311-333 | what is about to be sent is the application's stream at that number and ends, FIN included, within the window |
| TcpRuns.SentInv | tcp.c:344-387 | sending keeps the invariant, and the result of tcp_send_and_ack leaves the send event armed whenever it must be |
| TcpRuns.TimeoutInv | tcp.c:164-178 | going back to snd_una keeps the sending invariant, so what is sent again is still buffered |
| TcpRuns.ReceiveInv | tcp.c:482-627 | every segment of an honest peer keeps the sending invariant |
| TcpRuns.ReceiveIn | tcp.c:389-421 | a fitting segment keeps the receiving invariant |
| TcpRuns.StepInv | tcp.c:164-691 | every step of the endpoint keeps the whole invariant |
| TcpTheorems.RetransmissionConsistency | tcp.c:303-387 | in every run base <= snd_una <= snd_nxt <= end + 1, and every segment ever sent, also again, carries the application's bytes at its number; every FIN sits right after the last |
| TcpTheorems.NoLostWakeUp | tcp.c:590-598 | in every run an open window and unsent data, or in the closing states an unsent FIN, mean the send event is armed and will send it; in an established connection the timer is armed, for 500 to 30000 milliseconds, if and only if something is outstanding |
| TcpTheorems.NoLostAck | tcp.c:337-342 | in every run last_acked never passes rcv_nxt, and while it lags the send event is armed and will send a segment with the current rcv_nxt and window |
| TcpTheorems.SegmentsAnswered | tcp.c:579-627 | a duplicate, or a segment with data or FIN, makes more acknowledgement owed if and only if it is not a repeated SYN in SYN_RECVD, not one that finds all acknowledged in CLOSING or LAST_ACK, and not data where none is taken any more |
| TcpTheorems.StopsEarly | tcp.c:554-575 | the handler returns after the ACK part exactly in CLOSING, and deletes exactly in LAST_ACK, when the segment leaves everything acknowledged |
| TcpTheorems.LoneFinUntimed | tcp.c:344-345 | the send event puts something outstanding without a timer if and only if none runs, the window is open, and in a closing state nothing but the FIN is left |
| TcpTheorems.PushMarksEnd | tcp.c:320-321 | a segment has PSH if and only if it carries the last byte written |
| TcpTheorems.UntimedOnlyFin | tcp.c:344-345 | after close only a lone FIN can be outstanding without a timer |
| TcpTheorems.LimitIsHighestSent | tcp.c:364-365 | in every run rtt_limit is the highest sequence number ever sent |
| TcpTheorems.KarnsRule | tcp.c:347-352 | in every run, while a round trip is being measured, the number it is measured on is outstanding and was sent exactly once, so that no sample comes from something sent again |
| TcpTheorems.WindowRecorded | tcp.c:580-598 | snd_wnd becomes what the segment offers, unless it is old or finds all acknowledged in CLOSING |
| TcpTheorems.RunOffered | tcp.c:591-598 | in every run snd_wnd is the last window that the peer offered |
| TcpTheorems.SendWindowSafety | tcp.c:145-162 | in every run snd_max is at most snd_una plus the last window offered, every data or FIN segment ends there too and holds at most 1220 bytes, and snd_una never decreases |
| TcpTheorems.OtherwiseOnlyReset | tcp.c:211-227 | outside the send event nothing goes out but a reset |
| TcpTheorems.ReceiveConservation | tcp.c:389-421 | in every run what was read followed by what is buffered is what was accepted, and rcv_nxt + rcv_wnd = read_seq + buffer size |
| TcpTheorems.DuplicatesAddNothing | tcp.c:579-589 | a segment below rcv_nxt leaves the input as it is |
| TcpTheorems.RightEdgeAdvances | tcp.c:656-665 | between any two points of a run before close, and between any two after it, the right edge of the offered window has not moved left, whatever the peer sends |
| TcpTheorems.StateSafety | tcp.c:482-627 | every run follows the passive-open diagram; callbacks are attached exactly before close; FIN_WAIT_2 and TIME_WAIT mean every byte and the FIN were acknowledged |
| TcpTheorems.NoCallbackAfterClose | tcp.c:248-281 | no step makes a callback on a detached connection |
| TcpTheorems.DeliversPeerStream | tcp.c:647-674 | what the application reads is a prefix of what the peer sent |
| TcpEffects.SegmentOnSender | tcp.c:495-545 | for every segment in every reachable state: snd_una, snd_nxt, the round-trip sample, the growth of snd_cwnd by 1220, its cap and snd_max by the window offered |
| TcpEffects.SegmentOnTimer | tcp.c:530-543 | when the timer is set anew, for srtt + 4 sdev within 500 to 30000, and when it is stopped or left alone |
| TcpEffects.SegmentOnState | tcp.c:546-627 | the state after every segment is the one of the diagram in section 3.3.2 of RFC 9293, CLOSE_WAIT being left at once |
| TcpEffects.SegmentOnReceiver | tcp.c:389-421 | rcv_nxt counts data and FIN exactly if they are taken in, and before close the buffer gains what fits |
| TcpEffects.ReadEffect | tcp.c:647-674 | tcp_read returns as many of the oldest bytes as asked for and there are, and offers the room; from a full buffer it makes an acknowledgement owed |
| TcpEffects.ReadReopens | tcp.c:667-671 | reading from a full buffer arms the send event, which tells the peer the new window |
| TcpEffects.NoLostWindowUpdate | tcp.c:656-671 | in every run, if the last segment offered nothing and there is room now, the send event is armed and will offer it |
| TcpOutputs.SendEffect | tcp.c:302-387 | the send event sends nothing exactly if there is nothing to send and no acknowledgement owed, else one segment from snd_nxt with all the data and the FIN that may go; it stays armed exactly if there is more |
| TcpOutputs.SendOnSender | tcp.c:344-365 | snd_nxt moves past what was sent; the timer starts, and a round trip is measured, exactly when they should |
| TcpOutputs.SentCurrent | tcp.c:676-691 | every segment sent acknowledges rcv_nxt and offers rcv_wnd; before the handshake exactly the SYN-ACK is sent |
| TcpOutputs.AcknowledgementsAdvance | tcp.c:63-90 | in every run every SYN sent acknowledges the peer's SYN, and acknowledgement numbers never fall nor pass rcv_nxt |
| TcpOutputs.OpenEffect | tcp.c:446-470 | the connection that a SYN makes, in numbers |
| TcpOutputs.AcceptEffect | tcp.c:100-105 | accepting makes the next send event answer the SYN |
| TcpOutputs.WriteEffect | tcp.c:638-645 | tcp_send takes the longest prefix that fits, arms the send event exactly if the window is open, and changes nothing else |
| TcpOutputs.CloseEffect | tcp.c:248-273 | a hard close, or one before the handshake, sends a reset and deletes; a soft one detaches and asks for the FIN |
| TcpOutputs.TimeoutEffect | tcp.c:164-178 | all from snd_una on is to be sent again, one segment at first, nothing of it measured |
| TcpOutputs.EndEffect | tcp.c:482-493 | a reset or the removal timer deletes the connection silently; the application is told of a reset while attached |
| TcpOutputs.SegmentCalls | tcp.c:389-627 | which callbacks a segment makes, in order, with the room in the output buffer and the number of bytes that can be read |
| TcpLimits.GapIsClosed | tcp.c:579-589 | in every established connection data is counted at its own sequence numbers if and only if the segment starts at rcv_nxt |
| TcpLimits.GapMisleads | tcp.c:389-421 | a run in which all segments carry the peer's stream in its place and what is read is not a prefix of it |
| TcpLimits.CloseMovesEdge | tcp.c:264-265 | closing moves the right edge left if and only if more than 1000 bytes were on offer; a FIN with n bytes of data, if and only if more than n + 1001 |
| TcpLimits.CloseShrinksWindow | tcp.c:264-265 | a reachable connection for which it does |
| TcpLimits.SynAckNotResent | tcp.c:580-589 | once the SYN-ACK is out, nothing is sent until the peer acknowledges, however often it repeats its SYN |
| TcpLimits.StalledExactlyIf | tcp.c:567-575 | in every run to CLOSING with the FIN never sent: the connection is stalled, its window shut and nothing outstanding, if and only if neither send event nor timer is armed |
| TcpLimits.StalledForever | tcp.c:567-575 | no run of acknowledging segments, whatever windows they offer, ends the stall or makes it send |
| TcpLimits.ClosingStalls | tcp.c:567-575 | such a connection is reachable, with only the FIN left |
| TcpLimits.ClosingStallsWithData | tcp.c:567-575 | and with data left that was sent before and timed out |
| TcpLimits.NoWindowProbe | tcp.c:676-691 | an established connection with a shut window, nothing armed, sends nothing in any run until a segment arrives or the application reads or closes |
| TcpLimits.WindowAwaited | tcp.c:676-691 | such a connection with data to send is reachable |
| TcpLimits.OverrunReached | tcp.c:402-410 | a run in which a byte beyond the window is counted in rcv_nxt and not buffered |
| TcpLimits.OverrunLosesData | tcp.c:402-410 | the receiving invariant survives a segment if and only if its payload fits the window |
| TcpLimits.LastAckExit | tcp.c:554-562 | exactly which acknowledgements delete a connection in LAST_ACK, and exactly when everything had been acknowledged |
| TcpLimits.FinAloneUntimed | tcp.c:344-345 | a reachable state with an unacknowledged FIN, no timer and no send event |
| TcpLimits.LastAckLosesData | tcp.c:554-562 | a reachable state in which LAST_ACK is deleted with a byte unsent |
| TimerList.LaterMeansHalfMilli | event.c:52-56 | the rounded difference is positive exactly from half a millisecond on |
| TimerList.TimeAddExact | event.c:73-78 | adding milliseconds is exact without carrying, and time_diff gives back the interval exactly if it is not negative |
| TimerList.TimerQueue.DelEvent | event.c:102-113 | for every event, in the list or not: both link directions skip it, and the list is intact if and only if it was in the list or its links were loose; they are loose afterwards |
| TimerList.TimerQueue.DelOutside | event.c:102-113 | on an event outside the list it leaves the list intact if and only if the event's links, where they lead into the list, lead to events that link past it |
| TimerList.TimerQueue.SuccessorGone | event.c:102-113 | for an event whose successor has left the list too, that holds if and only if no event before it is left there |
| TimerList.TimerQueue.LinkBefore | event.c:140-149 | the four link writes put the event before the one found |
| TimerList.TimerQueue.LinkLast | event.c:150-155 | the three link writes put the event last |
| TimerList.TimerQueue.Search | event.c:139-156 | finds the first event due half a millisecond or more later, or the last event |
| TimerList.TimerQueue.Resched | event.c:126-158 | the event is in the list once, with its new deadline; the others keep order and deadlines; links and approximate order hold if and only if the list was not empty without it or it had no links |
| TimerList.TimerQueue.Add | event.c:115-124 | a new event joins the list |
| TimerList.TimerQueue.Remove | event.c:190-205 | exactly this event leaves the list, if it is still there; if not, the list stays intact if and only if the event's links are loose |
| TimerList.TimerQueue.Fire | event.c:248-253 | running the first timer, whose callback may remove its event before the loop does, or schedule it anew, leaves the event in the list once or not at all and the others as they were |
| TimerList.TimerQueue.First | event.c:234-248 | the head is due less than half a millisecond after the earliest deadline |
| TimerList.SortedExactlyIf | event.c:139-156 | an insertion keeps a sorted list sorted if and only if nothing is due within the half millisecond after it |
| Checksum.MakeCksum | util.c:122-133 | both loops terminate; the result is the folded sum |
| Checksum.FoldResidue | util.c:130-131 | folding yields the residue mod 65535, with 65535 for 0 unless the sum is 0 |
| Checksum.CksumIsOnesSum | util.c:122-133 | the result is the end-around-carry sum of RFC 1071 over the pseudo-header and payload words, even and odd lengths |
| Checksum.NoOverflow | util.c:122-129 | the 32-bit int does not overflow for packets up to 65000 bytes |
| Checksum.FilledVerifies | tcp.c:84-85 | every packet built with a zeroed field and filled with the complement sums to 0xffff |
| UdpHeader.UdpVerifies | udp.c:113-132 | the packet carries the data that fits 1280 bytes, and its checksum verifies |
| UdpHeader.HeaderBytes | udp.c:118-127 | version, lengths, next header, hop limit, addresses and ports of the packet, byte by byte |
| UdpHeader.SomePortStoresZero | udp.c:129-130 | for all addresses, remote ports and data some local port makes the stored checksum zero |
| UdpHeader.ZeroChecksumSent | udp.c:129-130 | such a packet |
| Checksum.ZeroField | udp.c:118-130 | the stored checksum is zero exactly if the sum is a positive multiple of 0xffff |
| Checksum.DetectsChangedWord | util.c:122-133 | a single changed word goes unnoticed only if 0 became 0xffff or the reverse |
| Checksum.PutGet32 | defs.h:27-30 | reading what PUT_32 wrote gives the value mod 2^32, negative values included |
| TcpHeader.HeaderBytes | tcp.c:63-90 | version, payload length, next header, hop limit, addresses and options of the packet, byte by byte |
| TcpWire.WireRoundTrip | tcp.c:423-498 | the segment that handle_tcp reads from a packet is the one it was built for, numbers cut to 32 bits and the window to 16 |
| TcpWire.FlagValues | tcp.c:223-240 | the flags bytes of SYN-ACK, reset, data and FIN segments |
| TcpHeader.HeaderRoundTrip | tcp.c:63-90 | handle_tcp reads back the ports, numbers, flags, window and payload that make_tcp_hdr wrote, and the checksum verifies |
| Neighbour.Find | icmp.c:63-72 | the first entry with the address, if any |
| Neighbour.RunConserves | icmp.c:108-182 | over every run: addresses unique, reachable means empty queue, per neighbour what was submitted is what went out followed by what waits, in order, and multicast packets went out once, in order |
| Neighbour.SubmitRoutes | icmp.c:124-157 | a multicast packet is multicast; another goes through its own destination if that is link-local, else through fe80::1: to its link address if it is reachable, else into its queue |
| Neighbour.SubmitResolves | icmp.c:146-153 | if that neighbour is not known, it is entered and solicited, and the packet waits there |
| Neighbour.LearnReleases | icmp.c:159-179 | a known neighbour becomes reachable at the address heard, or the one it had, and its queue goes out there in order |
| Neighbour.LearnEnters | icmp.c:87-106 | an unknown one is entered, reachable exactly if its link address was heard or none is needed |
| Neighbour.RunRouted | icmp.c:124-182 | in every run packets wait at the neighbour on their route, only link-local addresses are solicited, and exactly packets to 0xff are multicast |
| Neighbour.SubmitConserved | icmp.c:124-157 | send_pkt transmits or queues a packet exactly once |
| Neighbour.LearnConserved | icmp.c:159-182 | got_neighbor releases the queue in arrival order and keeps nothing |
| Neighbour.StepAsked | icmp.c:279-302 | every unresolved neighbour has been solicited, and a step keeps that if and only if it is not an advertisement without link address from an unknown one |
| Neighbour.NeverAsked | icmp.c:124-182 | a neighbour that is known and was not solicited is not solicited in any run |
| Neighbour.SolicitedOnce | icmp.c:124-182 | in no run are two solicitations sent for the same target |
| Neighbour.UnaskedAfterAdvert | icmp.c:180-181 | such an advertisement leads there |
| Neighbour.StepAddressed | icmp.c:164-167 | reachable neighbours have link addresses, and a step keeps that if and only if it is not an advertisement without link address from a neighbour whose link address is unknown |
| Neighbour.BlindSends | icmp.c:164-176 | after such an advertisement a waiting packet goes out to no link address |
| NeighbourCache.RowReplaced | icmp.c:108-182 | writes to one entry and its queue change just that neighbour, all links of the others holding |
| NeighbourCache.Cache.FindNeighbor | icmp.c:63-72 | walking the links finds the first entry with the address |
| NeighbourCache.Cache.AddNeighbor | icmp.c:87-106 | the list, forwards and backwards, has a new head, unresolved exactly if link addresses are used and none was given |
| NeighbourCache.Cache.QueuePacket | icmp.c:108-122 | the walk to the tail ends there, and the two link writes add the packet behind the last, all other queues untouched |
| NeighbourCache.Cache.Send | icmp.c:124-157 | multicast, unicast, queueing and solicitation as specified; a transmitted buffer is freed and in no queue |
| NeighbourCache.Cache.ReleaseOne | icmp.c:173-176 | one turn of the loop transmits the first packet and frees it, its successor having been read before |
| NeighbourCache.Cache.Flush | icmp.c:173-176 | sending the queued packets through send_pkt again transmits each once, in order, and queues none, although the entry leads to freed buffers meanwhile |
| NeighbourCache.Cache.Got | icmp.c:159-182 | the neighbour becomes reachable and its queue empty |
| NeighbourCache.Cache.Submit | icmp.c:124-157 | a packet in a new buffer steps the linked cache as the specification says |
| NeighbourCache.Cache.Drive | icmp.c:124-182 | any run of packets and advertisements takes the linked cache where it takes the value, so the theorems on runs hold of it |

## Left out

- RbTree.RbRoot.LinkNode: parent and colour are two fields of the node; RbWord proves that the packed word behaves like them, the methods do not use it.
- rb_replace_node: nothing in the program calls it.
- TcbDispatch.Dispatcher.Handle: requires that the lookup returns, without which the source recurses without end.
- TcbDispatch.Dispatcher.TcbFree: a block that was linked into a tree lost since then keeps stale links; deleting it is excluded.
- TcpEndpoint.Endpoint: 32-bit wrap-around of sequence numbers in tcp.c, which the source does not handle; the endpoint works on the streams that RingBuf implements, not on RingBuf objects.
- TcpEndpoint.Endpoint.Receive: requires what the run invariant gives (callbacks attached before close, output buffer not ahead of snd_una), without which the source would follow a null pointer.
- TcpHeader.HeaderRoundTrip: the packet is a value, not a buffer written in place; option bytes are a parameter.
- TimerList.TimerQueue.Resched: an event outside the list whose links are not loose is excluded, because del_event breaks the list (DelOutside) before it is searched.
- TimerList.LaterMeansHalfMilli: the int overflow of time_diff for intervals over half an hour and its dependence on the width of time_t.
- Liveness of whole runs: that timers fire and events run is up to the event loop, which is not modelled; nor is any claim that a timer never fires early.
- Resets fabricated for unknown connections, ICMP echo, solicitation and advertisement contents, UDP sockets: header filling by the scheme proved for TCP.
- Interface drivers, the event loop with select and signals, session relaying over sockets, the parser of the settings, the HTTP status page, packet buffers, logging and memory allocation: plumbing and input/output.
