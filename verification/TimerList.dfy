/** The timer list of event.c: doubly linked, ordered by a comparison that rounds to milliseconds. */
module TimerList {
  import opened Basics

  /** A struct timeval; the microseconds need not be below a million. */
  datatype TimeRef = TimeRef(sec: int, usec: int) {
    function Micros(): int { sec * 1000000 + usec }
  }

  /** time_diff: from `start` to `end` in milliseconds, half a millisecond rounding away. */
  function TimeDiff(start: TimeRef, end: TimeRef): int {
    Div((end.sec - start.sec) * 1000000 + end.usec - start.usec + 500, 1000)
  }

  /** The comparison of resched_time_event: the difference counts from half a millisecond on. */
  lemma LaterMeansHalfMilli(a: TimeRef, b: TimeRef)
    ensures TimeDiff(a, b) > 0 <==> b.Micros() >= a.Micros() + 500
  {
    DivIs((b.sec - a.sec) * 1000000 + b.usec - a.usec + 500, 1000);
  }

  /** time_add; C division and remainder. */
  function TimeAdd(t: TimeRef, msec: int): TimeRef {
    TimeRef(t.sec + Div(msec, 1000), t.usec + (msec - Div(msec, 1000) * 1000) * 1000)
  }

  /** Without carrying into the seconds, time_add is exact, for negative intervals too; the microseconds change
      by less than a second. */
  lemma TimeAddExact(t: TimeRef, msec: int)
    ensures TimeAdd(t, msec).Micros() == t.Micros() + msec * 1000
    ensures TimeDiff(t, TimeAdd(t, msec)) == msec <==> msec >= 0
    ensures msec >= 0 ==> 0 <= TimeAdd(t, msec).usec - t.usec < 1000000
    ensures msec < 0 ==> -1000000 < TimeAdd(t, msec).usec - t.usec <= 0
  {
    DivIs(msec, 1000);
    var u := TimeAdd(t, msec);
    DivIs((u.sec - t.sec) * 1000000 + u.usec - t.usec + 500, 1000);
  }

  class Event {
    var prev: Event?
    var next: Event?
    var time: TimeRef
    var remove: bool

    constructor ()
      ensures prev == null && next == null
    {
      prev, next, time, remove := null, null, TimeRef(0, 0), false;
    }
  }

  ghost predicate Distinct(s: seq<Event>) {
    forall i, j :: 0 <= i < j < |s| ==> s[i] != s[j]
  }

  /** `due` lists the deadlines along `s`, in microseconds. */
  ghost predicate Timed(s: seq<Event>, due: seq<int>)
    reads s`time
  {
    |due| == |s| && forall i :: 0 <= i < |s| ==> s[i].time.Micros() == due[i]
  }

  /** No deadline precedes one that is half a millisecond or more before it. */
  predicate AlmostSorted(ts: seq<int>) {
    forall i, j :: 0 <= i < j < |ts| ==> ts[i] < ts[j] + 500
  }

  /** The `j`-th event of `s`, null beyond its ends. */
  function Nbr(s: seq<Event>, j: int): Event? { if 0 <= j < |s| then s[j] else null }

  /** What the next, and the prev, pointers along `s` have to be. */
  ghost function Nexts(s: seq<Event>): (r: seq<Event?>)
    ensures |r| == |s| && forall i :: 0 <= i < |s| ==> r[i] == Nbr(s, i + 1)
  {
    seq(|s|, i => Nbr(s, i + 1))
  }

  ghost function Prevs(s: seq<Event>): (r: seq<Event?>)
    ensures |r| == |s| && forall i :: 0 <= i < |s| ==> r[i] == Nbr(s, i - 1)
  {
    seq(|s|, i => Nbr(s, i - 1))
  }

  ghost predicate Mirrors(s: seq<Event>, nexts: seq<Event?>, prevs: seq<Event?>)
    reads s`prev, s`next
  {
    && |nexts| == |prevs| == |s|
    && (forall i {:trigger s[i].next} :: 0 <= i < |s| ==> s[i].next == nexts[i])
    && (forall i {:trigger s[i].prev} :: 0 <= i < |s| ==> s[i].prev == prevs[i])
  }

  /** Where the links of `e` lead. */
  ghost function Beside(e: Event): set<Event>
    reads e`prev, e`next
  {
    (if e.next != null then {e.next} else {}) + if e.prev != null then {e.prev} else {}
  }

  /** `s` without its `k`-th element, if it has one. */
  function Rest<T>(s: seq<T>, k: nat): seq<T> {
    if k < |s| then s[..k] + s[k + 1..] else s
  }

  function InsertAt<T>(s: seq<T>, k: nat, x: T): seq<T>
    requires k <= |s|
  {
    s[..k] + [x] + s[k..]
  }

  /** What a timer's callback does with its own event. */
  datatype Outcome = Returns | RemovesIt | Reschedules(tr: TimeRef)

  class TimerQueue {
    var head: Event?
    ghost var events: seq<Event>
    ghost var due: seq<int>

    ghost predicate Linked()
      reads this, events`prev, events`next
    {
      Distinct(events) && Mirrors(events, Nexts(events), Prevs(events)) && head == Nbr(events, 0)
    }

    ghost predicate Valid()
      reads this, events
    {
      Linked() && Timed(events, due) && AlmostSorted(due)
    }

    constructor ()
      ensures Valid() && events == [] && due == []
    {
      head, events, due := null, [], [];
    }

    /** Where the links of `e` lead into the list, they lead to events that link to what is behind
        `e` on the other side, as if `e` had just been taken out from between them. */
    ghost predicate Loose(e: Event)
      reads this, e`prev, e`next, events`prev, events`next
    {
      && (e.next != null && e.next in events ==> e.next.prev == e.prev)
      && (e.prev != null && e.prev in events ==> e.prev.next == e.next)
    }

    /** `k` is the place of `e` in the list, or the length of the list if `e` is not in it. */
    ghost predicate At(e: Event, k: nat)
      reads this
    {
      if k < |events| then events[k] == e else k == |events| && e !in events
    }

    /** del_event, for an event in the list or not. It takes the event out, or leaves the list alone,
        exactly if the event was in the list or its links were loose. The pointers of the event itself
        stay, and are loose then, so that taking it out once more changes nothing. */
    method DelEvent(e: Event, ghost k: nat)
      requires Linked() && At(e, k)
      modifies this`head, this`events, events`prev, events`next, Beside(e)`prev, Beside(e)`next
      ensures Linked() <==> k < |old(events)| || old(Loose(e))
      ensures events == Rest(old(events), k) && At(e, |events|) && Loose(e)
      ensures e.prev == old(e.prev) && e.next == old(e.next)
    {
      Skip(e, k);
      if k < |events| {
        RestLinked(events, e, k);
      }
      events := Rest(events, k);
    }

    /** The pointer writes of del_event. */
    method Skip(e: Event, ghost k: nat)
      requires Linked() && At(e, k)
      modifies this`head, events`prev, events`next, Beside(e)`prev, Beside(e)`next
      ensures k < |events| ==> head == Nbr(Rest(events, k), 0)
      ensures k < |events| ==>
        Mirrors(events, Put(Nexts(events), k - 1, Nexts(events)[k]), Put(Prevs(events), k + 1, Prevs(events)[k]))
      ensures k == |events| ==> Loose(e) && (Linked() <==> old(Loose(e)))
      ensures e.prev == old(e.prev) && e.next == old(e.next)
    {
      ghost var n := if e.next != null && e.next in events then PlaceOf(events, e.next) else 0;
      ghost var p := if e.prev != null && e.prev in events then PlaceOf(events, e.prev) else 0;
      if e.next != null {
        e.next.prev := e.prev;
      }
      if e.prev != null {
        e.prev.next := e.next;
      }
      if e == head {
        head := e.next;
      }
      assert e.next != null && e.next in events ==> events[n].prev == e.prev;
      assert e.prev != null && e.prev in events ==> events[p].next == e.next;
    }

    /** del_event on an event that is not in the list leaves the list alone exactly if the event's
        links are loose. */
    method DelOutside(e: Event)
      requires Linked() && e !in events
      modifies this`head, this`events, events`prev, events`next, Beside(e)`prev, Beside(e)`next
      ensures events == old(events)
      ensures Linked() <==>
        old((e.next != null && e.next in events ==> e.next.prev == e.prev) &&
            (e.prev != null && e.prev in events ==> e.prev.next == e.next))
    {
      DelEvent(e, |events|);
    }

    /** The pointer writes that put `e` before the `k`-th event `t`. */
    method LinkBefore(e: Event, t: Event, ghost k: nat)
      requires Linked() && k < |events| && events[k] == t && e !in events
      modifies this`head, this`events, events`prev, events`next, e`prev, e`next
      ensures Linked() && events == InsertAt(old(events), k, e)
    {
      ghost var s := events;
      e.next := t;
      e.prev := t.prev;
      t.prev := e;
      if e.prev != null {
        e.prev.next := e;
      } else {
        head := e;
      }
      assert Mirrors(s, Put(Nexts(s), k - 1, e), Put(Prevs(s), k, e));
      InsertedLinked(s, k, e);
      events := InsertAt(s, k, e);
    }

    /** The pointer writes that put `e` after the last event `t`. */
    method LinkLast(e: Event, t: Event)
      requires Linked() && events != [] && events[|events| - 1] == t && e !in events
      modifies this`events, events`prev, events`next, e`prev, e`next
      ensures Linked() && events == InsertAt(old(events), |old(events)|, e)
    {
      ghost var s := events;
      e.next := null;
      e.prev := t;
      t.next := e;
      assert Mirrors(s, Put(Nexts(s), |s| - 1, e), Put(Prevs(s), |s|, e));
      InsertedLinked(s, |s|, e);
      events := InsertAt(s, |s|, e);
    }

    /** The search of resched_time_event: the first event due half a millisecond or more after
        `e`, or else the last event. */
    method Search(e: Event) returns (t: Event, before: bool, ghost k: nat)
      requires Valid() && events != []
      ensures k < |events| && events[k] == t && (!before ==> k + 1 == |events|)
      ensures Fits(due, e.time.Micros(), if before then k else k + 1)
    {
      t, k := head, 0;
      while true
        invariant k < |events| && events[k] == t
        invariant forall i :: 0 <= i < k ==> due[i] < e.time.Micros() + 500
        decreases |events| - k
      {
        LaterMeansHalfMilli(e.time, t.time);
        if TimeDiff(e.time, t.time) > 0 {
          return t, true, k;
        }
        assert k + 1 < |events| ==> events[k].next == events[k + 1];
        if t.next == null {
          return t, false, k;
        }
        t := t.next;
        k := k + 1;
      }
    }

    /** The insertion of resched_time_event, for an event that is not in the list. */
    method Link(e: Event) returns (ghost k: nat)
      requires Valid() && e !in events
      modifies this`head, this`events, events`prev, events`next, e`prev, e`next
      ensures Linked() <==> old(events) != [] || (old(e.prev) == null && old(e.next) == null)
      ensures k <= |old(events)| && events == InsertAt(old(events), k, e)
      ensures Fits(due, e.time.Micros(), k)
    {
      if head == null {
        head := e;
        events := [e];
        assert Nexts(events)[0] == null && Prevs(events)[0] == null;
        assert e.next == events[0].next && e.prev == events[0].prev;
        return 0;
      }
      var t, before;
      t, before, k := Search(e);
      if before {
        LinkBefore(e, t, k);
      } else {
        k := k + 1;
        LinkLast(e, t);
      }
    }

    method Insert(e: Event) returns (ghost k: nat)
      requires Valid() && e !in events
      modifies this, events`prev, events`next, e`prev, e`next
      ensures Valid() <==> old(events) != [] || (old(e.prev) == null && old(e.next) == null)
      ensures k <= |old(events)|
      ensures events == InsertAt(old(events), k, e) && due == InsertAt(old(due), k, e.time.Micros())
    {
      ghost var s := events;
      k := Link(e);
      InsertSorted(due, e.time.Micros(), k);
      InsertTimed(s, due, e, k);
      due := InsertAt(due, k, e.time.Micros());
    }

    /** Give `e` the deadline `tr` and take it out of the list. */
    method Retime(e: Event, tr: TimeRef, ghost k: nat)
      requires Valid() && At(e, k) && (k < |events| || Loose(e))
      modifies this, events`prev, events`next, Beside(e)`prev, Beside(e)`next, e`time
      ensures Valid() && events == Rest(old(events), k) && due == Rest(old(due), k)
      ensures e.time == tr && e !in events && e.prev == old(e.prev) && e.next == old(e.next)
    {
      RestSorted(due, k);
      RestTimed(events, due, k);
      RestDistinct(events, k);
      ghost var r := Rest(events, k);
      assert e !in r && Timed(r, Rest(due, k));
      e.time := tr;
      assert Timed(r, Rest(due, k));
      DelEvent(e, k);
      due := Rest(due, k);
    }

    /** resched_time_event, for an event in the list or one whose links are loose: it ends up once in
        the list, with its new deadline, and the others keep their order and theirs. The links are
        right then exactly unless the event becomes the only one and still has links. */
    method Resched(e: Event, tr: TimeRef, ghost k: nat) returns (ghost j: nat)
      requires Valid() && At(e, k) && (k < |events| || Loose(e))
      modifies this, events, e, Beside(e)`prev, Beside(e)`next
      ensures Valid() <==> Rest(old(events), k) != [] || (old(e.prev) == null && old(e.next) == null)
      ensures k < |old(events)| ==> Valid()
      ensures e.time == tr && j <= |Rest(old(events), k)|
      ensures events == InsertAt(Rest(old(events), k), j, e)
      ensures |due| == |events| && due == InsertAt(Rest(old(due), k), j, tr.Micros())
      ensures !e.remove
    {
      OnlyOne(e, k);
      e.remove := false;
      Retime(e, tr, k);
      j := Insert(e);
    }

    lemma OnlyOne(e: Event, k: nat)
      requires Linked() && At(e, k)
      ensures k < |events| && Rest(events, k) == [] ==> e.prev == null && e.next == null
    {
      if k < |events| {
        RestAt(events, k);
        assert events[k].next == Nexts(events)[k] && events[k].prev == Prevs(events)[k];
      }
    }

    /** add_time_event */
    method Add(tr: TimeRef) returns (e: Event, ghost j: nat)
      requires Valid()
      modifies this, events
      ensures Valid() && fresh(e) && e.time == tr && j <= |old(events)|
      ensures events == InsertAt(old(events), j, e) && due == InsertAt(old(due), j, tr.Micros())
    {
      e := new Event();
      j := Resched(e, tr, |events|);
    }

    /** remove_event, for a timer in the list or not. */
    method Remove(e: Event, ghost k: nat)
      requires Valid() && At(e, k)
      modifies this, events`prev, events`next, Beside(e)`prev, Beside(e)`next
      ensures Valid() <==> k < |old(events)| || old(Loose(e))
      ensures events == Rest(old(events), k) && due == Rest(old(due), k) && At(e, |events|) && Loose(e)
      ensures e.prev == old(e.prev) && e.next == old(e.next)
    {
      RestSorted(due, k);
      RestTimed(events, due, k);
      ghost var r := Rest(events, k);
      DelEvent(e, k);
      assert Timed(r, Rest(due, k));
      due := Rest(due, k);
    }

    /** An event was taken out, and then the one that followed it. Its links are loose, so that it can
        be taken out again, exactly if no event before it is left either. */
    lemma SuccessorGone(e: Event)
      requires Linked() && e.next != null && e.next !in events
      ensures Loose(e) <==> e.prev == null || e.prev !in events
    {
      if e.prev != null && e.prev in events {
        var k := PlaceOf(events, e.prev);
        assert events[k].next == Nexts(events)[k] == Nbr(events, k + 1);
      }
    }

    /** The first timer is run: its callback may leave its event alone, remove it, so that the event
        loop removes it a second time, or schedule it anew. Either way the event is in the list once
        or not at all, and the others stay. */
    method Fire(act: Outcome) returns (e: Event, ghost j: nat)
      requires Valid() && events != []
      modifies this, events
      ensures Valid() && e == old(events[0])
      ensures act.Reschedules? ==> j <= |Rest(old(events), 0)| && events == InsertAt(Rest(old(events), 0), j, e)
      ensures !act.Reschedules? ==> events == old(events)[1..]
    {
      e, j := head, 0;
      e.remove := true;
      match act {
        case Returns =>
        case RemovesIt => Remove(e, 0);
        case Reschedules(tr) => j := Resched(e, tr, 0);
      }
      if e.remove {
        Remove(e, if act.RemovesIt? then |events| else 0);
      }
    }

    /** The event the loop runs next is due less than half a millisecond after the earliest one. */
    method First() returns (e: Event?)
      requires Valid()
      ensures e == null <==> events == []
      ensures e != null ==> e in events
      ensures e != null ==> forall x :: x in events ==> e.time.Micros() < x.time.Micros() + 500
    {
      e := head;
      assert events != [] ==> due[0] == e.time.Micros();
    }
  }

  /** The links `l` with the one at place `i`, if there is one, replaced. */
  ghost function Put(l: seq<Event?>, i: int, x: Event?): (r: seq<Event?>)
    ensures |r| == |l| && forall j :: 0 <= j < |l| ==> r[j] == if j == i then x else l[j]
  {
    if 0 <= i < |l| then l[i := x] else l
  }

  lemma RestAt<T>(s: seq<T>, k: nat)
    requires k < |s|
    ensures |Rest(s, k)| == |s| - 1
    ensures forall i :: 0 <= i < |s| - 1 ==> Rest(s, k)[i] == s[if i < k then i else i + 1]
  {
  }

  lemma RestDistinct(s: seq<Event>, k: nat)
    requires Distinct(s)
    ensures Distinct(Rest(s, k)) && (k < |s| ==> s[k] !in Rest(s, k))
  {
    if k < |s| {
      RestAt(s, k);
    }
  }

  /** Without its `k`-th event, the list has the remaining links, the neighbours' excepted. */
  lemma RestLinks(s: seq<Event>, k: nat)
    requires k < |s|
    ensures Nexts(Rest(s, k)) == Rest(Put(Nexts(s), k - 1, Nexts(s)[k]), k)
    ensures Prevs(Rest(s, k)) == Rest(Put(Prevs(s), k + 1, Prevs(s)[k]), k)
  {
    var r, n, p := Rest(s, k), Put(Nexts(s), k - 1, Nexts(s)[k]), Put(Prevs(s), k + 1, Prevs(s)[k]);
    RestAt(s, k);
    RestAt(n, k);
    RestAt(p, k);
    forall i | 0 <= i < |r| ensures Nexts(r)[i] == Rest(n, k)[i] && Prevs(r)[i] == Rest(p, k)[i] {
      assert Nexts(r)[i] == Nbr(r, i + 1) && Prevs(r)[i] == Nbr(r, i - 1);
    }
  }

  lemma RestMirrors(s: seq<Event>, nexts: seq<Event?>, prevs: seq<Event?>, k: nat)
    requires Mirrors(s, nexts, prevs) && k < |s|
    ensures Mirrors(Rest(s, k), Rest(nexts, k), Rest(prevs, k))
  {
    RestAt(s, k);
    RestAt(nexts, k);
    RestAt(prevs, k);
  }

  lemma RestLinked(s: seq<Event>, e: Event, k: nat)
    requires Distinct(s) && k < |s| && s[k] == e
    requires Mirrors(s, Put(Nexts(s), k - 1, Nexts(s)[k]), Put(Prevs(s), k + 1, Prevs(s)[k]))
    ensures var r := Rest(s, k); Distinct(r) && Mirrors(r, Nexts(r), Prevs(r)) && e !in r
    ensures var r := Rest(s, k); e.next == Nbr(r, k) && e.prev == Nbr(r, k - 1)
  {
    RestAt(s, k);
    RestDistinct(s, k);
    RestLinks(s, k);
    RestMirrors(s, Put(Nexts(s), k - 1, Nexts(s)[k]), Put(Prevs(s), k + 1, Prevs(s)[k]), k);
  }

  lemma InsertAtAt<T>(s: seq<T>, k: nat, x: T)
    requires k <= |s|
    ensures |InsertAt(s, k, x)| == |s| + 1
    ensures forall i :: 0 <= i <= |s| ==> InsertAt(s, k, x)[i] == if i == k then x else s[if i < k then i else i - 1]
  {
  }

  /** With `e` before its `k`-th event, the list has the old links, the neighbours' excepted. */
  lemma InsertedLinks(s: seq<Event>, k: nat, e: Event)
    requires k <= |s|
    ensures Nexts(InsertAt(s, k, e)) == InsertAt(Put(Nexts(s), k - 1, e), k, Nbr(s, k))
    ensures Prevs(InsertAt(s, k, e)) == InsertAt(Put(Prevs(s), k, e), k, Nbr(s, k - 1))
  {
    var r, n, p := InsertAt(s, k, e), Put(Nexts(s), k - 1, e), Put(Prevs(s), k, e);
    InsertAtAt(s, k, e);
    InsertAtAt(n, k, Nbr(s, k));
    InsertAtAt(p, k, Nbr(s, k - 1));
    forall i | 0 <= i < |r|
      ensures Nexts(r)[i] == InsertAt(n, k, Nbr(s, k))[i] && Prevs(r)[i] == InsertAt(p, k, Nbr(s, k - 1))[i]
    {
      assert Nexts(r)[i] == Nbr(r, i + 1) && Prevs(r)[i] == Nbr(r, i - 1);
    }
  }

  lemma InsertedMirrors(s: seq<Event>, nexts: seq<Event?>, prevs: seq<Event?>, k: nat, e: Event)
    requires Mirrors(s, nexts, prevs) && k <= |s|
    ensures Mirrors(InsertAt(s, k, e), InsertAt(nexts, k, e.next), InsertAt(prevs, k, e.prev))
  {
    InsertAtAt(s, k, e);
    InsertAtAt(nexts, k, e.next);
    InsertAtAt(prevs, k, e.prev);
  }

  lemma InsertedLinked(s: seq<Event>, k: nat, e: Event)
    requires Distinct(s) && k <= |s| && e !in s && Mirrors(s, Put(Nexts(s), k - 1, e), Put(Prevs(s), k, e))
    requires e.next == Nbr(s, k) && e.prev == Nbr(s, k - 1)
    ensures var r := InsertAt(s, k, e); Distinct(r) && Mirrors(r, Nexts(r), Prevs(r))
  {
    InsertAtAt(s, k, e);
    InsertedLinks(s, k, e);
    InsertedMirrors(s, Put(Nexts(s), k - 1, e), Put(Prevs(s), k, e), k, e);
  }

  ghost function PlaceOf(s: seq<Event>, e: Event): (k: nat)
    requires e in s
    ensures k < |s| && s[k] == e
  {
    var k: nat :| k < |s| && s[k] == e; k
  }

  /** `k` is where a deadline `t` belongs: everything before it is due less than half a
      millisecond later, and the event at it half a millisecond later or more. */
  predicate Fits(ts: seq<int>, t: int, k: nat) {
    && k <= |ts| && (forall i :: 0 <= i < k ==> ts[i] < t + 500)
    && (k < |ts| ==> ts[k] >= t + 500)
  }

  lemma InsertSorted(ts: seq<int>, t: int, k: nat)
    requires AlmostSorted(ts) && Fits(ts, t, k)
    ensures AlmostSorted(InsertAt(ts, k, t))
  {
  }

  lemma InsertTimed(s: seq<Event>, due: seq<int>, e: Event, k: nat)
    requires Timed(s, due) && k <= |s|
    ensures Timed(InsertAt(s, k, e), InsertAt(due, k, e.time.Micros()))
  {
  }

  lemma RestTimed(s: seq<Event>, due: seq<int>, k: nat)
    requires Timed(s, due)
    ensures Timed(Rest(s, k), Rest(due, k))
  {
  }

  lemma RestSorted(ts: seq<int>, k: nat)
    requires AlmostSorted(ts)
    ensures AlmostSorted(Rest(ts, k))
  {
  }

  predicate Sorted(ts: seq<int>) { forall i, j :: 0 <= i < j < |ts| ==> ts[i] <= ts[j] }

  /** The list stays sorted outright exactly if nothing is due within the half millisecond after
      the new deadline, because such an event is passed by. */
  lemma SortedExactlyIf(ts: seq<int>, t: int, k: nat)
    requires Sorted(ts) && Fits(ts, t, k)
    ensures Sorted(InsertAt(ts, k, t)) <==> forall i :: 0 <= i < |ts| ==> !(t < ts[i] < t + 500)
  {
    var r := InsertAt(ts, k, t);
    if i :| 0 <= i < |ts| && t < ts[i] < t + 500 {
      assert i < k && r[i] == ts[i] && r[k] == t;
    } else {
      assert forall i :: 0 <= i < |r| ==> r[i] == if i < k then ts[i] else if i == k then t else ts[i - 1];
    }
  }
}
