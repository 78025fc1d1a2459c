/** The cycle scheduler (scheduler.go): a sorted array with a dead prefix, insertion by shifting and
    lazy compaction. It is proved to do what the unordered agenda does. */
module Scheduler {
  import opened Words
  import opened Calendar

  datatype Event = Event(at: u64, fn: nat)

  /** One AdvanceCycles notification. */
  datatype Tick = Tick(delta: u64, now: u64)

  /** The latest of the start and the stops. */
  function Reached(from: u64, stops: seq<u64>): (t: u64)
    ensures t >= from
  {
    if |stops| == 0 then from else Max(Reached(from, stops[..|stops| - 1]), stops[|stops| - 1])
  }

  /** The notifications of a clock that starts at `from` and visits the stops not yet passed. */
  function Ticks(from: u64, stops: seq<u64>): seq<Tick> {
    if |stops| == 0 then []
    else
      var at := Reached(from, stops[..|stops| - 1]);
      var stop := stops[|stops| - 1];
      Ticks(from, stops[..|stops| - 1]) + if stop > at then [Tick(stop - at, stop)] else []
  }

  function Elapsed(ticks: seq<Tick>): nat {
    if |ticks| == 0 then 0 else Elapsed(ticks[..|ticks| - 1]) + ticks[|ticks| - 1].delta
  }

  /** A listener's deltas add up to the time that passed; none is zero. */
  lemma {:induction false} TicksAddUp(from: u64, stops: seq<u64>)
    ensures Elapsed(Ticks(from, stops)) == Reached(from, stops) - from
    ensures forall i :: 0 <= i < |Ticks(from, stops)| ==> Ticks(from, stops)[i].delta > 0
    decreases |stops|
  {
    if |stops| > 0 {
      var before, after := Ticks(from, stops[..|stops| - 1]), Ticks(from, stops);
      TicksAddUp(from, stops[..|stops| - 1]);
      if |after| > |before| {
        assert after[..|after| - 1] == before;
      } else {
        assert after == before;
      }
    }
  }

  /** Each tick carries the time the clock has reached by then. */
  lemma {:induction false} TicksTellTime(from: u64, stops: seq<u64>, i: nat)
    requires i < |Ticks(from, stops)|
    ensures Ticks(from, stops)[i].now == from + Elapsed(Ticks(from, stops)[..i + 1])
    decreases |stops|
  {
    if |stops| > 0 {
      var before, after := Ticks(from, stops[..|stops| - 1]), Ticks(from, stops);
      TicksAddUp(from, stops);
      if i < |before| {
        TicksTellTime(from, stops[..|stops| - 1], i);
        assert after[..i + 1] == before[..i + 1];
      } else {
        assert after[..i + 1] == after;
      }
    }
  }

  lemma {:induction false} ElapsedJoined(s: seq<Tick>, t: seq<Tick>)
    ensures Elapsed(s + t) == Elapsed(s) + Elapsed(t)
    decreases |t|
  {
    if |t| == 0 {
      assert s + t == s;
    } else {
      assert (s + t)[..|s + t| - 1] == s + t[..|t| - 1];
      ElapsedJoined(s, t[..|t| - 1]);
    }
  }

  /** The deadlines of the firings from number k on. */
  function Deadlines(fired: seq<Fired>, k: nat): seq<u64>
    requires k <= |fired|
  {
    seq<u64>(|fired| - k, i requires 0 <= i < |fired| - k => fired[k + i].entry.at)
  }

  /** Every listener has received the same further ticks. */
  ghost predicate Notified(before: seq<seq<Tick>>, after: seq<seq<Tick>>, ticks: seq<Tick>) {
    |after| == |before| && forall i :: 0 <= i < |before| ==> after[i] == before[i] + ticks
  }

  lemma NotifiedTwice(a: seq<seq<Tick>>, b: seq<seq<Tick>>, c: seq<seq<Tick>>, s: seq<Tick>, t: seq<Tick>)
    requires Notified(a, b, s) && Notified(b, c, t)
    ensures Notified(a, c, s + t)
  {
    forall i | 0 <= i < |a| ensures c[i] == a[i] + (s + t) {
      assert b[i] == a[i] + s && c[i] == b[i] + t;
    }
  }

  ghost predicate SortedEntries(entries: seq<Entry>) {
    forall i, j :: 0 <= i < j < |entries| ==> Before(entries[i], entries[j])
  }

  ghost function Elements(entries: seq<Entry>): set<Entry> {
    set e | e in entries
  }

  /** events[head..] with the stamps left out. */
  ghost predicate Mirrors(entries: seq<Entry>, events: seq<Event>, head: nat) {
    && head + |entries| == |events|
    && forall i :: 0 <= i < |entries| ==> events[head + i] == Event(entries[i].at, entries[i].fn)
  }

  lemma HeadIsLeast(entries: seq<Entry>)
    requires SortedEntries(entries) && |entries| > 0
    ensures IsLeast(Elements(entries), entries[0])
  {
  }

  lemma LeastUnique(s: set<Entry>, e: Entry, f: Entry)
    requires IsLeast(s, e) && IsLeast(s, f)
    ensures e == f
  {
  }

  lemma TailOf(entries: seq<Entry>)
    requires SortedEntries(entries) && |entries| > 0
    ensures SortedEntries(entries[1..]) && Elements(entries[1..]) == Elements(entries) - {entries[0]}
  {
    var e := entries[0];
    forall x ensures x in entries[1..] <==> x in entries && x != e {
      if x in entries && x != e {
        var i :| 0 <= i < |entries| && entries[i] == x;
        assert entries[1..][i - 1] == x;
      }
    }
  }

  /** An entry with a fresh stamp goes after everything due no later than itself. */
  lemma Inserted(entries: seq<Entry>, k: nat, e: Entry)
    requires SortedEntries(entries) && k <= |entries|
    requires forall i :: 0 <= i < |entries| ==> entries[i].stamp < e.stamp
    requires forall i :: k <= i < |entries| ==> entries[i].at > e.at
    requires k > 0 ==> entries[k - 1].at <= e.at
    ensures var r := entries[..k] + [e] + entries[k..];
            SortedEntries(r) && Elements(r) == Elements(entries) + {e}
  {
    var r := entries[..k] + [e] + entries[k..];
    assert forall i :: 0 <= i < k ==> i == k - 1 || Before(entries[i], entries[k - 1]);
    assert forall i :: 0 <= i < |r| ==> r[i] == if i < k then entries[i] else if i == k then e else entries[i - 1];
    SameElements(entries, k, e);
    hide Elements;
  }

  lemma SameElements(entries: seq<Entry>, k: nat, e: Entry)
    requires k <= |entries|
    ensures Elements(entries[..k] + [e] + entries[k..]) == Elements(entries) + {e}
  {
    assert entries == entries[..k] + entries[k..];
  }

  /** The array after the insertion mirrors the entries with the new one among them. */
  lemma ShiftedIn(entries: seq<Entry>, was: seq<Event>, events: seq<Event>, head: nat, index: nat, e: Entry)
    requires Mirrors(entries, was, head) && SortedEntries(entries) && head <= index <= |was|
    requires forall i :: 0 <= i < |entries| ==> entries[i].stamp < e.stamp
    requires forall j :: index <= j < |was| ==> was[j].at > e.at
    requires index > head ==> was[index - 1].at <= e.at
    requires events == was[..index] + [Event(e.at, e.fn)] + was[index..]
    ensures var r := entries[..index - head] + [e] + entries[index - head..];
            Mirrors(r, events, head) && SortedEntries(r) && Elements(r) == Elements(entries) + {e}
  {
    var k := index - head;
    forall i | k <= i < |entries| ensures entries[i].at > e.at {
      assert was[head + i].at > e.at;
    }
    Inserted(entries, k, e);
    hide SortedEntries, Elements;
    var r := entries[..k] + [e] + entries[k..];
    forall i | 0 <= i < |r| ensures events[head + i] == Event(r[i].at, r[i].fn) {
      if i < k {
        assert events[head + i] == was[head + i];
      } else if i > k {
        assert events[head + i] == was[head + (i - 1)];
      }
    }
  }

  /** What was at index or later, all of it due after `at`, has moved up by one. */
  ghost predicate Shifted(events: seq<Event>, was: seq<Event>, index: nat, at: u64) {
    && |events| == |was| + 1 && index <= |was|
    && (forall j :: 0 <= j < index ==> events[j] == was[j])
    && (forall j :: index < j <= |was| ==> events[j] == was[j - 1])
    && (forall j :: index <= j < |was| ==> was[j].at > at)
  }

  lemma NothingShifted(was: seq<Event>, e: Event)
    ensures Shifted(was + [e], was, |was|, e.at) && |was + [e]| == |was| + 1
  {
  }

  lemma ShiftOne(events: seq<Event>, was: seq<Event>, index: nat, at: u64)
    requires Shifted(events, was, index, at) && 0 < index < |events| && events[index - 1].at > at
    ensures Shifted(events[index := events[index - 1]], was, index - 1, at)
    ensures |events| == |was| + 1
  {
  }

  lemma ShiftedWhole(events: seq<Event>, was: seq<Event>, index: nat, e: Event)
    requires Shifted(events, was, index, e.at)
    ensures index < |events| && events[index := e] == was[..index] + [e] + was[index..]
    ensures forall j :: index <= j < |was| ==> was[j].at > e.at
    ensures index > 0 ==> was[index - 1] == events[index - 1]
  {
  }

  lemma FreshStamp(entries: seq<Entry>, a: Agenda)
    requires a.pending == Elements(entries) && Calendar.Valid(a)
    ensures forall i :: 0 <= i < |entries| ==> entries[i].stamp < a.next
  {
    assert forall i :: 0 <= i < |entries| ==> entries[i] in Elements(entries);
  }

  lemma MirrorLength(entries: seq<Entry>, events: seq<Event>, head: nat)
    requires Mirrors(entries, events, head)
    ensures head + |entries| == |events|
    ensures |entries| > 0 ==> events[head] == Event(entries[0].at, entries[0].fn)
  {
  }

  lemma MirrorTail(entries: seq<Entry>, events: seq<Event>, head: nat)
    requires Mirrors(entries, events, head) && |entries| > 0
    ensures Mirrors(entries[1..], events, head + 1)
  {
    forall i | 0 <= i < |entries| - 1 ensures events[head + 1 + i] == Event(entries[1..][i].at, entries[1..][i].fn) {
      assert events[head + (i + 1)] == Event(entries[i + 1].at, entries[i + 1].fn);
    }
  }

  lemma NoneDue(a: Agenda, entries: seq<Entry>, target: u64)
    requires a.pending == Elements(entries) && SortedEntries(entries) && (|entries| > 0 ==> entries[0].at > target)
    ensures Idle(a, target)
  {
  }

  lemma NoTick(listeners: seq<seq<Tick>>, now: u64, stop: u64)
    requires stop <= now
    ensures Notified(listeners, listeners, Ticks(now, [stop]))
  {
    assert [stop][..0] == [];
  }

  lemma OneMoreCall(fired: seq<Fired>, f: Fired)
    ensures Calls(fired + [f]) == Calls(fired) + [Call(f.entry.fn, f.now)]
  {
  }

  lemma NoActs(a: Agenda, acts: seq<Action>)
    ensures ActAll(a, acts[..0]) == a
  {
  }

  lemma OneMoreAct(a: Agenda, acts: seq<Action>, i: nat)
    requires i < |acts|
    ensures var s := ActAll(a, acts[..i]);
            ActAll(a, acts[..i + 1]) ==
            s.(pending := s.pending + {Entry(Deadline(acts[i], s.now), acts[i].fn, s.next)}, next := s.next + 1)
  {
    assert acts[..i + 1][..i] == acts[..i];
  }

  lemma DeadlineOf(act: Action, now: u64)
    ensures Deadline(act, now) == match act case At(at, _) => at case After(delta, _) => Wrap64(now + delta)
  {
  }

  /** The ticks of one Advance: a stop at every deadline reached, and at the target. */
  function AdvanceTicks(a: Agenda, r: Agenda, delta: u64): seq<Tick>
    requires |a.fired| <= |r.fired|
  {
    if delta == 0 then [] else Ticks(a.now, Deadlines(r.fired, |a.fired|) + [Wrap64(a.now + delta)])
  }

  /** The stops of some firings take a clock exactly where the firings took the agenda. */
  lemma {:induction false} StopsFollowClock(a: Agenda, r: Agenda, target: u64, n: nat)
    requires Timeline(a, r, target) && n <= |r.fired| - |a.fired|
    ensures Reached(a.now, Deadlines(r.fired, |a.fired|)[..n]) ==
            if n == 0 then a.now else r.fired[|a.fired| + n - 1].now
    decreases n
  {
    hide Reached, Deadlines, Timeline;
    var stops := Deadlines(r.fired, |a.fired|);
    FiringStops(r.fired, |a.fired|);
    if n == 0 {
      NoStops(a.now, stops);
    } else {
      StopsFollowClock(a, r, target, n - 1);
      TimelineAt(a, r, target, |a.fired| + n - 1);
      assert stops[..n] == stops[..n - 1] + [stops[n - 1]];
      NextStop(a.now, stops[..n - 1], stops[n - 1]);
    }
  }

  lemma NoStops(from: u64, stops: seq<u64>)
    ensures Reached(from, stops[..0]) == from
  {
  }

  lemma TimelineAt(a: Agenda, r: Agenda, target: u64, i: nat)
    requires Timeline(a, r, target) && |a.fired| <= i < |r.fired|
    ensures r.fired[i].now == Max(TimeBefore(a, r, i), r.fired[i].entry.at)
  {
  }

  /** What every listener is told in one Advance adds up to the time requested, or to nothing when
      the target wraps beyond 2^64; the clock has moved by as much. */
  lemma DeltasAddUp(b: Behaviour, a: Agenda, delta: u64, fuel: nat)
    requires Calendar.Valid(a) && (delta > 0 ==> Settles(b, a, Wrap64(a.now + delta), fuel))
    ensures var r := Calendar.Advance(b, a, delta, fuel);
            |a.fired| <= |r.fired| && r.now == a.now + Elapsed(AdvanceTicks(a, r, delta)) &&
            Elapsed(AdvanceTicks(a, r, delta)) == if a.now + delta < 0x1_0000_0000_0000_0000 then delta else 0
  {
    hide Calendar.Valid, Settles, Drain, Timeline, WasFired, Idle, Ticks, Reached, Deadlines;
    var r := Calendar.Advance(b, a, delta, fuel);
    if delta > 0 {
      var target := Wrap64(a.now + delta);
      AdvanceMeaning(b, a, delta, fuel);
      DrainMeaning(b, a, target, fuel);
      var d := Drain(b, a, target, fuel);
      var stops := Deadlines(r.fired, |a.fired|);
      FiringStops(r.fired, |a.fired|);
      StopsFollowClock(a, r, target, |stops|);
      assert stops[..|stops|] == stops;
      NextStop(a.now, stops, target);
      TicksAddUp(a.now, stops + [target]);
    }
  }

  /** A stop that moves the clock is heard, with how far it moved it and where to. */
  lemma {:induction false} StopHeard(from: u64, stops: seq<u64>, n: nat)
    requires n < |stops| && stops[n] > Reached(from, stops[..n])
    ensures Tick(stops[n] - Reached(from, stops[..n]), stops[n]) in Ticks(from, stops)
    decreases |stops|
  {
    if n < |stops| - 1 {
      var fewer := stops[..|stops| - 1];
      assert fewer[n] == stops[n] && fewer[..n] == stops[..n];
      StopHeard(from, fewer, n);
    }
  }

  /** Whenever a firing moves the clock every listener is told, before the callback runs at that time. */
  lemma FiringHeard(b: Behaviour, a: Agenda, delta: u64, fuel: nat, i: nat)
    requires Calendar.Valid(a) && delta > 0 && Settles(b, a, Wrap64(a.now + delta), fuel)
    requires |a.fired| <= i < |Calendar.Advance(b, a, delta, fuel).fired|
    ensures var r := Calendar.Advance(b, a, delta, fuel);
            r.fired[i].now > TimeBefore(a, r, i) ==>
              Tick(r.fired[i].now - TimeBefore(a, r, i), r.fired[i].now) in AdvanceTicks(a, r, delta)
  {
    hide Calendar.Valid, Settles, Drain, Timeline, WasFired, Idle, Ticks, Reached, Deadlines;
    var target := Wrap64(a.now + delta);
    AdvanceMeaning(b, a, delta, fuel);
    var r := Calendar.Advance(b, a, delta, fuel);
    hide Calendar.Advance;
    var stops, n := Deadlines(r.fired, |a.fired|), i - |a.fired|;
    FiringStops(r.fired, |a.fired|);
    StopsFollowClock(a, r, target, n);
    TimelineAt(a, r, target, i);
    assert (stops + [target])[..n] == stops[..n];
    if r.fired[i].now > TimeBefore(a, r, i) { StopHeard(a.now, stops + [target], n); }
  }

  /** So for listeners told as Advance tells them: each one's deltas add up to delta. */
  lemma ListenersAddUp(b: Behaviour, a: Agenda, delta: u64, fuel: nat, before: seq<seq<Tick>>, after: seq<seq<Tick>>,
                       i: nat)
    requires Calendar.Valid(a) && (delta > 0 ==> Settles(b, a, Wrap64(a.now + delta), fuel)) && i < |before|
    requires |a.fired| <= |Calendar.Advance(b, a, delta, fuel).fired|
    requires Notified(before, after, AdvanceTicks(a, Calendar.Advance(b, a, delta, fuel), delta))
    ensures Elapsed(after[i]) == Elapsed(before[i]) + if a.now + delta < 0x1_0000_0000_0000_0000 then delta else 0
  {
    hide Calendar.Valid, Settles, Calendar.Advance, AdvanceTicks, Elapsed;
    DeltasAddUp(b, a, delta, fuel);
    ElapsedJoined(before[i], AdvanceTicks(a, Calendar.Advance(b, a, delta, fuel), delta));
  }

  lemma FiringStops(fired: seq<Fired>, k: nat)
    requires k <= |fired|
    ensures |Deadlines(fired, k)| == |fired| - k
    ensures forall i :: 0 <= i < |fired| - k ==> Deadlines(fired, k)[i] == fired[k + i].entry.at
  {
  }

  /** The clock and the listeners some firings after `start`. */
  ghost predicate Heard(start: Agenda, before: seq<seq<Tick>>, a: Agenda, after: seq<seq<Tick>>)
    requires |start.fired| <= |a.fired|
  {
    var stops := Deadlines(a.fired, |start.fired|);
    a.now == Reached(start.now, stops) && Notified(before, after, Ticks(start.now, stops))
  }

  lemma NothingHeard(listeners: seq<seq<Tick>>)
    ensures Notified(listeners, listeners, [])
  {
  }

  lemma StartsHere(a: Agenda, listeners: seq<seq<Tick>>)
    ensures Heard(a, listeners, a, listeners)
  {
    assert Deadlines(a.fired, |a.fired|) == [];
    NothingHeard(listeners);
  }

  /** One more stop, whether or not it moves the clock. */
  lemma NextStop(from: u64, stops: seq<u64>, stop: u64)
    ensures Ticks(from, stops + [stop]) == Ticks(from, stops) + Ticks(Reached(from, stops), [stop])
    ensures Reached(from, stops + [stop]) == Max(Reached(from, stops), stop)
  {
    assert (stops + [stop])[..|stops|] == stops;
    assert [stop][..0] == [];
  }

  lemma OneMoreStop(b: Behaviour, start: Agenda, a: Agenda, e: Entry, l0: seq<seq<Tick>>, l1: seq<seq<Tick>>,
                    l2: seq<seq<Tick>>)
    requires Calendar.Valid(a) && IsLeast(a.pending, e) && start.fired <= a.fired
    requires Heard(start, l0, a, l1) && Notified(l1, l2, Ticks(a.now, [e.at]))
    ensures start.fired <= Fire(b, a, e).fired && Heard(start, l0, Fire(b, a, e), l2)
  {
    hide Fire, Calendar.Valid, Ticks, Notified;
    FireKeepsValid(b, a, e);
    var c := Fire(b, a, e);
    var stops := Deadlines(a.fired, |start.fired|);
    assert Deadlines(c.fired, |start.fired|) == stops + [e.at];
    NextStop(start.now, stops, e.at);
    NotifiedTwice(l0, l1, l2, Ticks(start.now, stops), Ticks(a.now, [e.at]));
  }

  lemma LastStop(start: Agenda, a: Agenda, target: u64, l0: seq<seq<Tick>>, l1: seq<seq<Tick>>, l2: seq<seq<Tick>>)
    requires start.fired <= a.fired && Heard(start, l0, a, l1) && Notified(l1, l2, Ticks(a.now, [target]))
    ensures Notified(l0, l2, Ticks(start.now, Deadlines(a.fired, |start.fired|) + [target]))
  {
    hide Ticks, Notified;
    var stops := Deadlines(a.fired, |start.fired|);
    NextStop(start.now, stops, target);
    NotifiedTwice(l0, l1, l2, Ticks(start.now, stops), Ticks(a.now, [target]));
  }

  /** Draining goes on by the head of the queue while that is due. */
  lemma Unsettled(b: Behaviour, a: Agenda, entries: seq<Entry>, target: u64, fuel: nat)
    requires Calendar.Valid(a) && Settles(b, a, target, fuel) && a.pending == Elements(entries)
    requires SortedEntries(entries) && |entries| > 0 && entries[0].at <= target
    ensures fuel > 0 && IsLeast(a.pending, entries[0]) && Calendar.Valid(Fire(b, a, entries[0]))
    ensures Settles(b, Fire(b, a, entries[0]), target, fuel - 1)
    ensures Drain(b, a, target, fuel) == Drain(b, Fire(b, a, entries[0]), target, fuel - 1)
  {
    HeadIsLeast(entries);
    ValidStamps(a);
    LeastUnique(a.pending, entries[0], Least(a.pending));
    FireKeepsValid(b, a, entries[0]);
    hide Fire, Calendar.Valid, SortedEntries;
    assert !Idle(a, target);
    hide Idle;
  }

  lemma Settled(b: Behaviour, a: Agenda, target: u64, fuel: nat)
    requires Calendar.Valid(a) && Settles(b, a, target, fuel) && Idle(a, target)
    ensures Drain(b, a, target, fuel) == a
  {
  }

  class CycleScheduler {
    var now: u64
    var events: seq<Event>
    var eventHead: nat
    var listeners: seq<seq<Tick>>   // what each listener has been told
    var calls: seq<Call>            // the callbacks run since the last reset
    ghost var entries: seq<Entry>   // events[eventHead..], stamped
    ghost var next: nat
    ghost var fired: seq<Fired>
    ghost var moved: nat            // elements copied by compaction since the last reset

    /** The agenda the array stands for. */
    ghost function Abs(): Agenda
      reads this
    {
      Agenda(now, Elements(entries), next, fired)
    }

    /** What holds whenever a callback may run: the live part is the pending set in firing order,
        and copying has been paid for by firings. */
    ghost predicate Consistent()
      reads this
    {
      && Mirrors(entries, events, eventHead) && SortedEntries(entries)
      && calls == Calls(fired)
      && Calendar.Valid(Abs())
      && moved + 2 * eventHead <= 2 * |fired|
    }

    /** The dead prefix is empty or shorter than the live part. */
    predicate Compact()
      reads this
    {
      eventHead == 0 || 2 * eventHead < |events|
    }

    ghost predicate Valid()
      reads this
    {
      Consistent() && Compact()
    }

    constructor ()
      ensures Valid() && Abs() == Agenda(0, {}, 0, []) && listeners == [] && moved == 0
    {
      now, events, eventHead, listeners, calls := 0, [], 0, [], [];
      entries, next, fired, moved := [], 0, [], 0;
    }

    method Reset(now: u64)
      requires Valid()
      modifies this
      ensures Valid() && Abs() == Agenda(now, {}, 0, []) && listeners == old(listeners) && moved == 0
    {
      this.now := now;
      events := [];
      eventHead := 0;
      calls := [];
      entries, next, fired, moved := [], 0, [], 0;
    }

    method AddListener()
      requires Valid()
      modifies `listeners
      ensures Valid() && Abs() == old(Abs()) && listeners == old(listeners) + [[]]
    {
      listeners := listeners + [[]];
    }

    /** The array part of Schedule: append, and shift until the event stands after all that is due
        no later than itself. */
    method Insert(at: u64, fn: nat) returns (index: nat)
      requires eventHead <= |events|
      modifies `events
      ensures eventHead <= index <= old(|events|)
      ensures events == old(events)[..index] + [Event(at, fn)] + old(events)[index..]
      ensures forall j :: index <= j < old(|events|) ==> old(events)[j].at > at
      ensures index > eventHead ==> old(events)[index - 1].at <= at
    {
      hide Shifted;
      ghost var was := events;
      index := |events|;
      events := events + [Event(at, fn)];
      NothingShifted(was, Event(at, fn));
      while index > eventHead && events[index - 1].at > at
        invariant |events| == |was| + 1 && eventHead <= index <= |was| && Shifted(events, was, index, at)
      {
        ShiftOne(events, was, index, at);
        events := events[index := events[index - 1]];
        index := index - 1;
      }
      ShiftedWhole(events, was, index, Event(at, fn));
      events := events[index := Event(at, fn)];
    }

    method Schedule(at: u64, fn: nat)
      requires Consistent()
      modifies `events, `entries, `next
      ensures Consistent() && (old(Compact()) ==> Compact())
      ensures Abs() == Agenda(old(now), old(Abs()).pending + {Entry(at, fn, old(next))}, old(next) + 1, old(fired))
    {
      hide Calendar.Valid, SortedEntries, Elements, Mirrors;
      ghost var was := events;
      AddKeepsValid(Abs(), at, fn);
      FreshStamp(entries, Abs());
      MirrorLength(entries, events, eventHead);
      var index := Insert(at, fn);
      ShiftedIn(entries, was, events, eventHead, index, Entry(at, fn, next));
      entries := entries[..index - eventHead] + [Entry(at, fn, next)] + entries[index - eventHead..];
      next := next + 1;
    }

    method ScheduleAfter(delta: u64, fn: nat)
      requires Consistent()
      modifies `events, `entries, `next
      ensures Consistent() && (old(Compact()) ==> Compact())
      ensures var e := Entry(Wrap64(old(now) + delta), fn, old(next));
              Abs() == Agenda(old(now), old(Abs()).pending + {e}, old(next) + 1, old(fired))
    {
      Schedule(Wrap64(now + delta), fn);
    }

    method AdvanceTo(target: u64)
      modifies `now, `listeners
      ensures now == Max(old(now), target)
      ensures Notified(old(listeners), listeners, Ticks(old(now), [target]))
      ensures |listeners| == |old(listeners)| && forall i :: 0 <= i < |listeners| ==>
                listeners[i] == old(listeners)[i] + if target > old(now) then [Tick(target - old(now), target)] else []
    {
      assert [target][..0] == [];
      if target <= now {
        return;
      }
      var delta := target - now;
      now := target;
      ghost var before := listeners;
      for i := 0 to |listeners|
        invariant |listeners| == |before| && now == target
        invariant forall j :: 0 <= j < i ==> listeners[j] == before[j] + [Tick(delta, target)]
        invariant forall j :: i <= j < |before| ==> listeners[j] == before[j]
      {
        listeners := listeners[i := listeners[i] + [Tick(delta, now)]];
      }
    }

    /** event.Fn(s.now): the callback schedules what it likes. */
    method RunCallback(b: Behaviour)
      requires Consistent()
      modifies `events, `entries, `next
      ensures Consistent() && Abs() == ActAll(old(Abs()), b(calls))
    {
      hide *;
      var acts := b(calls);
      NoActs(Abs(), acts);
      for i := 0 to |acts|
        invariant Consistent() && Abs() == ActAll(old(Abs()), acts[..i])
      {
        OneMoreAct(old(Abs()), acts, i);
        DeadlineOf(acts[i], now);
        AgendaParts();
        match acts[i] {
          case At(at, fn) => Schedule(at, fn);
          case After(delta, fn) => ScheduleAfter(delta, fn);
        }
      }
      assert acts[..|acts|] == acts;
    }

    lemma AgendaParts()
      ensures Abs().now == now && Abs().next == next && Abs().fired == fired
    {
    }

    /** Everything one round of the loop does before the callback runs. */
    method TakeHead()
      requires Consistent() && eventHead < |events|
      modifies this
      ensures Consistent() && moved == old(moved)
      ensures IsLeast(old(Abs()).pending, old(entries[0])) && Abs() == Calendar.Pop(old(Abs()), old(entries[0]))
      ensures Notified(old(listeners), listeners, Ticks(old(now), [old(entries[0]).at]))
    {
      ghost var e := entries[0];
      MirrorLength(entries, events, eventHead);
      HeadIsLeast(entries);
      PopKeepsValid(Abs(), e);
      TailOf(entries);
      MirrorTail(entries, events, eventHead);
      OneMoreCall(fired, Fired(e, Max(now, e.at), next));
      hide Calendar.Valid, SortedEntries, Elements, Mirrors, IsLeast, Notified, Ticks, Calls;
      var event := events[eventHead];
      if event.at > now {
        AdvanceTo(event.at);
      } else {
        NoTick(listeners, now, event.at);
      }
      eventHead := eventHead + 1;
      calls := calls + [Call(event.fn, now)];
      entries, fired := entries[1..], fired + [Fired(e, now, next)];
    }

    /** One round of the loop in Advance. */
    method FireHead(b: Behaviour)
      requires Consistent() && eventHead < |events|
      modifies this
      ensures Consistent() && moved == old(moved)
      ensures IsLeast(old(Abs()).pending, old(entries[0])) && Abs() == Calendar.Fire(b, old(Abs()), old(entries[0]))
      ensures Notified(old(listeners), listeners, Ticks(old(now), [old(entries[0]).at]))
    {
      hide Calendar.Valid, SortedEntries, Elements, Mirrors, IsLeast, Notified, Ticks;
      TakeHead();
      RunCallback(b);
    }

    /** Fires what is due, lets the remaining time pass, compacts. Listeners hear of every stop once
        (ListenersAddUp sums what they hear). */
    method Advance(b: Behaviour, delta: u64, ghost fuel: nat)
      requires Valid()
      requires delta > 0 ==> Settles(b, Abs(), Wrap64(now + delta), fuel)
      modifies this
      ensures Valid() && Abs() == Calendar.Advance(b, old(Abs()), delta, fuel) && old(fired) <= fired
      ensures Notified(old(listeners), listeners, AdvanceTicks(old(Abs()), Abs(), delta))
    {
      hide Calendar.Valid, SortedEntries, Elements, Mirrors, IsLeast, Notified, Ticks, Reached, Settles, Drain;
      if delta == 0 {
        NothingHeard(listeners);
        return;
      }
      var target := Wrap64(now + delta);
      ghost var left := fuel;
      ghost var start := Abs();
      StartsHere(start, listeners);
      while eventHead < |events| && events[eventHead].at <= target
        invariant Consistent() && Settles(b, Abs(), target, left)
        invariant Drain(b, Abs(), target, left) == Drain(b, start, target, fuel)
        invariant start.fired <= fired && Heard(start, old(listeners), Abs(), listeners)
        decreases left
      {
        MirrorLength(entries, events, eventHead);
        Unsettled(b, Abs(), entries, target, left);
        ghost var before, e, told := Abs(), entries[0], listeners;
        FireHead(b);
        OneMoreStop(b, start, before, e, old(listeners), told, listeners);
        left := left - 1;
      }
      MirrorLength(entries, events, eventHead);
      NoneDue(Abs(), entries, target);
      Settled(b, Abs(), target, left);
      ghost var before, told := Abs(), listeners;
      TimePasses(Abs(), Max(now, target));
      if now < target {
        AdvanceTo(target);
      } else {
        NoTick(listeners, now, target);
      }
      LastStop(start, before, target, old(listeners), told, listeners);
      CompactEvents();
    }

    method CompactEvents()
      requires Consistent()
      modifies `events, `eventHead, `moved
      ensures Valid() && Abs() == old(Abs()) && entries == old(entries)
      ensures moved == old(moved) +
                if 0 < old(eventHead) < old(|events|) <= 2 * old(eventHead) + 1 then |entries| else 0
    {
      if eventHead == 0 {
        return;
      }
      if eventHead == |events| {
        events := [];
        eventHead := 0;
        return;
      }
      if eventHead < |events| / 2 {
        return;
      }
      moved := moved + |events| - eventHead;
      events := events[eventHead..];
      eventHead := 0;
    }
  }
}
