/** What the cycle scheduler does, told without its array: an unordered set of pending entries from
    which the earliest is fired, callbacks adding entries as they run (scheduler.go). */
module Calendar {
  import opened Words

  /** A callback is known by a number; `stamp` counts the calls of Schedule since the last reset. */
  datatype Entry = Entry(at: u64, fn: nat, stamp: nat)

  /** One callback run at `now`; `mark` is the number of entries scheduled before it ran. */
  datatype Fired = Fired(entry: Entry, now: u64, mark: nat)

  /** What a callback may do: schedule more events. */
  datatype Action = At(at: u64, fn: nat) | After(delta: u64, fn: nat)

  datatype Call = Call(fn: nat, now: u64)

  /** Callbacks with any memory: what one does may depend on everything that ran up to it. */
  type Behaviour = seq<Call> -> seq<Action>

  datatype Agenda = Agenda(now: u64, pending: set<Entry>, next: nat, fired: seq<Fired>)

  /** Earlier deadline first, then earlier scheduling. */
  predicate Before(a: Entry, b: Entry) {
    a.at < b.at || (a.at == b.at && a.stamp < b.stamp)
  }

  ghost predicate IsLeast(s: set<Entry>, e: Entry) {
    e in s && forall f :: f in s ==> f == e || Before(e, f)
  }

  ghost predicate DistinctStamps(s: set<Entry>) {
    forall e, f :: e in s && f in s && e.stamp == f.stamp ==> e == f
  }

  lemma {:induction false} LeastExists(s: set<Entry>)
    requires s != {} && DistinctStamps(s)
    ensures exists e :: IsLeast(s, e)
    decreases |s|
  {
    var x :| x in s;
    var rest := s - {x};
    assert forall f :: f in s ==> f == x || f in rest;
    if rest == {} {
      assert IsLeast(s, x);
    } else {
      LeastExists(rest);
      var y :| IsLeast(rest, y);
      var least := if Before(x, y) then x else y;
      assert IsLeast(s, least);
    }
  }

  /** The entry to fire next. */
  ghost function Least(s: set<Entry>): (e: Entry)
    requires s != {} && DistinctStamps(s)
    ensures IsLeast(s, e)
  {
    LeastExists(s);
    var e :| IsLeast(s, e);
    e
  }

  function Calls(fired: seq<Fired>): (c: seq<Call>)
    ensures |c| == |fired|
  {
    seq(|fired|, i requires 0 <= i < |fired| => Call(fired[i].entry.fn, fired[i].now))
  }

  function Max(a: u64, b: u64): u64 { if a > b then a else b }

  /** Schedule */
  function Add(a: Agenda, at: u64, fn: nat): Agenda {
    a.(pending := a.pending + {Entry(at, fn, a.next)}, next := a.next + 1)
  }

  function Act(a: Agenda, act: Action): Agenda {
    match act
    case At(at, fn) => Add(a, at, fn)
    case After(delta, fn) => Add(a, Wrap64(a.now + delta), fn)
  }

  function ActAll(a: Agenda, acts: seq<Action>): Agenda {
    if |acts| == 0 then a else Act(ActAll(a, acts[..|acts| - 1]), acts[|acts| - 1])
  }

  /** Fires entry e: time moves to its deadline unless that has passed; the callback runs last. */
  ghost function Fire(b: Behaviour, a: Agenda, e: Entry): Agenda
    requires e in a.pending
  {
    var popped := Pop(a, e);
    ActAll(popped, b(Calls(popped.fired)))
  }

  ghost predicate Idle(a: Agenda, target: u64) {
    forall e :: e in a.pending ==> e.at > target
  }

  /** Everything scheduled since the last reset is either pending or was fired once; nothing fired
      before something that was already pending and earlier; time never ran backwards and every
      callback ran at its deadline or, if that had passed, at the time then current. */
  ghost predicate Valid(a: Agenda) {
    Distinct(a) && Accounted(a) && InOrder(a) && OnTime(a)
  }

  /** No stamp occurs twice. */
  ghost predicate Distinct(a: Agenda) {
    && DistinctStamps(a.pending)
    && (forall e :: e in a.pending ==> e.stamp < a.next)
    && (forall i :: 0 <= i < |a.fired| ==> a.fired[i].entry.stamp < a.fired[i].mark <= a.next)
    && (forall e, i :: e in a.pending && 0 <= i < |a.fired| ==> e.stamp != a.fired[i].entry.stamp)
    && (forall i, j :: 0 <= i < j < |a.fired| ==> a.fired[i].entry.stamp != a.fired[j].entry.stamp)
  }

  /** No stamp is missing. */
  ghost predicate Accounted(a: Agenda) {
    forall s: nat :: s < a.next ==> HasStamp(a, s)
  }

  /** Nothing was fired before something earlier that had been scheduled by then. */
  ghost predicate InOrder(a: Agenda) {
    && (forall e, i :: e in a.pending && 0 <= i < |a.fired| && e.stamp < a.fired[i].mark ==>
        Before(a.fired[i].entry, e))
    && (forall i, j :: 0 <= i < j < |a.fired| && a.fired[j].entry.stamp < a.fired[i].mark ==>
          Before(a.fired[i].entry, a.fired[j].entry))
  }

  /** Time never ran backwards, and nothing ran before its deadline. */
  ghost predicate OnTime(a: Agenda) {
    && (forall i :: 0 <= i < |a.fired| ==> a.fired[i].entry.at <= a.fired[i].now <= a.now)
    && (forall i, j :: 0 <= i < j < |a.fired| ==>
        a.fired[i].now <= a.fired[j].now && a.fired[i].mark <= a.fired[j].mark)
  }

  ghost predicate HasStamp(a: Agenda, s: nat) {
    (exists e :: e in a.pending && e.stamp == s) || (exists i :: 0 <= i < |a.fired| && a.fired[i].entry.stamp == s)
  }

  lemma AddKeepsValid(a: Agenda, at: u64, fn: nat)
    requires Valid(a)
    ensures Valid(Add(a, at, fn))
  {
    AddKeepsAccount(a, at, fn);
    hide Accounted;
  }

  lemma AddKeepsAccount(a: Agenda, at: u64, fn: nat)
    requires Accounted(a)
    ensures Accounted(Add(a, at, fn))
  {
    var b := Add(a, at, fn);
    forall s: nat | s < b.next ensures HasStamp(b, s) {
      if s == a.next {
        assert Entry(at, fn, a.next) in b.pending;
      } else {
        assert HasStamp(a, s);
        if e :| e in a.pending && e.stamp == s { assert e in b.pending; }
      }
    }
  }

  lemma ActKeepsValid(a: Agenda, act: Action)
    requires Valid(a)
    ensures Valid(Act(a, act)) && Act(a, act).now == a.now && Act(a, act).fired == a.fired
  {
    match act {
      case At(at, fn) => AddKeepsValid(a, at, fn);
      case After(delta, fn) => AddKeepsValid(a, Wrap64(a.now + delta), fn);
    }
  }

  lemma {:induction false} ActAllKeepsValid(a: Agenda, acts: seq<Action>)
    requires Valid(a)
    ensures Valid(ActAll(a, acts)) && ActAll(a, acts).now == a.now && ActAll(a, acts).fired == a.fired
    decreases |acts|
  {
    hide Valid, Act;
    if |acts| > 0 {
      ActAllKeepsValid(a, acts[..|acts| - 1]);
      ActKeepsValid(ActAll(a, acts[..|acts| - 1]), acts[|acts| - 1]);
    }
  }

  function Pop(a: Agenda, e: Entry): Agenda {
    var now := Max(a.now, e.at);
    a.(now := now, pending := a.pending - {e}, fired := a.fired + [Fired(e, now, a.next)])
  }

  lemma PopKeepsDistinct(a: Agenda, e: Entry)
    requires Distinct(a) && e in a.pending
    ensures Distinct(Pop(a, e))
  {
    var b := Pop(a, e);
    var n := |a.fired|;
    assert b.fired[n].entry == e && b.fired[n].mark == a.next;
    forall i | 0 <= i < |b.fired|
      ensures b.fired[i].entry.stamp < b.fired[i].mark <= b.next
      ensures i < n ==> b.fired[i].entry.stamp != b.fired[n].entry.stamp
    {
      if i < n { assert b.fired[i] == a.fired[i]; }
    }
    forall f, i | f in b.pending && 0 <= i < |b.fired| ensures f.stamp != b.fired[i].entry.stamp {
      if i < n { assert b.fired[i] == a.fired[i]; }
    }
    forall i, j | 0 <= i < j < |b.fired| ensures b.fired[i].entry.stamp != b.fired[j].entry.stamp {
      assert b.fired[i] == a.fired[i] && (j < n ==> b.fired[j] == a.fired[j]);
    }
    hide Pop;
  }

  lemma PopKeepsAccount(a: Agenda, e: Entry)
    requires Accounted(a) && e in a.pending
    ensures Accounted(Pop(a, e))
  {
    var b := Pop(a, e);
    forall s: nat | s < b.next ensures HasStamp(b, s) {
      assert HasStamp(a, s);
      if f :| f in a.pending && f.stamp == s {
        if f == e { assert b.fired[|a.fired|].entry.stamp == s; } else { assert f in b.pending; }
      } else {
        var i :| 0 <= i < |a.fired| && a.fired[i].entry.stamp == s;
        assert b.fired[i].entry.stamp == s;
      }
    }
  }

  lemma PopKeepsOrder(a: Agenda, e: Entry)
    requires Distinct(a) && InOrder(a) && IsLeast(a.pending, e)
    ensures InOrder(Pop(a, e))
  {
    var b := Pop(a, e);
    var n := |a.fired|;
    forall f, i | f in b.pending && 0 <= i < |b.fired| && f.stamp < b.fired[i].mark
      ensures Before(b.fired[i].entry, f)
    {
      if i < n { assert b.fired[i] == a.fired[i]; }
    }
    forall i, j | 0 <= i < j < |b.fired| && b.fired[j].entry.stamp < b.fired[i].mark
      ensures Before(b.fired[i].entry, b.fired[j].entry)
    {
      assert b.fired[i] == a.fired[i] && (j < n ==> b.fired[j] == a.fired[j]);
    }
    hide Before, Distinct, Pop;
  }

  lemma PopKeepsTime(a: Agenda, e: Entry)
    requires Distinct(a) && OnTime(a)
    ensures OnTime(Pop(a, e))
  {
    var b := Pop(a, e);
    var n := |a.fired|;
    forall i | 0 <= i < |b.fired| ensures b.fired[i].entry.at <= b.fired[i].now <= b.now {
      if i < n { assert b.fired[i] == a.fired[i]; }
    }
    forall i, j | 0 <= i < j < |b.fired|
      ensures b.fired[i].now <= b.fired[j].now && b.fired[i].mark <= b.fired[j].mark
    {
      assert b.fired[i] == a.fired[i] && (j < n ==> b.fired[j] == a.fired[j]);
    }
    hide Distinct, Pop;
  }

  lemma PopKeepsValid(a: Agenda, e: Entry)
    requires Valid(a) && IsLeast(a.pending, e)
    ensures Valid(Pop(a, e))
  {
    hide Distinct, Accounted, InOrder, OnTime;
    PopKeepsDistinct(a, e);
    PopKeepsAccount(a, e);
    PopKeepsOrder(a, e);
    PopKeepsTime(a, e);
  }

  /** Firing keeps the account straight, whatever the callback schedules. */
  lemma FireKeepsValid(b: Behaviour, a: Agenda, e: Entry)
    requires Valid(a) && IsLeast(a.pending, e)
    ensures Valid(Fire(b, a, e))
    ensures Fire(b, a, e).now == Max(a.now, e.at)
    ensures Fire(b, a, e).fired == a.fired + [Fired(e, Max(a.now, e.at), a.next)]
  {
    PopKeepsValid(a, e);
    hide Valid, IsLeast, Distinct, Accounted, InOrder, OnTime;
    ActAllKeepsValid(Pop(a, e), b(Calls(Pop(a, e).fired)));
  }

  // ---- Draining everything due ----

  /** Whether at most `fuel` firings leave nothing due; without this Advance would not return. */
  ghost predicate Settles(b: Behaviour, a: Agenda, target: u64, fuel: nat)
    requires Valid(a)
    decreases fuel
  {
    Idle(a, target) ||
    (fuel > 0 && a.pending != {} &&
     (FireKeepsValid(b, a, Least(a.pending)); Settles(b, Fire(b, a, Least(a.pending)), target, fuel - 1)))
  }

  ghost function Drain(b: Behaviour, a: Agenda, target: u64, fuel: nat): (r: Agenda)
    requires Valid(a) && Settles(b, a, target, fuel)
    ensures Valid(r) && Idle(r, target)
    ensures a.fired <= r.fired
    decreases fuel
  {
    if Idle(a, target) then a
    else
      FireKeepsValid(b, a, Least(a.pending));
      Drain(b, Fire(b, a, Least(a.pending)), target, fuel - 1)
  }

  /** Advance: drain up to the wrapped target, then let the remaining time pass. */
  ghost function Advance(b: Behaviour, a: Agenda, delta: u64, fuel: nat): Agenda
    requires Valid(a) && (delta > 0 ==> Settles(b, a, Wrap64(a.now + delta), fuel))
  {
    if delta == 0 then a
    else
      var target := Wrap64(a.now + delta);
      var r := Drain(b, a, target, fuel);
      r.(now := Max(r.now, target))
  }

  /** The time just before firing i, seen from the state the firings started in. */
  function TimeBefore(a: Agenda, r: Agenda, i: nat): u64
    requires |a.fired| <= i <= |r.fired|
  {
    if i == |a.fired| then a.now else r.fired[i - 1].now
  }

  /** What was fired since was due, and ran at its deadline or at the time then current. */
  ghost predicate Timeline(a: Agenda, r: Agenda, target: u64) {
    && |a.fired| <= |r.fired|
    && forall i :: |a.fired| <= i < |r.fired| ==>
         r.fired[i].entry.at <= target &&
         r.fired[i].now == Max(TimeBefore(a, r, i), r.fired[i].entry.at)
  }

  ghost predicate WasFired(a: Agenda, r: Agenda, e: Entry) {
    exists i :: |a.fired| <= i < |r.fired| && r.fired[i].entry == e
  }

  /** Entries are never altered or dropped: each one is still pending or has been fired. */
  lemma {:induction false} EntriesKept(a: Agenda, acts: seq<Action>)
    ensures a.pending <= ActAll(a, acts).pending
    decreases |acts|
  {
    if |acts| > 0 { EntriesKept(a, acts[..|acts| - 1]); }
  }

  lemma {:induction false} DrainMeaning(b: Behaviour, a: Agenda, target: u64, fuel: nat)
    requires Valid(a) && Settles(b, a, target, fuel)
    ensures var r := Drain(b, a, target, fuel);
            Timeline(a, r, target) && a.now <= r.now <= Max(a.now, target) &&
            (r.now == if |r.fired| == |a.fired| then a.now else r.fired[|r.fired| - 1].now) &&
            forall e :: e in a.pending ==> e in r.pending || WasFired(a, r, e)
    decreases fuel
  {
    hide Fire, Valid, Timeline, WasFired;
    if Idle(a, target) {
      NothingFired(a, target);
    } else {
      ValidStamps(a);
      var e := Least(a.pending);
      var c := Fire(b, a, e);
      FireKeepsValid(b, a, e);
      LeastIsDue(a, e, target);
      DrainMeaning(b, c, target, fuel - 1);
      var r := Drain(b, c, target, fuel - 1);
      TimelineStep(a, c, r, e, target);
      forall f | f in a.pending ensures f in r.pending || WasFired(a, r, f) {
        if f == e {
          FiredNow(a, c, r, e);
        } else {
          FireKeepsOthers(b, a, e, f);
          FiredLater(a, c, r, f);
        }
      }
    }
  }

  lemma ValidStamps(a: Agenda)
    requires Valid(a)
    ensures DistinctStamps(a.pending)
  {
  }

  lemma NothingFired(a: Agenda, target: u64)
    ensures Timeline(a, a, target)
  {
  }

  lemma LeastIsDue(a: Agenda, e: Entry, target: u64)
    requires IsLeast(a.pending, e) && !Idle(a, target)
    ensures e.at <= target
  {
  }

  lemma FireKeepsOthers(b: Behaviour, a: Agenda, e: Entry, f: Entry)
    requires e in a.pending && f in a.pending && f != e
    ensures f in Fire(b, a, e).pending
  {
    EntriesKept(Pop(a, e), b(Calls(Pop(a, e).fired)));
  }

  lemma TimelineStep(a: Agenda, c: Agenda, r: Agenda, e: Entry, target: u64)
    requires c.fired == a.fired + [Fired(e, Max(a.now, e.at), a.next)] && c.now == Max(a.now, e.at) && e.at <= target
    requires Timeline(c, r, target) && c.fired <= r.fired
    ensures Timeline(a, r, target)
  {
    assert r.fired[|a.fired|] == c.fired[|a.fired|];
  }

  lemma FiredNow(a: Agenda, c: Agenda, r: Agenda, e: Entry)
    requires c.fired == a.fired + [Fired(e, Max(a.now, e.at), a.next)] && c.fired <= r.fired
    ensures WasFired(a, r, e)
  {
    assert r.fired[|a.fired|].entry == c.fired[|a.fired|].entry == e;
  }

  lemma FiredLater(a: Agenda, c: Agenda, r: Agenda, f: Entry)
    requires |a.fired| <= |c.fired|
    ensures WasFired(c, r, f) ==> WasFired(a, r, f)
  {
  }

  /** The main result. Advance ends exactly at the requested time (or, should that wrap beyond 2^64,
      where it started); what was due has been fired, exactly once since stamps are distinct and
      accounted for, each callback at its deadline or at the time then current if that was later,
      in deadline order among what was scheduled by then; only later events remain. */
  lemma AdvanceMeaning(b: Behaviour, a: Agenda, delta: u64, fuel: nat)
    requires Valid(a) && Settles(b, a, Wrap64(a.now + delta), fuel) && delta > 0
    ensures var target := Wrap64(a.now + delta);
            var r := Advance(b, a, delta, fuel);
            Valid(r) && Idle(r, target) && Timeline(a, r, target) && a.fired <= r.fired &&
            (r.now == if a.now + delta < 0x1_0000_0000_0000_0000 then a.now + delta else a.now) &&
            forall e :: e in a.pending ==>
              (e.at <= target ==> WasFired(a, r, e)) && (e in r.pending <==> !WasFired(a, r, e))
  {
    hide Drain, Settles, Valid, Timeline, WasFired;
    var target := Wrap64(a.now + delta);
    var d := Drain(b, a, target, fuel);
    DrainMeaning(b, a, target, fuel);
    TimePasses(d, Max(d.now, target));
    var r := d.(now := Max(d.now, target));
    assert r == Advance(b, a, delta, fuel);
    hide Advance;
    SameFirings(a, d, r, target);
    forall e | e in a.pending ensures WasFired(a, r, e) ==> e !in r.pending { StampOnce(a, r, e); }
  }

  /** Letting time pass keeps the account. */
  lemma TimePasses(a: Agenda, now: u64)
    requires Valid(a) && now >= a.now
    ensures Valid(a.(now := now))
  {
    var b := a.(now := now);
    assert Distinct(b) && InOrder(b) && OnTime(b);
    forall s: nat | s < b.next ensures HasStamp(b, s) { assert HasStamp(a, s); }
  }

  lemma SameFirings(a: Agenda, d: Agenda, r: Agenda, target: u64)
    requires r.fired == d.fired && r.pending == d.pending && Timeline(a, d, target)
    ensures Timeline(a, r, target)
    ensures forall e :: WasFired(a, r, e) <==> WasFired(a, d, e)
  {
    forall i | |a.fired| <= i < |r.fired|
      ensures r.fired[i].entry.at <= target
      ensures r.fired[i].now == Max(TimeBefore(a, r, i), r.fired[i].entry.at)
    {
      assert r.fired[i] == d.fired[i] && (i > |a.fired| ==> r.fired[i - 1] == d.fired[i - 1]);
    }
  }

  lemma StampOnce(a: Agenda, r: Agenda, e: Entry)
    requires Valid(r)
    ensures WasFired(a, r, e) ==> e !in r.pending
  {
  }

  /** The fuel that bounds the draining has no influence on its result. */
  lemma {:induction false} FuelIrrelevant(b: Behaviour, a: Agenda, target: u64, fuel: nat, more: nat)
    requires Valid(a) && Settles(b, a, target, fuel) && fuel <= more
    ensures Settles(b, a, target, more) && Drain(b, a, target, more) == Drain(b, a, target, fuel)
    decreases fuel
  {
    hide Fire, Valid;
    if !Idle(a, target) {
      ValidStamps(a);
      FireKeepsValid(b, a, Least(a.pending));
      FuelIrrelevant(b, Fire(b, a, Least(a.pending)), target, fuel - 1, more - 1);
    }
  }

  // ---- From the call that schedules to the callback that runs ----

  /** When an action is due that a callback running at `now` takes. */
  function Deadline(act: Action, now: u64): u64 {
    match act case At(at, _) => at case After(delta, _) => Wrap64(now + delta)
  }

  /** A callback's actions add one entry each, numbered in order, and nothing else. */
  lemma {:induction false} ActsAdd(a: Agenda, acts: seq<Action>)
    ensures var r := ActAll(a, acts);
            r.now == a.now && r.fired == a.fired && r.next == a.next + |acts| && a.pending <= r.pending &&
            (forall k :: 0 <= k < |acts| ==> Entry(Deadline(acts[k], a.now), acts[k].fn, a.next + k) in r.pending) &&
            forall e :: e in r.pending ==>
              (e in a.pending ||
               exists k :: 0 <= k < |acts| && e == Entry(Deadline(acts[k], a.now), acts[k].fn, a.next + k))
    decreases |acts|
  {
    if |acts| > 0 {
      var n, some := |acts| - 1, ActAll(a, acts[..|acts| - 1]);
      ActsAdd(a, acts[..n]);
      var r := ActAll(a, acts);
      ActAdds(some, acts[n]);
      forall e | e in r.pending
        ensures e in a.pending ||
                exists k :: 0 <= k < |acts| && e == Entry(Deadline(acts[k], a.now), acts[k].fn, a.next + k)
      {
        if e in some.pending && e !in a.pending {
          var k :| 0 <= k < n && e == Entry(Deadline(acts[..n][k], a.now), acts[..n][k].fn, a.next + k);
          assert acts[..n][k] == acts[k];
        }
      }
    }
  }

  lemma ActAdds(a: Agenda, act: Action)
    ensures Act(a, act) ==
            a.(pending := a.pending + {Entry(Deadline(act, a.now), act.fn, a.next)}, next := a.next + 1)
  {
  }

  /** What a callback has seen when it runs as firing i: every call up to its own. */
  ghost predicate IsHistory(r: Agenda, i: nat, calls: seq<Call>)
    requires i < |r.fired|
  {
    |calls| == i + 1 && forall j :: 0 <= j <= i ==> calls[j] == Call(r.fired[j].entry.fn, r.fired[j].now)
  }

  /** The number of entries scheduled before firing i ran, or in the end. */
  function ScheduledBy(r: Agenda, i: nat): nat
    requires i <= |r.fired|
  {
    if i < |r.fired| then r.fired[i].mark else r.next
  }

  /** The entry has been made by action number k of the callback that ran as firing i. */
  ghost predicate MadeBy(b: Behaviour, r: Agenda, i: nat, k: nat, e: Entry)
    requires i < |r.fired|
  {
    forall calls :: IsHistory(r, i, calls) ==>
      k < |b(calls)| && e == Entry(Deadline(b(calls)[k], r.fired[i].now), b(calls)[k].fn, r.fired[i].mark + k)
  }

  ghost predicate Present(r: Agenda, e: Entry) {
    e in r.pending || exists j :: 0 <= j < |r.fired| && r.fired[j].entry == e
  }

  /** The callback that ran as firing i has scheduled as many entries as it took actions, and each of
      them is still pending or has been fired. */
  ghost predicate Honoured(b: Behaviour, r: Agenda, i: nat)
    requires i < |r.fired|
  {
    forall calls :: IsHistory(r, i, calls) ==>
      && ScheduledBy(r, i + 1) == r.fired[i].mark + |b(calls)|
      && forall k :: 0 <= k < |b(calls)| ==>
           Present(r, Entry(Deadline(b(calls)[k], r.fired[i].now), b(calls)[k].fn, r.fired[i].mark + k))
  }

  /** Where an entry of r comes from: it was pending at a or a callback has made it since. */
  ghost predicate HasSource(b: Behaviour, a: Agenda, r: Agenda, e: Entry) {
    e in a.pending || exists i, k :: |a.fired| <= i < |r.fired| && 0 <= k && MadeBy(b, r, i, k, e)
  }

  /** The whole account between a and r. */
  ghost predicate Ledger(b: Behaviour, a: Agenda, r: Agenda) {
    && a.fired <= r.fired && ScheduledBy(r, |a.fired|) == a.next
    && (forall i :: |a.fired| <= i < |r.fired| ==> Honoured(b, r, i))
    && (forall e :: e in r.pending || WasFired(a, r, e) ==> HasSource(b, a, r, e))
  }

  lemma FiredHistory(b: Behaviour, a: Agenda, e: Entry, r: Agenda, calls: seq<Call>)
    requires Pop(a, e).fired <= r.fired && IsHistory(r, |a.fired|, calls)
    ensures calls == Calls(Pop(a, e).fired)
  {
    assert forall j :: 0 <= j <= |a.fired| ==> r.fired[j] == Pop(a, e).fired[j];
  }

  /** One firing keeps the account, given the account of all that follows. */
  lemma FiringHonoured(b: Behaviour, a: Agenda, e: Entry, r: Agenda)
    requires e in a.pending && Fire(b, a, e).fired <= r.fired && Pop(a, e).fired <= Fire(b, a, e).fired
    requires ScheduledBy(r, |a.fired| + 1) == Fire(b, a, e).next
    requires forall f :: f in Fire(b, a, e).pending ==> Present(r, f)
    ensures ScheduledBy(r, |a.fired|) == a.next && Honoured(b, r, |a.fired|)
  {
    hide Present, ScheduledBy, ActAll;
    var popped := Pop(a, e);
    ActsAdd(popped, b(Calls(popped.fired)));
    assert r.fired[|a.fired|] == popped.fired[|a.fired|] == Fired(e, popped.now, a.next);
    Marked(r, |a.fired|);
    forall calls | IsHistory(r, |a.fired|, calls)
      ensures calls == Calls(popped.fired)
    {
      FiredHistory(b, a, e, r, calls);
    }
    hide IsHistory;
  }

  lemma Marked(r: Agenda, i: nat)
    requires i < |r.fired|
    ensures ScheduledBy(r, i) == r.fired[i].mark
  {
  }

  /** What the callback has added was made by it. */
  lemma FiringSources(b: Behaviour, a: Agenda, e: Entry, r: Agenda, f: Entry)
    requires e in a.pending && Pop(a, e).fired <= r.fired && f in Fire(b, a, e).pending
    ensures HasSource(b, a, r, f)
  {
    hide ActAll;
    var popped := Pop(a, e);
    var acts := b(Calls(popped.fired));
    ActsAdd(popped, acts);
    if f !in a.pending {
      var k :| 0 <= k < |acts| && f == Entry(Deadline(acts[k], popped.now), acts[k].fn, popped.next + k);
      assert r.fired[|a.fired|] == popped.fired[|a.fired|] == Fired(e, popped.now, a.next);
      forall calls | IsHistory(r, |a.fired|, calls) ensures calls == Calls(popped.fired) {
        FiredHistory(b, a, e, r, calls);
      }
      assert MadeBy(b, r, |a.fired|, k, f);
    }
  }

  lemma PopFirst(b: Behaviour, a: Agenda, e: Entry)
    requires Valid(a) && IsLeast(a.pending, e)
    ensures Pop(a, e).fired <= Fire(b, a, e).fired
  {
    FireKeepsValid(b, a, e);
    hide Valid, Fire;
  }

  lemma StillPresent(c: Agenda, r: Agenda, f: Entry)
    requires f in r.pending || WasFired(c, r, f)
    ensures Present(r, f)
  {
  }

  lemma LedgerLonger(b: Behaviour, a: Agenda, e: Entry, c: Agenda, r: Agenda)
    requires Valid(a) && IsLeast(a.pending, e) && c == Fire(b, a, e) && Ledger(b, c, r)
    requires |a.fired| < |r.fired| && ScheduledBy(r, |a.fired|) == a.next && Honoured(b, r, |a.fired|)
    ensures Ledger(b, a, r)
  {
    FireKeepsValid(b, a, e);
    PopFirst(b, a, e);
    hide Valid, Fire, Pop, Honoured, MadeBy, ScheduledBy;
    forall f | f in r.pending || WasFired(a, r, f) ensures HasSource(b, a, r, f) {
      if f in r.pending || WasFired(c, r, f) {
        if f in c.pending { FiringSources(b, a, e, r, f); }
      } else {
        assert r.fired[|a.fired|] == c.fired[|a.fired|];
      }
    }
  }

  lemma {:induction false} DrainLedger(b: Behaviour, a: Agenda, target: u64, fuel: nat)
    requires Valid(a) && Settles(b, a, target, fuel)
    ensures Ledger(b, a, Drain(b, a, target, fuel))
    decreases fuel
  {
    hide Fire, Pop, Valid, Honoured, MadeBy, Present;
    if Idle(a, target) {
    } else {
      ValidStamps(a);
      var e := Least(a.pending);
      var c := Fire(b, a, e);
      FireKeepsValid(b, a, e);
      DrainLedger(b, c, target, fuel - 1);
      var r := Drain(b, c, target, fuel - 1);
      DrainMeaning(b, c, target, fuel - 1);
      PopFirst(b, a, e);
      forall f | f in c.pending ensures Present(r, f) { StillPresent(c, r, f); }
      FiringHonoured(b, a, e, r);
      LedgerLonger(b, a, e, c, r);
    }
  }

  /** Every Advance keeps the account: each callback fired has seen exactly the calls up to its own,
      all its actions have become entries, due when it said and numbered in its order, and every
      entry pending or fired afterwards was pending before or was made by one of them. */
  lemma AdvanceLedger(b: Behaviour, a: Agenda, delta: u64, fuel: nat)
    requires Valid(a) && (delta > 0 ==> Settles(b, a, Wrap64(a.now + delta), fuel))
    ensures Ledger(b, a, Advance(b, a, delta, fuel))
    ensures delta == 0 ==> Advance(b, a, delta, fuel) == a
  {
    hide Valid, Settles, Drain, Ledger;
    if delta == 0 {
      EmptyLedger(b, a);
    } else {
      var target := Wrap64(a.now + delta);
      DrainLedger(b, a, target, fuel);
      var d := Drain(b, a, target, fuel);
      LedgerLater(b, a, d, Max(d.now, target));
    }
  }

  lemma EmptyLedger(b: Behaviour, a: Agenda)
    ensures Ledger(b, a, a)
  {
  }

  lemma LedgerLater(b: Behaviour, a: Agenda, d: Agenda, now: u64)
    requires Ledger(b, a, d)
    ensures Ledger(b, a, d.(now := now))
  {
    var r := d.(now := now);
    forall i | |a.fired| <= i < |r.fired| ensures Honoured(b, r, i) {
      assert Honoured(b, d, i);
      assert forall calls :: IsHistory(r, i, calls) ==> IsHistory(d, i, calls);
      assert forall e :: Present(d, e) ==> Present(r, e);
      hide IsHistory, Present;
    }
    forall e | e in r.pending || WasFired(a, r, e) ensures HasSource(b, a, r, e) {
      assert HasSource(b, a, d, e);
      if e !in a.pending {
        var i, k :| |a.fired| <= i < |d.fired| && 0 <= k && MadeBy(b, d, i, k, e);
        assert forall calls :: IsHistory(r, i, calls) ==> IsHistory(d, i, calls);
        assert MadeBy(b, r, i, k, e);
      }
    }
  }

  /** While everything fired goes before an entry, the clock does not pass the entry's deadline. */
  lemma {:induction false} NotPassed(a: Agenda, r: Agenda, target: u64, p: nat, j: nat, at: u64)
    requires Timeline(a, r, target) && |a.fired| <= p <= j <= |r.fired|
    requires forall k :: p <= k < j ==> r.fired[k].entry.at <= at
    ensures TimeBefore(a, r, p) <= TimeBefore(a, r, j) <= Max(TimeBefore(a, r, p), at)
    decreases j - p
  {
    hide Timeline, TimeBefore;
    if p < j {
      NotPassed(a, r, target, p, j - 1, at);
      NextTime(a, r, target, j - 1);
    }
  }

  lemma NextTime(a: Agenda, r: Agenda, target: u64, j: nat)
    requires Timeline(a, r, target) && |a.fired| <= j < |r.fired|
    ensures TimeBefore(a, r, j + 1) == Max(TimeBefore(a, r, j), r.fired[j].entry.at)
  {
    assert TimeBefore(a, r, j + 1) == r.fired[j].now;
  }

  /** A firing whose entry was there before firing p ran at its deadline, or when firing p was about to
      run if the deadline had passed by then. */
  lemma RanWhenDue(a: Agenda, r: Agenda, target: u64, p: nat, i: nat)
    requires Valid(r) && Timeline(a, r, target) && |a.fired| <= p <= i < |r.fired|
    requires forall j :: p <= j < i ==> r.fired[i].entry.stamp < r.fired[j].mark
    ensures r.fired[i].now == Max(TimeBefore(a, r, p), r.fired[i].entry.at)
  {
    NotPassed(a, r, target, p, i, r.fired[i].entry.at);
  }

  /** So for what callbacks schedule: an entry numbered among those of firing p runs after it, at its
      deadline or, if that had passed when the callback scheduled it, at that time. */
  lemma CallbackRunsOnTime(a: Agenda, r: Agenda, target: u64, p: nat, i: nat)
    requires Valid(r) && Timeline(a, r, target) && |a.fired| <= p < |r.fired| && |a.fired| <= i < |r.fired|
    requires r.fired[p].mark <= r.fired[i].entry.stamp < ScheduledBy(r, p + 1)
    ensures p < i && r.fired[i].now == Max(r.fired[p].now, r.fired[i].entry.at)
  {
    hide Timeline, Distinct, Accounted, InOrder;
    AfterCallback(r, p, i);
    RanWhenDue(a, r, target, p + 1, i);
  }

  lemma AfterCallback(r: Agenda, p: nat, i: nat)
    requires Distinct(r) && OnTime(r) && p < |r.fired| && i < |r.fired|
    requires r.fired[p].mark <= r.fired[i].entry.stamp < ScheduledBy(r, p + 1)
    ensures p < i && forall j :: p < j < i ==> r.fired[i].entry.stamp < r.fired[j].mark
  {
    assert r.fired[i].entry.stamp < r.fired[i].mark;
  }

  lemma {:induction false} MarksGrow(b: Behaviour, a: Agenda, target: u64, fuel: nat)
    requires Valid(a) && Settles(b, a, target, fuel)
    ensures forall j :: |a.fired| <= j < |Drain(b, a, target, fuel).fired| ==>
              a.next <= Drain(b, a, target, fuel).fired[j].mark
    decreases fuel
  {
    hide Valid, ActAll;
    if !Idle(a, target) {
      ValidStamps(a);
      var e := Least(a.pending);
      var c := Fire(b, a, e);
      FireKeepsValid(b, a, e);
      ActsAdd(Pop(a, e), b(Calls(Pop(a, e).fired)));
      MarksGrow(b, c, target, fuel - 1);
      var r := Drain(b, c, target, fuel - 1);
      assert c.fired <= r.fired && r.fired[|a.fired|] == c.fired[|a.fired|];
    }
  }

  /** Everything pending that is due by the target runs at exactly its deadline, or at the time the
      Advance began if that had passed: no callback, whatever it schedules, makes it late. */
  lemma RunsOnTime(b: Behaviour, a: Agenda, delta: u64, fuel: nat, e: Entry)
    requires Valid(a) && delta > 0 && Settles(b, a, Wrap64(a.now + delta), fuel)
    requires e in a.pending && e.at <= Wrap64(a.now + delta)
    ensures var r := Advance(b, a, delta, fuel);
            exists i :: |a.fired| <= i < |r.fired| && r.fired[i].entry == e && r.fired[i].now == Max(a.now, e.at)
  {
    hide Settles, Drain, Timeline, Accounted, InOrder, OnTime;
    var target := Wrap64(a.now + delta);
    AdvanceMeaning(b, a, delta, fuel);
    MarksGrow(b, a, target, fuel);
    var r := Advance(b, a, delta, fuel);
    assert e.stamp < a.next;
    hide Valid, Distinct;
    var i :| |a.fired| <= i < |r.fired| && r.fired[i].entry == e;
    RanWhenDue(a, r, target, |a.fired|, i);
  }

  /** From the call to the callback: what has just been scheduled for `at` by an Advance that reaches it
      runs in that Advance, once, with the callback given, at `at` or at once if that had passed; one
      that does not reach it leaves it pending. */
  lemma CalledBack(b: Behaviour, a: Agenda, at: u64, fn: nat, delta: u64, fuel: nat)
    requires Valid(a) && delta > 0
    requires var s := a.(pending := a.pending + {Entry(at, fn, a.next)}, next := a.next + 1);
             Valid(s) && Settles(b, s, Wrap64(a.now + delta), fuel)
    ensures var s := a.(pending := a.pending + {Entry(at, fn, a.next)}, next := a.next + 1);
            var r := Advance(b, s, delta, fuel);
            var e := Entry(at, fn, a.next);
            if at <= Wrap64(a.now + delta) then
              exists i :: |a.fired| <= i < |r.fired| && r.fired[i] == Fired(e, Max(a.now, at), r.fired[i].mark) &&
                          forall j :: 0 <= j < |r.fired| && j != i ==> r.fired[j].entry.stamp != a.next
            else e in r.pending && forall j :: 0 <= j < |r.fired| ==> r.fired[j].entry.stamp != a.next
  {
    hide Settles, Drain, Timeline;
    var s := a.(pending := a.pending + {Entry(at, fn, a.next)}, next := a.next + 1);
    var e := Entry(at, fn, a.next);
    AdvanceMeaning(b, s, delta, fuel);
    var r := Advance(b, s, delta, fuel);
    hide Advance;
    if at <= Wrap64(a.now + delta) {
      RunsOnTime(b, s, delta, fuel, e);
      var i :| |a.fired| <= i < |r.fired| && r.fired[i].entry == e && r.fired[i].now == Max(a.now, at);
      OneFiring(r, i);
    } else {
      StaysPending(s, r, e, Wrap64(a.now + delta));
    }
  }

  lemma OneFiring(r: Agenda, i: nat)
    requires Valid(r) && i < |r.fired|
    ensures forall j :: 0 <= j < |r.fired| && j != i ==> r.fired[j].entry.stamp != r.fired[i].entry.stamp
  {
  }

  lemma StaysPending(s: Agenda, r: Agenda, e: Entry, target: u64)
    requires Valid(r) && Timeline(s, r, target) && e in s.pending && e.at > target
    requires e in r.pending <==> !WasFired(s, r, e)
    ensures e in r.pending && forall j :: 0 <= j < |r.fired| ==> r.fired[j].entry.stamp != e.stamp
  {
  }

  /** The agenda Schedule leaves is valid again. */
  lemma ScheduledValid(a: Agenda, at: u64, fn: nat)
    requires Valid(a)
    ensures Valid(a.(pending := a.pending + {Entry(at, fn, a.next)}, next := a.next + 1))
  {
    AddKeepsValid(a, at, fn);
    hide Valid;
  }

  /** Of two firings, if the second was scheduled before the first ran, then the first was due earlier,
      or at the same time and scheduled earlier. */
  lemma FirstDueFirst(r: Agenda, i: nat, j: nat)
    requires Valid(r) && i < j < |r.fired| && r.fired[j].entry.stamp < r.fired[i].mark
    ensures var first, second := r.fired[i].entry, r.fired[j].entry;
            first.at < second.at || (first.at == second.at && first.stamp < second.stamp)
  {
  }

  // ---- Callbacks that only schedule beyond the target ----

  /** The histories a callback can see in an Advance from a to target: they continue what has run
      so far, and their last call, the callback's own, lies in the time advanced over. */
  predicate Reachable(a: Agenda, target: u64, calls: seq<Call>) {
    Calls(a.fired) < calls && a.now <= calls[|calls| - 1].now <= Max(a.now, target)
  }

  /** Whatever a callback schedules is due after the target. */
  ghost predicate Patient(b: Behaviour, a: Agenda, target: u64) {
    forall calls: seq<Call>, i :: Reachable(a, target, calls) && 0 <= i < |b(calls)| ==>
      Deadline(b(calls)[i], calls[|calls| - 1].now) > target
  }

  /** One firing on, the callbacks can see no more than they could see before. */
  lemma ReachableLater(b: Behaviour, a: Agenda, e: Entry, target: u64, calls: seq<Call>)
    requires Valid(a) && IsLeast(a.pending, e) && e.at <= target && Reachable(Fire(b, a, e), target, calls)
    ensures Reachable(a, target, calls)
  {
    hide Valid, Fire;
    FireKeepsValid(b, a, e);
    var c := Fire(b, a, e);
    assert Calls(a.fired) <= Calls(c.fired);
  }

  /** The callback of the event being fired sees such a history. */
  lemma ReachableNow(a: Agenda, e: Entry, target: u64)
    requires e.at <= target
    ensures var calls := Calls(Pop(a, e).fired);
            Reachable(a, target, calls) && calls[|calls| - 1].now == Pop(a, e).now >= e.at
  {
    var calls := Calls(Pop(a, e).fired);
    assert Calls(a.fired) == calls[..|a.fired|];
  }

  ghost function Due(a: Agenda, target: u64): set<Entry> {
    set e | e in a.pending && e.at <= target
  }

  lemma {:induction false} ActsBeyond(a: Agenda, acts: seq<Action>, target: u64)
    requires forall i :: 0 <= i < |acts| ==> Deadline(acts[i], a.now) > target
    ensures ActAll(a, acts).now == a.now && Due(ActAll(a, acts), target) == Due(a, target)
    decreases |acts|
  {
    if |acts| > 0 {
      ActsBeyond(a, acts[..|acts| - 1], target);
      ActBeyond(ActAll(a, acts[..|acts| - 1]), acts[|acts| - 1], target);
      hide Due, Act;
    }
  }

  lemma ActBeyond(a: Agenda, act: Action, target: u64)
    requires Deadline(act, a.now) > target
    ensures Act(a, act).now == a.now && Due(Act(a, act), target) == Due(a, target)
  {
  }

  /** Such callbacks always let Advance finish: as many firings as there were events due. */
  lemma {:induction false} PatientSettles(b: Behaviour, a: Agenda, target: u64)
    requires Valid(a) && Patient(b, a, target)
    ensures Settles(b, a, target, |Due(a, target)|)
    decreases |Due(a, target)|
  {
    hide Valid, Due, Fire, Reachable;
    if !Idle(a, target) {
      ValidStamps(a);
      var e := Least(a.pending);
      FireKeepsValid(b, a, e);
      LeastIsDue(a, e, target);
      OneLessDue(b, a, e, target);
      forall calls | Reachable(Fire(b, a, e), target, calls) ensures Reachable(a, target, calls) {
        ReachableLater(b, a, e, target, calls);
      }
      PatientSettles(b, Fire(b, a, e), target);
    }
  }

  lemma OneLessDue(b: Behaviour, a: Agenda, e: Entry, target: u64)
    requires Patient(b, a, target) && IsLeast(a.pending, e) && e.at <= target
    ensures Due(Fire(b, a, e), target) == Due(a, target) - {e} && |Due(a, target) - {e}| == |Due(a, target)| - 1
  {
    var popped := Pop(a, e);
    assert Due(popped, target) == Due(a, target) - {e} && e in Due(a, target);
    ReachableNow(a, e, target);
    ActsBeyond(popped, b(Calls(popped.fired)), target);
    hide Due, ActAll, Reachable;
  }

  // ---- Callbacks that schedule after their own time, within the window or beyond ----

  ghost predicate Forward(b: Behaviour, a: Agenda, target: u64) {
    forall calls: seq<Call>, i :: Reachable(a, target, calls) && 0 <= i < |b(calls)| ==>
      Deadline(b(calls)[i], calls[|calls| - 1].now) > calls[|calls| - 1].now
  }

  /** How far the earliest deadline is from the target; 0 when nothing is due. */
  ghost function Ahead(a: Agenda, target: u64): nat
    requires Valid(a)
  {
    if Idle(a, target) then 0
    else
      ValidStamps(a);
      LeastIsDue(a, Least(a.pending), target);
      target - Least(a.pending).at + 1
  }

  /** The events due at the earliest deadline. */
  ghost function Level(a: Agenda, target: u64): set<Entry>
    requires Valid(a)
  {
    if Idle(a, target) then {} else ValidStamps(a); Due(a, Least(a.pending).at)
  }

  /** Firing the earliest event leaves fewer at its deadline, or moves on to a later one. */
  lemma FiringProgresses(b: Behaviour, a: Agenda, target: u64)
    requires Valid(a) && !Idle(a, target) && Forward(b, a, target) && DistinctStamps(a.pending)
    ensures var c := Fire(b, a, Least(a.pending));
            Valid(c) && (Ahead(c, target) < Ahead(a, target) ||
                         (Ahead(c, target) == Ahead(a, target) && |Level(c, target)| < |Level(a, target)|))
  {
    hide Valid, DistinctStamps;
    var e := Least(a.pending);
    var c := Fire(b, a, e);
    FireKeepsValid(b, a, e);
    ValidStamps(c);
    LeastIsDue(a, e, target);
    FiredAtLevel(b, a, e, target);
    assert Due(c, e.at) == Due(a, e.at) - {e} && e in Due(a, e.at);
    assert |Due(c, e.at)| == |Due(a, e.at)| - 1;
    if !Idle(c, target) {
      var f := Least(c.pending);
      NoneBelow(a, c, e, f);
    }
    hide Fire;
  }

  /** What the callback adds is due later than the event fired. */
  lemma FiredAtLevel(b: Behaviour, a: Agenda, e: Entry, target: u64)
    requires Forward(b, a, target) && e in a.pending && e.at <= target
    ensures Due(Fire(b, a, e), e.at) == Due(a, e.at) - {e}
  {
    hide Reachable;
    var popped := Pop(a, e);
    ReachableNow(a, e, target);
    ActsBeyond(popped, b(Calls(popped.fired)), e.at);
    assert Due(popped, e.at) == Due(a, e.at) - {e};
  }

  lemma NoneBelow(a: Agenda, c: Agenda, e: Entry, f: Entry)
    requires IsLeast(a.pending, e) && f in c.pending && Due(c, e.at) == Due(a, e.at) - {e}
    ensures f.at >= e.at && (f.at == e.at ==> f in Due(c, e.at))
  {
    if f.at <= e.at { assert f in Due(c, e.at); }
  }

  /** Such callbacks always let Advance finish, however often they fire within it. */
  lemma {:induction false} ForwardSettles(b: Behaviour, a: Agenda, target: u64)
    requires Valid(a) && Forward(b, a, target)
    ensures exists fuel: nat :: Settles(b, a, target, fuel)
    decreases Ahead(a, target), |Level(a, target)|
  {
    if Idle(a, target) {
      assert Settles(b, a, target, 0);
    } else {
      ValidStamps(a);
      var e := Least(a.pending);
      var c := Fire(b, a, e);
      FiringProgresses(b, a, target);
      StillForward(b, a, e, target);
      ForwardSettles(b, c, target);
      var fuel: nat :| Settles(b, c, target, fuel);
      hide Valid, Fire, Forward;
      assert Settles(b, a, target, fuel + 1);
    }
  }

  lemma StillForward(b: Behaviour, a: Agenda, e: Entry, target: u64)
    requires Valid(a) && Forward(b, a, target) && IsLeast(a.pending, e) && !Idle(a, target)
    ensures Forward(b, Fire(b, a, e), target)
  {
    hide Valid, Fire, Reachable;
    LeastIsDue(a, e, target);
    forall calls | Reachable(Fire(b, a, e), target, calls) ensures Reachable(a, target, calls) {
      ReachableLater(b, a, e, target, calls);
    }
  }

  /** Periodic timers: every callback only restarts timers, with delays of 1 to `longest`, and the
      clock does not come within `longest` of its end. */
  lemma TimersSettle(b: Behaviour, a: Agenda, target: u64, longest: u64)
    requires Valid(a) && Max(a.now, target) + longest < 0x1_0000_0000_0000_0000
    requires forall calls: seq<Call>, i :: 0 <= i < |b(calls)| ==>
               b(calls)[i].After? && 0 < b(calls)[i].delta <= longest
    ensures exists fuel: nat :: Settles(b, a, target, fuel)
  {
    hide Valid;
    forall calls: seq<Call>, i | Reachable(a, target, calls) && 0 <= i < |b(calls)|
      ensures Deadline(b(calls)[i], calls[|calls| - 1].now) > calls[|calls| - 1].now
    {
      NoWrapAround(calls[|calls| - 1].now + b(calls)[i].delta);
    }
    ForwardSettles(b, a, target);
  }

  lemma NoWrapAround(x: nat)
    ensures x < 0x1_0000_0000_0000_0000 ==> Wrap64(x) == x
  {
  }

  /** One callback that restarts itself for ever. */
  lemma PeriodicTimerSettles(b: Behaviour, fn: nat, period: u64, a: Agenda, target: u64)
    requires forall calls: seq<Call> :: b(calls) == [After(period, fn)]
    requires Valid(a) && 0 < period && Max(a.now, target) + period < 0x1_0000_0000_0000_0000
    ensures exists fuel: nat :: Settles(b, a, target, fuel)
  {
    hide Valid;
    TimersSettle(b, a, target, period);
  }

  /** A timer slower than the window is patient. */
  lemma SlowTimerIsPatient(b: Behaviour, fn: nat, period: u64, a: Agenda, target: u64)
    requires forall calls: seq<Call> :: b(calls) == [After(period, fn)]
    requires a.now + period > target && Max(a.now, target) + period < 0x1_0000_0000_0000_0000
    ensures Patient(b, a, target)
  {
    forall calls: seq<Call> | Reachable(a, target, calls)
      ensures Deadline(After(period, fn), calls[|calls| - 1].now) > target
    {
      NoWrapAround(calls[|calls| - 1].now + period);
    }
  }
}
