/** The rolling debug history (cpu.go): a ring buffer against the list of newest entries it stands for. */
module History {
  import opened Words

  // ---- The list ----

  datatype Log<T> = Log(limit: nat, entries: seq<T>)

  datatype Operation<T> = Append(entry: T) | SetLimit(limit: int) | Clear

  /** The last n entries, or all of them. */
  function Newest<T>(s: seq<T>, n: nat): (r: seq<T>)
    ensures |r| == if |s| > n then n else |s|
  {
    if |s| > n then s[|s| - n..] else s
  }

  function Perform<T>(log: Log<T>, op: Operation<T>): Log<T> {
    match op
    case Append(e) => log.(entries := Newest(log.entries + [e], log.limit))
    case SetLimit(limit) => if limit <= 0 then Log(0, []) else Log(limit, Newest(log.entries, limit))
    case Clear => log.(entries := [])
  }

  /** History starts switched off. */
  function Run<T>(ops: seq<Operation<T>>): Log<T> {
    if |ops| == 0 then Log(0, []) else Perform(Run(ops[..|ops| - 1]), ops[|ops| - 1])
  }

  function Appended<T>(ops: seq<Operation<T>>): seq<T> {
    if |ops| == 0 then []
    else Appended(ops[..|ops| - 1]) + match ops[|ops| - 1] case Append(e) => [e] case _ => []
  }

  /** The limit last set, 0 for none. */
  function LimitSet<T>(ops: seq<Operation<T>>): nat {
    if |ops| == 0 then 0
    else
      match ops[|ops| - 1]
      case SetLimit(limit) => if limit > 0 then limit else 0
      case _ => LimitSet(ops[..|ops| - 1])
  }

  lemma {:induction false} LimitKept<T>(ops: seq<Operation<T>>)
    ensures Run(ops).limit == LimitSet(ops)
    decreases |ops|
  {
    if |ops| > 0 { LimitKept(ops[..|ops| - 1]); }
  }

  /** How many entries could be kept if only the situation after t operations had to be respected:
      what fitted then, and everything appended since. */
  function Room<T>(ops: seq<Operation<T>>, t: nat): nat
    requires t <= |ops|
  {
    (if t > 0 && ops[t - 1].Clear? then 0 else LimitSet(ops[..t])) + |Appended(ops[t..])|
  }

  lemma RoomAfter<T>(ops: seq<Operation<T>>, op: Operation<T>, t: nat)
    requires t <= |ops|
    ensures Room(ops + [op], t) == Room(ops, t) + if op.Append? then 1 else 0
  {
    hide LimitSet, Appended;
    AppendedMore(ops[t..], op);
    assert (ops + [op])[..t] == ops[..t] && (ops + [op])[t..] == ops[t..] + [op];
  }

  lemma AppendedMore<T>(ops: seq<Operation<T>>, op: Operation<T>)
    ensures |Appended(ops + [op])| == |Appended(ops)| + if op.Append? then 1 else 0
  {
    assert (ops + [op])[..|ops|] == ops;
  }

  /** The room some situation left is all used up, and none is exceeded. */
  ghost predicate Fills<T(!new)>(ops: seq<Operation<T>>, k: nat) {
    (forall t :: 0 <= t <= |ops| ==> k <= Room(ops, t)) && exists t :: 0 <= t <= |ops| && k == Room(ops, t)
  }

  lemma RoomNow<T>(ops: seq<Operation<T>>, op: Operation<T>)
    ensures Room(ops + [op], |ops| + 1) == if op.Clear? then 0 else Run(ops + [op]).limit
  {
    hide Run, Perform, LimitSet;
    var all := ops + [op];
    LimitKept(all);
    assert all[..|ops| + 1] == all && all[|ops| + 1..] == [];
  }

  lemma KeptNow<T>(ops: seq<Operation<T>>, op: Operation<T>)
    requires |Run(ops).entries| <= Run(ops).limit
    ensures var before, after := Run(ops), Run(ops + [op]);
            |after.entries| == (if op.Clear? then 0 else
                                var k := |before.entries| + if op.Append? then 1 else 0;
                                if k < after.limit then k else after.limit)
  {
    assert (ops + [op])[..|ops|] == ops;
  }

  lemma StillFills<T(!new)>(ops: seq<Operation<T>>, op: Operation<T>)
    requires Fills(ops, |Run(ops).entries|) && |Run(ops).entries| <= Run(ops).limit
    ensures Fills(ops + [op], |Run(ops + [op]).entries|)
  {
    hide Room, Run;
    var n, all, more := |ops|, ops + [op], if op.Append? then 1 else 0;
    RoomNow(ops, op);
    KeptNow(ops, op);
    forall i | 0 <= i <= n ensures Room(all, i) == Room(ops, i) + more {
      RoomAfter(ops, op, i);
    }
    var t :| 0 <= t <= n && |Run(ops).entries| == Room(ops, t);
    assert Room(all, t) == Room(ops, t) + more;
    assert |Run(all).entries| == Room(all, t) || |Run(all).entries| == Room(all, n + 1);
  }

  lemma StillNewest<T>(log: Log<T>, appended: seq<T>, op: Operation<T>)
    requires log.entries == Newest(appended, |log.entries|) && |log.entries| <= log.limit && |log.entries| <= |appended|
    ensures var r := Perform(log, op);
            var all := appended + if op.Append? then [op.entry] else [];
            r.entries == Newest(all, |r.entries|) && |r.entries| <= r.limit && |r.entries| <= |all|
  {
  }

  /** After any run of appends, limit changes and resets, the log holds the newest entries
      appended, in order, and as many of them as every situation on the way left room for. */
  lemma {:induction false} KeepsNewest<T(!new)>(ops: seq<Operation<T>>)
    ensures var kept := Run(ops).entries;
            kept == Newest(Appended(ops), |kept|) && |kept| <= Run(ops).limit && |kept| <= |Appended(ops)| &&
            Fills(ops, |kept|) && Run(ops).limit == LimitSet(ops)
    decreases |ops|
  {
    LimitKept(ops);
    if |ops| == 0 {
      assert Room(ops, 0) == 0;
    } else {
      hide Fills, Perform, Newest;
      var before, op := ops[..|ops| - 1], ops[|ops| - 1];
      assert ops == before + [op];
      KeepsNewest(before);
      StillFills(before, op);
      StillNewest(Run(before), Appended(before), op);
    }
  }

  // ---- The ring ----

  /** i % n, for a position on a ring of n slots. */
  function Around(i: nat, n: nat): (k: nat)
    requires n > 0
    ensures k < n
  {
    i % n
  }

  lemma AroundOnce(i: nat, n: nat)
    requires i < 2 * n
    ensures Around(i, n) == if i < n then i else i - n
  {
    if i < n { ModUnique(i, n, 0, i); } else { ModUnique(i, n, 1, i - n); }
  }

  /** The slot of entry i of count, oldest first, when the next one goes to slot `next`. */
  function Slot(next: nat, count: nat, n: nat, i: nat): (k: nat)
    requires next < n && i < count <= n
    ensures k < n
  {
    var k := next - count + i;
    if k < 0 then k + n else k
  }

  /** Appending moves the window of slots by one, dropping the oldest only when the ring is full. */
  lemma SlotsMove(next: nat, count: nat, n: nat, i: nat)
    requires next < n && count <= n && i <= count - (if count < n then 0 else 1)
    ensures var next2, count2 := Around(next + 1, n), if count < n then count + 1 else n;
            var slot := Slot(next2, count2, n, i);
            if i == count2 - 1 then slot == next
            else slot == Slot(next, count, n, i + count + 1 - count2) && slot != next
  {
    AroundOnce(next + 1, n);
    hide Around;
  }

  lemma NothingKept<T>(log: Log<T>, entry: T)
    requires log.limit == 0 && log.entries == []
    ensures Perform(log, Append(entry)) == log
  {
  }

  lemma PushedNewest<T>(before: seq<T>, entry: T, after: seq<T>, n: nat)
    requires 0 < n && |before| <= n && |after| == if |before| < n then |before| + 1 else n
    requires forall i :: 0 <= i < |after| ==>
               after[i] == if i == |after| - 1 then entry else before[|before| + 1 - |after| + i]
    ensures Perform(Log(n, before), Append(entry)) == Log(n, after)
  {
  }

  /** The entries a ring holds, oldest first. */
  function Items<T>(ring: seq<T>, next: nat, count: nat): (items: seq<T>)
    requires count <= |ring| && (|ring| > 0 ==> next < |ring|)
    ensures |items| == count
  {
    seq(count, i requires 0 <= i < count => ring[Slot(next, count, |ring|, i)])
  }

  lemma ItemsAppended<T>(ring: seq<T>, next: nat, count: nat, entry: T)
    requires next < |ring| && count <= |ring|
    ensures var n := |ring|;
            Perform(Log(n, Items(ring, next, count)), Append(entry)) ==
            Log(n, Items(ring[next := entry], Around(next + 1, n), if count < n then count + 1 else n))
  {
    hide Around, Slot, Perform;
    var n := |ring|;
    var before := Items(ring, next, count);
    var after := Items(ring[next := entry], Around(next + 1, n), if count < n then count + 1 else n);
    forall i | 0 <= i < |after|
      ensures after[i] == if i == |after| - 1 then entry else before[|before| + 1 - |after| + i]
    {
      SlotsMove(next, count, n, i);
    }
    PushedNewest(before, entry, after, n);
  }

  lemma SetsLimit<T>(log: Log<T>, limit: int)
    ensures Perform(log, SetLimit(limit)) == if limit <= 0 then Log(0, []) else Log(limit, Newest(log.entries, limit))
  {
  }

  lemma NewestIs<T>(s: seq<T>, n: nat)
    ensures Newest(s, n) == if n < |s| then s[|s| - n..] else s
    ensures Newest(s, 0) == []
  {
  }

  lemma OneMore<T>(limit: nat, entries: seq<T>, i: nat)
    requires i < |entries| <= limit
    ensures Perform(Log(limit, entries[..i]), Append(entries[i])) == Log(limit, entries[..i + 1])
  {
  }

  class Ring<T(0)> {
    var history: array<T>
    var historyNext: nat
    var historyCount: nat

    ghost predicate Valid()
      reads this
    {
      && historyCount <= history.Length
      && (history.Length == 0 ==> historyNext == 0)
      && (history.Length > 0 ==> historyNext < history.Length)
    }

    ghost function View(): Log<T>
      requires Valid()
      reads this, history
    {
      Log(history.Length, Items(history[..], historyNext, historyCount))
    }

    constructor ()
      ensures Valid() && View() == Run([]) && fresh(history)
    {
      history, historyNext, historyCount := new T[0], 0, 0;
    }

    method AppendHistory(entry: T)
      requires Valid()
      modifies this`historyNext, this`historyCount, history
      ensures Valid() && View() == Perform(old(View()), Append(entry))
      ensures View().limit == old(View()).limit
      ensures View().entries == if |old(View()).entries| < View().limit then old(View()).entries + [entry]
                                else if View().limit == 0 then [] else old(View()).entries[1..] + [entry]
    {
      if history.Length == 0 {
        NothingKept(View(), entry);
        return;
      }
      ItemsAppended(history[..], historyNext, historyCount, entry);
      hide Around, Items, Perform;
      ghost var was := history[..];
      history[historyNext] := entry;
      assert history[..] == was[historyNext := entry];
      historyNext := Around(historyNext + 1, history.Length);
      if historyCount < history.Length {
        historyCount := historyCount + 1;
      }
    }

    method History() returns (result: seq<T>)
      requires Valid()
      ensures result == View().entries
    {
      if history.Length == 0 || historyCount == 0 {
        return [];
      }
      hide Around;
      result := [];
      var start := historyNext - historyCount;
      if start < 0 {
        start := start + history.Length;
      }
      for i := 0 to historyCount
        invariant result == View().entries[..i]
      {
        AroundOnce(start + i, history.Length);
        var index := Around(start + i, history.Length);
        result := result + [history[index]];
      }
    }

    method SetHistoryLimit(limit: int)
      requires Valid()
      modifies this
      ensures Valid() && View() == Perform(old(View()), SetLimit(limit)) && fresh(history)
      ensures history.Length == if limit > 0 then limit else 0
      ensures var was, now := old(View()).entries, View().entries;
              now == if history.Length < |was| then was[|was| - history.Length..] else was
    {
      hide Perform, Newest, Around, Slot;
      SetsLimit(View(), limit);
      NewestIs(View().entries, if limit > 0 then limit else 0);
      if limit <= 0 {
        history := new T[0];
        historyNext := 0;
        historyCount := 0;
        return;
      }
      var previous := History();
      history := new T[limit];
      historyNext := 0;
      historyCount := 0;
      if |previous| > limit {
        previous := previous[|previous| - limit..];
      }
      for i := 0 to |previous|
        invariant Valid() && fresh(history) && View() == Log(limit, previous[..i])
      {
        OneMore(limit, previous, i);
        AppendHistory(previous[i]);
      }
    }

    /** The part of Reset that concerns the history. */
    method ResetHistory()
      requires Valid()
      modifies `historyNext, `historyCount
      ensures Valid() && View() == Perform(old(View()), Clear)
      ensures View() == Log(history.Length, []) && history == old(history)
    {
      historyNext := 0;
      historyCount := 0;
    }
  }
}
