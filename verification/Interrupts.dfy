/** The interrupt controller (interrupts.go): one FIFO per level and a cached highest level. */
module Interrupts {
  import opened Words
  import opened Status

  const AUTO_VECTOR_BASE := 24

  datatype PendingInterrupt = PendingInterrupt(vector: u8, autoVector: bool)

  /** Index 0 is never used; levels run from 1 to 7. */
  type Queues = q: seq<seq<PendingInterrupt>> | |q| == 8 witness [[], [], [], [], [], [], [], []]

  const NO_REQUESTS: Queues := [[], [], [], [], [], [], [], []]

  /** The highest level at or below `from` with a request; 0 when there is none. */
  function HighestFrom(q: Queues, from: nat): (level: nat)
    requires from <= 7
    ensures level <= from
    ensures level > 0 ==> q[level] != []
    ensures forall l :: level < l <= from ==> q[l] == []
  {
    if from == 0 || q[from] != [] then from else HighestFrom(q, from - 1)
  }

  function Highest(q: Queues): (level: nat) {
    HighestFrom(q, 7)
  }

  datatype IRQ = IRQ(level: nat, interrupt: PendingInterrupt)

  /** The request a caller makes: autovectored without a vector, refused above 7, ignored at 0. */
  function Requested(level: nat, vector: Option<u8>): (r: Option<IRQ>)
    ensures r.Some? ==> 1 <= r.value.level <= 7
  {
    if level == 0 || level > 7 then None
    else match vector
      case None => Some(IRQ(level, PendingInterrupt(AUTO_VECTOR_BASE + level, true)))
      case Some(v) => Some(IRQ(level, PendingInterrupt(v, false)))
  }

  function Enqueue(q: Queues, r: IRQ): Queues
    requires 1 <= r.level <= 7
  {
    q[r.level := q[r.level] + [r.interrupt]]
  }

  /** The request served under a mask: the oldest of the highest level, if that exceeds the mask. */
  function Served(q: Queues, mask: nat): (r: Option<IRQ>)
    ensures r.Some? ==> mask < r.value.level <= 7
  {
    var level := Highest(q);
    if level > mask then Some(IRQ(level, q[level][0])) else None
  }

  function Dequeue(q: Queues, level: nat): Queues
    requires 1 <= level <= 7 && q[level] != []
  {
    q[level := q[level][1..]]
  }

  lemma HighestMeaning(q: Queues, level: nat)
    requires level <= 7 && (level > 0 ==> q[level] != []) && forall l :: level < l <= 7 ==> q[l] == []
    ensures Highest(q) == level
  {
  }

  class InterruptController {
    var requests: Queues
    var maxLevel: nat

    ghost predicate Valid()
      reads this
    {
      maxLevel == Highest(requests) && requests[0] == []
    }

    constructor ()
      ensures Valid() && requests == NO_REQUESTS
    {
      requests, maxLevel := NO_REQUESTS, 0;
    }

    method Reset()
      modifies this
      ensures Valid() && requests == NO_REQUESTS
    {
      requests, maxLevel := NO_REQUESTS, 0;
    }

    method Request(level: u8, vector: Option<u8>) returns (accepted: bool)
      requires Valid()
      modifies this
      ensures Valid() && accepted == (level <= 7)
      ensures if 1 <= level <= 7 then
                requests == old(requests)[level := old(requests)[level] +
                  [PendingInterrupt(if vector.Some? then vector.value else 24 + level, vector.None?)]]
              else requests == old(requests)
      ensures requests == match Requested(level, vector)
                          case None => old(requests)
                          case Some(r) => Enqueue(old(requests), r)
    {
      if level > 7 {
        return false;
      }
      if level == 0 {
        return true;
      }
      ghost var was := requests;
      if level > maxLevel {
        maxLevel := level;
      }
      match vector {
        case None =>
          requests := requests[level := requests[level] + [PendingInterrupt(AUTO_VECTOR_BASE + level, true)]];
        case Some(v) =>
          requests := requests[level := requests[level] + [PendingInterrupt(v, false)]];
      }
      HighestMeaning(requests, maxLevel);
      return true;
    }

    /** Takes the request to serve out of its queue and recomputes the cached level. */
    method Pending(sr: u16) returns (r: Option<IRQ>)
      requires Valid()
      modifies this
      ensures Valid()
      ensures r.None? <==> forall l :: Mask(sr) < l <= 7 ==> old(requests)[l] == []
      ensures r.None? ==> requests == old(requests)
      ensures r.Some? ==> var level := r.value.level;
                Mask(sr) < level <= 7 && (forall l :: level < l <= 7 ==> old(requests)[l] == []) &&
                old(requests)[level] == [r.value.interrupt] + requests[level] &&
                requests == old(requests)[level := requests[level]]
      ensures r == Served(old(requests), Mask(sr))
      ensures requests == if r.Some? then Dequeue(old(requests), r.value.level) else old(requests)
    {
      hide Mask;
      ServedIsOldestOfHighest(requests, Mask(sr));
      var interruptMask := Mask(sr);
      if maxLevel <= interruptMask {
        return None;
      }
      var level := 7;
      while level > 0
        invariant 0 <= level <= 7 && unchanged(this)
        invariant forall l :: level < l <= 7 ==> requests[l] == []
      {
        if requests[level] == [] || level <= interruptMask {
          assert level != Highest(requests);
          level := level - 1;
          continue;
        }
        HighestMeaning(requests, level);
        var interrupt := requests[level][0];
        requests := requests[level := requests[level][1..]];
        maxLevel := 0;
        var l := 7;
        while l > 0
          invariant 0 <= l <= 7 && maxLevel == 0
          invariant requests == old(requests)[level := old(requests)[level][1..]]
          invariant forall k :: l < k <= 7 ==> requests[k] == []
        {
          if |requests[l]| > 0 {
            maxLevel := l;
            break;
          }
          l := l - 1;
        }
        HighestMeaning(requests, maxLevel);
        return Some(IRQ(level, interrupt));
      }
      return None;
    }

    predicate HasPending(sr: u16)
      requires Valid()
      reads this
      ensures HasPending(sr) <==> Served(requests, Mask(sr)).Some?
    {
      maxLevel > Mask(sr)
    }
  }

  // ---- Any run of requests and acceptances between two resets ----

  datatype Operation = Ask(level: nat, vector: Option<u8>) | Take(sr: u16)

  datatype History = History(queues: Queues, asked: seq<IRQ>, served: seq<IRQ>)

  function Perform(h: History, op: Operation): History {
    match op
    case Ask(level, vector) =>
      (match Requested(level, vector)
       case None => h
       case Some(r) => h.(queues := Enqueue(h.queues, r), asked := h.asked + [r]))
    case Take(sr) =>
      match Served(h.queues, Mask(sr))
      case None => h
      case Some(r) => h.(queues := Dequeue(h.queues, r.level), served := h.served + [r])
  }

  function Run(ops: seq<Operation>): History {
    if |ops| == 0 then History(NO_REQUESTS, [], []) else Perform(Run(ops[..|ops| - 1]), ops[|ops| - 1])
  }

  /** The interrupts of one level, in order. */
  function OfLevel(rs: seq<IRQ>, level: nat): seq<PendingInterrupt> {
    if |rs| == 0 then []
    else OfLevel(rs[..|rs| - 1], level) + if rs[|rs| - 1].level == level then [rs[|rs| - 1].interrupt] else []
  }

  /** No request is lost, duplicated or overtaken within its level: what was asked at a level is
      what was served there followed by what still waits there. */
  lemma {:induction false} RequestsConserved(ops: seq<Operation>, level: nat)
    requires 1 <= level <= 7
    ensures var h := Run(ops); OfLevel(h.asked, level) == OfLevel(h.served, level) + h.queues[level]
  {
    if |ops| > 0 {
      hide Perform;
      RequestsConserved(ops[..|ops| - 1], level);
      OperationConserves(Run(ops[..|ops| - 1]), ops[|ops| - 1], level);
    }
  }

  lemma OperationConserves(h: History, op: Operation, level: nat)
    requires 1 <= level <= 7 && OfLevel(h.asked, level) == OfLevel(h.served, level) + h.queues[level]
    ensures var g := Perform(h, op); OfLevel(g.asked, level) == OfLevel(g.served, level) + g.queues[level]
  {
    hide Mask, Enqueue, Dequeue, OfLevel, Highest;
    match op {
      case Ask(l, vector) =>
        if Requested(l, vector).Some? { AskConserves(h, Requested(l, vector).value, level); }
      case Take(sr) =>
        ServedIsOldestOfHighest(h.queues, Mask(sr));
        if Served(h.queues, Mask(sr)).Some? { TakeConserves(h, Served(h.queues, Mask(sr)).value, level); }
    }
  }

  lemma AskConserves(h: History, r: IRQ, level: nat)
    requires 1 <= level <= 7 && 1 <= r.level <= 7 &&
             OfLevel(h.asked, level) == OfLevel(h.served, level) + h.queues[level]
    ensures OfLevel(h.asked + [r], level) == OfLevel(h.served, level) + Enqueue(h.queues, r)[level]
  {
    assert (h.asked + [r])[..|h.asked|] == h.asked;
  }

  lemma TakeConserves(h: History, r: IRQ, level: nat)
    requires 1 <= level <= 7 && 1 <= r.level <= 7 && h.queues[r.level] != [] && h.queues[r.level][0] == r.interrupt
    requires OfLevel(h.asked, level) == OfLevel(h.served, level) + h.queues[level]
    ensures OfLevel(h.asked, level) == OfLevel(h.served + [r], level) + Dequeue(h.queues, r.level)[level]
  {
    assert (h.served + [r])[..|h.served|] == h.served;
    assert h.queues[r.level] == [h.queues[r.level][0]] + h.queues[r.level][1..];
  }

  /** What is served was the oldest waiting request of the highest waiting level, above the mask. */
  lemma ServedIsOldestOfHighest(q: Queues, mask: nat)
    ensures Served(q, mask).Some? <==> exists l :: mask < l <= 7 && q[l] != []
    ensures Served(q, mask).Some? ==>
              var r := Served(q, mask).value;
              q[r.level] != [] && q[r.level][0] == r.interrupt && forall l :: r.level < l <= 7 ==> q[l] == []
  {
  }
}
