/** What follows from one event of the running code (cpu.go, op_system.go, op_arithmetic.go): a
    faulting access, a privilege violation, a division by zero, an interrupt. */
module Outcomes {
  import opened Words
  import opened Memory
  import opened BusDecoder
  import opened FastPath
  import opened Bits
  import opened Status
  import opened Interrupts
  import opened Core
  import opened CoreMemory
  import opened ExceptionEntry
  import opened Divide

  // ---- Faulting accesses ----

  /** The error of an access that fails: misalignment comes first, except below the RAM on the
      shortcut; a long whose first word lies in RAM blames its second word. */
  function Refusal(mem: Image, fast: bool, s: Size, a: u24): Fault {
    if Misaligned(s, a) && !(fast && a < mem.offset) then AddressError(a)
    else if s == Long && mem.offset <= a && a + 2 <= mem.offset + |mem.bytes| then BusError(Address24(a + 2))
    else BusError(a)
  }

  lemma AccessFaults(mem: Image, fast: bool, s: Size, a: u32, v: u32)
    requires mem.Inside24()
    ensures var r := Core.Load(mem, fast, s, a); r.Err? ==> r.fault == Refusal(mem, fast, s, Address24(a))
    ensures var f := Core.Store(mem, fast, s, a, v).1; f.Some? ==> f.value == Refusal(mem, fast, s, Address24(a))
  {
    hide FastLoad, FastStore, LoneLoad, LoneStore;
    FastFaults(mem, s, Address24(a), v);
    LoneFaults(mem, s, Address24(a), v);
  }

  lemma FastFaults(mem: Image, s: Size, a: u24, v: u32)
    requires mem.Inside24()
    ensures var r := FastLoad(mem, s, a); r.Err? ==> r.fault == Refusal(mem, true, s, a)
    ensures var f := FastStore(mem, s, a, v).1; f.Some? ==> f.value == Refusal(mem, true, s, a)
  {
    hide Memory.Load, Memory.Store, Address24;
  }

  lemma LoneFaults(mem: Image, s: Size, a: u24, v: u32)
    requires mem.Inside24()
    ensures var r := LoneLoad(mem, s, a); r.Err? ==> r.fault == Refusal(mem, false, s, a)
    ensures var f := LoneStore(mem, s, a, v).1; f.Some? ==> f.value == Refusal(mem, false, s, a)
  {
    if s == Long && a % 2 == 0 {
      LoneLong(mem, a);
      LoneLongStore(mem, a, v);
      hide LoneLoad, LoneStore, Load16, Store16, JoinWords;
    } else {
      LoneCycle(mem, s, a, v);
      hide LoneCycleLoad, LoneCycleStore, Memory.Load, Memory.Store;
    }
  }

  /** The frame describes a failed access: what was tried, where, by which kind of code. */
  ghost predicate Describes(frame: StackFrame, c: State, s: Size, a: u32, ctx: Context, write: bool) {
    && frame.Group0?
    && frame.faultAddress == FaultAddress(Refusal(c.mem, c.fast, s, Address24(a)))
    && (frame.statusWord / 16 % 2 == 1 <==> !write) && (frame.statusWord / 8 % 2 == 1 <==> ctx.notInstruction)
    && frame.statusWord % 8 == ctx.functionCode % 8
    && frame.ir == c.regs.IR && frame.sr == c.regs.SR && frame.pc == c.regs.PC
  }

  /** A read that fails and whose exception can be entered: the handler finds the access described
      in its frame, and runs at the vector of the kind of error. */
  lemma ReadFaultReported(c: State, s: Size, a: u32, ctx: Context)
    requires c.mem.Inside24() && NoStraddle(c.mem, SuperSP(c.regs), 14) && Read(c, s, a, ctx).1.Err?
    requires var (d, r) := Read(c, s, a, ctx); HandleFault(d, r.fault).1.None?
    ensures var (d, r) := Read(c, s, a, ctx);
            var e := HandleFault(d, r.fault).0;
            ReadFrame(e.mem, e.regs.A[7], true).Ok? &&
            Describes(ReadFrame(e.mem, e.regs.A[7], true).value, c, s, a, ctx, false) &&
            Some(e.regs.PC) == HandlerOf(e.mem, if Refusal(c.mem, c.fast, s, Address24(a)).BusError? then 2 else 3)
  {
    hide Core.Load, Address24, ReadFrame, HandlerOf, RaiseGroup0, SuperSP, StatusWord;
    AccessFaults(c.mem, c.fast, s, a, 0);
    RefusalAddress(c.mem, c.fast, s, Address24(a));
    var (d, r) := Read(c, s, a, ctx);
    FaultEntered(d, r.fault);
    StatusWordReads(d.fault);
  }

  /** The same for a write; its first word may be in memory already. */
  lemma WriteFaultReported(c: State, s: Size, a: u32, v: u32, ctx: Context)
    requires c.mem.Inside24() && NoStraddle(c.mem, SuperSP(c.regs), 14) && Write(c, s, a, v, ctx).1.Some?
    requires var (d, f) := Write(c, s, a, v, ctx); HandleFault(d, f.value).1.None?
    ensures var (d, f) := Write(c, s, a, v, ctx);
            var e := HandleFault(d, f.value).0;
            ReadFrame(e.mem, e.regs.A[7], true).Ok? &&
            Describes(ReadFrame(e.mem, e.regs.A[7], true).value, c, s, a, ctx, true) &&
            Some(e.regs.PC) == HandlerOf(e.mem, if Refusal(c.mem, c.fast, s, Address24(a)).BusError? then 2 else 3)
  {
    hide Core.Store, Address24, ReadFrame, HandlerOf, RaiseGroup0, SuperSP, StatusWord;
    AccessFaults(c.mem, c.fast, s, a, v);
    RefusalAddress(c.mem, c.fast, s, Address24(a));
    var (d, f) := Write(c, s, a, v, ctx);
    FaultEntered(d, f.value);
    StatusWordReads(d.fault);
  }

  lemma RefusalAddress(mem: Image, fast: bool, s: Size, a: u24)
    ensures var f := Refusal(mem, fast, s, a); !f.InvalidVector? && Address24(FaultAddress(f)) == FaultAddress(f)
  {
  }

  // ---- What every entry keeps ----

  /** d has been entered from c with a frame of n bytes: memory changes only in those bytes, below
      the supervisor stack pointer; A7 points at them; all other registers, the opcode, the user stack
      pointer and the recorded fault are kept. */
  ghost predicate Preserved(c: State, d: State, n: nat) {
    var top := Ceiling(SuperSP(c.regs));
    && SameOutside(c, d, top - n, top)
    && d.regs.D == c.regs.D && d.regs.A == c.regs.A[7 := Wrap32(SuperSP(c.regs) as int - n)]
    && d.regs.IR == c.regs.IR && UserSP(d.regs) == UserSP(c.regs) && d.fault == c.fault
  }

  /** Bit 13, the supervisor bit, is set and every other bit is as it was. */
  ghost predicate MadeSupervisor(was: u16, sr: u16) {
    forall k: nat :: Bit(sr, k) <==> k == 13 || Bit(was, k)
  }

  lemma SupervisorMade(sr: u16)
    ensures MadeSupervisor(sr, Or16(sr, SR_SUPERVISOR))
  {
    forall k: nat ensures Bit(Or16(sr, SR_SUPERVISOR), k) <==> k == 13 || Bit(sr, k) {
      SupervisorAdded(sr, k);
    }
  }

  lemma OnlyA7(before: Registers, after: Registers)
    requires after.A[..7] == before.A[..7]
    ensures after.A == before.A[7 := after.A[7]]
  {
    assert forall i :: 0 <= i < 7 ==> after.A[i] == after.A[..7][i] == before.A[..7][i];
  }

  lemma WriteKeeps(c: State, s: Size, a: u32, v: u32, ctx: Context)
    ensures var (d, f) := Write(c, s, a, v, ctx); d.regs == c.regs && (f.None? ==> d.fault == c.fault)
  {
    hide Core.Store;
  }

  lemma {:induction false} FrameKeeps(c: State, sp: u32, writes: seq<FrameWrite>)
    ensures var (d, f) := WriteFrame(c, sp, writes); d.regs == c.regs && (f.None? ==> d.fault == c.fault)
    decreases |writes|
  {
    hide Write, Wrap32;
    if writes != [] {
      var w := writes[0];
      WriteKeeps(c, w.size, Wrap32(sp + w.displacement), w.value, SYSTEM_DATA);
      FrameKeeps(Write(c, w.size, Wrap32(sp + w.displacement), w.value, SYSTEM_DATA).0, sp, writes[1..]);
    }
  }

  lemma HandlerFetchKeeps(c: State, vector: nat)
    requires vector <= 255
    ensures var (d, f) := Vectored(c, vector);
            d.regs == c.regs.(PC := d.regs.PC) && d.mem == c.mem && (f.None? ==> d.fault == c.fault) &&
            (f.Some? ==> d.regs.PC == c.regs.PC)
  {
    hide Core.Load;
  }

  /** A group 1/2 entry leaves every data register, A0 to A6 and the opcode alone, and so does one that
      fails: it has installed SR, kept PC and moved A7 by one or both pushes. */
  lemma OthersKept(c: State, vector: nat, newSR: u16, pc: u32)
    requires vector <= 255
    ensures var (d, f) := RaiseException(c, vector, newSR, pc);
            d.regs.D == c.regs.D && d.regs.A[..7] == c.regs.A[..7] && d.regs.IR == c.regs.IR &&
            d.regs.SR == newSR && (f.None? ==> d.fault == c.fault) && (f.Some? ==> d.regs.PC == c.regs.PC)
  {
    hide Write, Read, Wrap32, Supervisor;
    var c0 := c.(regs := SetSR(c.regs, newSR));
    PushKeeps(c0, Long, pc);
    var c1 := PushException(c0, Long, pc).0;
    PushKeeps(c1, Word, c.regs.SR);
    HandlerFetchKeeps(PushException(c1, Word, c.regs.SR).0, vector);
    hide Vectored, PushException;
  }

  lemma PushKeeps(c: State, s: Size, v: u32)
    ensures var (d, f) := PushException(c, s, v);
            d.regs == WithA7(c.regs, Wrap32(c.regs.A[7] as int - s.Bytes())) && (f.None? ==> d.fault == c.fault)
  {
    hide Write, Wrap32;
    var sp := Wrap32(c.regs.A[7] - s.Bytes());
    WriteKeeps(c.(regs := WithA7(c.regs, sp)), s, sp, v, SYSTEM_DATA);
  }

  /** So does the entry of a bus or address error. */
  lemma OthersKeptGroup0(c: State, vector: nat, newSR: u16)
    requires vector <= 255
    ensures var (d, f) := RaiseGroup0(c, vector, newSR);
            d.regs.D == c.regs.D && d.regs.A[..7] == c.regs.A[..7] && d.regs.IR == c.regs.IR &&
            d.regs.SR == newSR && (f.None? ==> d.fault == c.fault) && (f.Some? ==> d.regs.PC == c.regs.PC)
  {
    hide Supervisor, Wrap32, Group0Frame;
    var regs := SetSR(c.regs, newSR);
    var sp := Wrap32((regs.A[7] as int) - 14);
    var c0 := c.(regs := WithA7(regs, sp));
    FrameKeeps(c0, sp, Group0Frame(c.fault, c.regs.SR));
    HandlerFetchKeeps(WriteFrame(c0, sp, Group0Frame(c.fault, c.regs.SR)).0, vector);
    hide Vectored, WriteFrame;
  }

  /** What is recorded when the entry itself faults: a push is a write of supervisor data, the fetch of
      the handler a read of supervisor program, neither made by the instruction. */
  lemma EntryFaultRecorded(c: State, s: Size, v: u32, vector: nat)
    requires vector <= 255
    ensures var (d, f) := PushException(c, s, v);
            f.Some? ==>
              d.fault == FaultInfo(Address24(FaultAddress(f.value)), c.regs.PC, c.regs.IR, 5, true, true)
    ensures var (d, f) := Vectored(c, vector);
            f.Some? ==>
              d.fault == FaultInfo(Address24(FaultAddress(f.value)), c.regs.PC, c.regs.IR, 6, true, false)
  {
    hide Core.Load, Core.Store, Wrap32, Address24, FaultAddress;
  }

  // ---- Bus and address errors ----

  /** The error f has been entered from c: the frame describes it, and the handler of its kind runs in
      supervisor state with the interrupt mask, trace bit and condition codes as they were. */
  ghost predicate Reported(c: State, d: State, f: Fault) {
    && Preserved(c, d, 14) && MadeSupervisor(c.regs.SR, d.regs.SR)
    && ReadFrame(d.mem, d.regs.A[7], true) ==
       Ok(Group0(Address24(d.regs.A[7]), StatusWord(c.fault), c.fault.address, c.fault.ir, c.regs.SR, c.fault.pc))
    && Some(d.regs.PC) == HandlerOf(d.mem, if f.BusError? then 2 else 3)
  }

  lemma FaultEntered(c: State, f: Fault)
    requires c.mem.Inside24() && NoStraddle(c.mem, SuperSP(c.regs), 14) && !f.InvalidVector? &&
             HandleFault(c, f).1.None?
    ensures Reported(c, HandleFault(c, f).0, f)
  {
    var sr := Or16(c.regs.SR, SR_SUPERVISOR);
    ExceptionSR(c.regs.SR);
    SupervisorMade(c.regs.SR);
    hide RaiseGroup0, ReadFrame, HandlerOf, Address24, SuperSP, UserSP, StatusWord, Supervisor, SameOutside, Holds,
         Wrap32, MadeSupervisor, Or16;
    var vector := if f.BusError? then XBUSERROR else XADDRESSERROR;
    Group0Outcome(c, vector, sr);
    Group0ReadsBack(c, vector, sr);
    EnteredGroup0(c, vector, sr);
    OthersKeptGroup0(c, vector, sr);
    OnlyA7(c.regs, RaiseGroup0(c, vector, sr).0.regs);
  }

  /** Anything else is handed back and changes nothing. */
  lemma OtherFaultsReturned(c: State, vector: u32)
    ensures HandleFault(c, InvalidVector(vector)) == (c, Some(InvalidVector(vector)))
  {
  }

  // ---- Synchronous exceptions ----

  /** The exception is entered from c: the frame holds the interrupted SR and PC, the handler of the
      vector runs in supervisor state with every other bit of SR kept, and nothing else changes. */
  ghost predicate Trapped(c: State, d: State, vector: nat)
    requires vector <= 255
  {
    && Preserved(c, d, 6) && MadeSupervisor(c.regs.SR, d.regs.SR)
    && ReadFrame(d.mem, d.regs.A[7], false) == Ok(Group12(Address24(d.regs.A[7]), c.regs.SR, c.regs.PC))
    && Some(d.regs.PC) == HandlerOf(d.mem, vector)
  }

  lemma ExceptionTraps(c: State, vector: nat)
    requires c.mem.Inside24() && vector <= 255 && NoStraddle(c.mem, SuperSP(c.regs), 6) &&
             Core.Exception(c, vector).1.None?
    ensures Trapped(c, Core.Exception(c, vector).0, vector)
  {
    var sr := Or16(c.regs.SR, SR_SUPERVISOR);
    ExceptionSR(c.regs.SR);
    SupervisorMade(c.regs.SR);
    hide ReadFrame, HandlerOf, Address24, SuperSP, UserSP, Supervisor, Mask, RaiseException, SameOutside, Holds, Wrap32,
         Or16, MadeSupervisor;
    EntryOutcome(c, vector, sr, c.regs.PC);
    FrameReadsBack(c, vector, sr, c.regs.PC);
    Entered(c, vector, sr, c.regs.PC);
    OthersKept(c, vector, sr, c.regs.PC);
    OnlyA7(c.regs, RaiseException(c, vector, sr, c.regs.PC).0.regs);
  }

  /** RTE in user state is a privilege violation and pops nothing. */
  lemma UserRteTraps(c: State)
    requires c.mem.Inside24() && NoStraddle(c.mem, SuperSP(c.regs), 6) && !Supervisor(c.regs.SR) && Rte(c).1.None?
    ensures Trapped(c, Rte(c).0, 8)
  {
    hide Core.Exception, Trapped, Supervisor;
    ExceptionTraps(c, XPRIVVIOLATION);
  }

  /** Division by zero leaves the dividend alone and traps. */
  lemma ZeroDivideTraps(c: State, reg: nat, signed: bool)
    requires reg < 8 && c.mem.Inside24() && NoStraddle(c.mem, SuperSP(c.regs), 6) &&
             DivideStep(c, reg, 0, signed).1.None?
    ensures Trapped(c, DivideStep(c, reg, 0, signed).0, 5)
  {
    hide Core.Exception, Trapped;
    ExceptionTraps(c, XDIVBYZERO);
  }

  // ---- Interrupts ----

  /** The interrupt level is in bits 8 to 10, the supervisor bit is set, every other bit is as it was. */
  ghost predicate MaskedAt(was: u16, sr: u16, level: nat) {
    forall k: nat :: Bit(sr, k) <==> k == 13 || (if 8 <= k < 11 then Bit(level, k - 8) else Bit(was, k))
  }

  lemma MaskedAtLevel(sr: u16, level: nat)
    requires level <= 7
    ensures MaskedAt(sr, InterruptSR(sr, level), level)
  {
    forall k: nat
      ensures Bit(InterruptSR(sr, level), k) <==>
              k == 13 || (if 8 <= k < 11 then Bit(level, k - 8) else Bit(sr, k))
    {
      InterruptBit(sr, level, k);
    }
  }

  /** The check between instructions: nothing happens unless something waits above the mask; then
      the oldest request of the highest level leaves its queue, the mask rises to its level and the
      handler of its vector runs, with the interrupted SR and PC in the frame. The frame, A7, PC and the
      mask and supervisor bits of SR are all that changes. */
  lemma InterruptAccepted(c: State, q: Queues)
    requires c.mem.Inside24() && NoStraddle(c.mem, SuperSP(c.regs), 6)
    ensures var (d, rest, f) := CheckInterrupts(c, q);
            var mask := Mask(c.regs.SR);
            ((forall l :: mask < l <= 7 ==> q[l] == []) ==> d == c && rest == q && f.None?) &&
            forall level: nat :: mask < level <= 7 && q[level] != [] && (forall l :: level < l <= 7 ==> q[l] == []) ==>
              rest == q[level := q[level][1..]] &&
              (f.None? ==> Preserved(c, d, 6) && MaskedAt(c.regs.SR, d.regs.SR, level) &&
                           Supervisor(d.regs.SR) && Mask(d.regs.SR) == level &&
                           Some(d.regs.PC) == HandlerOf(d.mem, q[level][0].vector) &&
                           ReadFrame(d.mem, d.regs.A[7], false) ==
                             Ok(Group12(Address24(d.regs.A[7]), c.regs.SR, c.regs.PC)))
  {
    var mask := Mask(c.regs.SR);
    ServedIsOldestOfHighest(q, mask);
    hide ReadFrame, HandlerOf, Address24, SuperSP, UserSP, Supervisor, Mask, RaiseException, InterruptSR, SameOutside,
         Holds, Wrap32, MaskedAt;
    var r := Served(q, mask);
    if r.Some? {
      var level, vector := r.value.level, r.value.interrupt.vector;
      var sr := InterruptSR(c.regs.SR, level);
      InterruptSRMask(c.regs.SR, level);
      MaskedAtLevel(c.regs.SR, level);
      if RaiseException(c, vector, sr, c.regs.PC).1.None? {
        OthersKept(c, vector, sr, c.regs.PC);
        OnlyA7(c.regs, RaiseException(c, vector, sr, c.regs.PC).0.regs);
        EntryOutcome(c, vector, sr, c.regs.PC);
        FrameReadsBack(c, vector, sr, c.regs.PC);
        Entered(c, vector, sr, c.regs.PC);
      }
    }
  }

  /** From request to handler: a request above the mask, with nothing waiting at its level or above,
      is taken by the next check. It runs the handler of its own vector number, or of vector 24 plus
      its level if it has none, masked at its level, and leaves the queues as they were before it. */
  lemma RequestReachesHandler(c: State, q: Queues, level: nat, vector: Option<u8>)
    requires c.mem.Inside24() && NoStraddle(c.mem, SuperSP(c.regs), 6)
    requires Mask(c.regs.SR) < level <= 7 && forall l :: level <= l <= 7 ==> q[l] == []
    ensures var r := Requested(level, vector);
            r.Some? &&
            var (d, rest, f) := CheckInterrupts(c, Enqueue(q, r.value));
            rest == q &&
            (f.None? ==> Mask(d.regs.SR) == level &&
                         Some(d.regs.PC) == HandlerOf(d.mem, match vector case None => 24 + level case Some(v) => v))
  {
    hide HandlerOf, Ceiling, SuperSP, Mask, CheckInterrupts, NoStraddle;
    var r := Requested(level, vector).value;
    var waiting := Enqueue(q, r);
    JustQueued(q, r);
    AcceptedAt(c, waiting, level);
  }

  lemma JustQueued(q: Queues, r: IRQ)
    requires 1 <= r.level <= 7 && forall l :: r.level <= l <= 7 ==> q[l] == []
    ensures var waiting := Enqueue(q, r);
            waiting[r.level] == [r.interrupt] && (forall l :: r.level < l <= 7 ==> waiting[l] == []) &&
            waiting[r.level := waiting[r.level][1..]] == q
  {
    var waiting := Enqueue(q, r);
    assert waiting[r.level][1..] == q[r.level];
  }

  lemma AcceptedAt(c: State, q: Queues, level: nat)
    requires c.mem.Inside24() && NoStraddle(c.mem, SuperSP(c.regs), 6)
    requires Mask(c.regs.SR) < level <= 7 && q[level] != [] && forall l :: level < l <= 7 ==> q[l] == []
    ensures var (d, rest, f) := CheckInterrupts(c, q);
            rest == q[level := q[level][1..]] &&
            (f.None? ==> Mask(d.regs.SR) == level && Some(d.regs.PC) == HandlerOf(d.mem, q[level][0].vector))
  {
    hide ReadFrame, HandlerOf, Address24, SuperSP, UserSP, Supervisor, Mask, CheckInterrupts, NoStraddle, MaskedAt,
         Preserved;
    InterruptAccepted(c, q);
  }
}
