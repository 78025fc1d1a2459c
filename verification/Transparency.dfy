/** The CPU's memory shortcut (cpu.go) over whole runs: for which RAMs a machine that uses it and
    one that goes through the bus can never be told apart. */
module Transparency {
  import opened Words
  import opened Memory
  import opened FastPath
  import opened Interrupts
  import opened Bits
  import opened Status
  import opened Core
  import opened CoreMemory
  import opened ExceptionRuns

  predicate Transparent(mem: Image) {
    mem.Inside24() && mem.offset <= 1 && |mem.bytes| < 0x100_0000
  }

  /** Exactly these RAMs answer every read alike on both ways. */
  lemma TransparentExactly(mem: Image)
    requires mem.Inside24()
    ensures Transparent(mem) <==> forall s: Size, a: u24 :: FastLoad(mem, s, a) == LoneLoad(mem, s, a)
  {
    forall s: Size, a: u24
      ensures FastLoad(mem, s, a) == LoneLoad(mem, s, a) <==> !OddBelow(mem, s, a) && !WrapsAround(mem, s, a)
    {
      FastLoadRefines(mem, s, a);
    }
    hide FastLoad, LoneLoad;
    if !Transparent(mem) {
      var (s, a: u24) := if mem.offset > 1 then (Word, 1) else (Long, 0xff_fffe);
      assert FastLoad(mem, s, a) != LoneLoad(mem, s, a);
    }
  }

  lemma SameAccess(mem: Image, s: Size, a: u32, v: u32)
    requires Transparent(mem)
    ensures Core.Load(mem, true, s, a) == Core.Load(mem, false, s, a)
    ensures Core.Store(mem, true, s, a, v) == Core.Store(mem, false, s, a, v)
  {
    FastLoadRefines(mem, s, Address24(a));
    FastStoreRefines(mem, s, Address24(a), v);
    hide FastLoad, LoneLoad, FastStore, LoneStore;
  }

  /** The same machine without the shortcut. */
  function Slow(c: State): State { c.(fast := false) }

  lemma ReadSame(c: State, s: Size, a: u32, ctx: Context)
    requires Transparent(c.mem)
    ensures var (d, r) := Core.Read(c, s, a, ctx); Core.Read(Slow(c), s, a, ctx) == (Slow(d), r) && d.mem == c.mem
  {
    SameAccess(c.mem, s, a, 0);
    hide Core.Load, Core.Store;
  }

  lemma WriteSame(c: State, s: Size, a: u32, v: u32, ctx: Context)
    requires Transparent(c.mem)
    ensures var (d, f) := Core.Write(c, s, a, v, ctx);
            Core.Write(Slow(c), s, a, v, ctx) == (Slow(d), f) && Transparent(d.mem)
  {
    SameAccess(c.mem, s, a, v);
    hide Core.Load, Core.Store;
  }

  lemma PushSame(c: State, s: Size, v: u32)
    requires Transparent(c.mem)
    ensures var (d, f) := PushException(c, s, v); PushException(Slow(c), s, v) == (Slow(d), f) && Transparent(d.mem)
  {
    var sp := Wrap32(c.regs.A[7] - s.Bytes());
    WriteSame(c.(regs := WithA7(c.regs, sp)), s, sp, v, SYSTEM_DATA);
    hide Core.Write;
  }

  lemma PopSame(c: State, s: Size)
    requires Transparent(c.mem)
    ensures var (d, r) := Pop(c, s); Pop(Slow(c), s) == (Slow(d), r) && d.mem == c.mem
  {
    ReadSame(c, s, c.regs.A[7], DataContext(c.regs));
    hide Core.Read;
  }

  lemma VectoredSame(c: State, vector: nat)
    requires Transparent(c.mem) && vector <= 255
    ensures var (d, f) := Vectored(c, vector); Vectored(Slow(c), vector) == (Slow(d), f) && d.mem == c.mem
  {
    ReadSame(c, Long, vector * 4, SYSTEM_PROGRAM);
    ReadSame(Core.Read(c, Long, vector * 4, SYSTEM_PROGRAM).0, Long, XUNINITIALIZEDINT * 4, SYSTEM_PROGRAM);
    hide Core.Read;
  }

  lemma RaiseSame(c: State, vector: u32, newSR: u16, pc: u32)
    requires Transparent(c.mem)
    ensures var (d, f) := RaiseException(c, vector, newSR, pc);
            RaiseException(Slow(c), vector, newSR, pc) == (Slow(d), f) && Transparent(d.mem)
  {
    hide PushException, Vectored, SetSR, Transparent;
    var c0 := c.(regs := SetSR(c.regs, newSR));
    PushSame(c0, Long, pc);
    var c1 := PushException(c0, Long, pc).0;
    PushSame(c1, Word, c.regs.SR);
    if vector <= 255 { VectoredSame(PushException(c1, Word, c.regs.SR).0, vector); }
  }

  lemma {:induction false} FrameSame(c: State, sp: u32, writes: seq<FrameWrite>)
    requires Transparent(c.mem)
    ensures var (d, f) := WriteFrame(c, sp, writes);
            WriteFrame(Slow(c), sp, writes) == (Slow(d), f) && Transparent(d.mem)
    decreases |writes|
  {
    hide Core.Write, Transparent, Wrap32;
    if writes != [] {
      var w := writes[0];
      WriteSame(c, w.size, Wrap32(sp + w.displacement), w.value, SYSTEM_DATA);
      FrameSame(Core.Write(c, w.size, Wrap32(sp + w.displacement), w.value, SYSTEM_DATA).0, sp, writes[1..]);
    }
  }

  lemma Group0Same(c: State, vector: nat, newSR: u16)
    requires Transparent(c.mem) && vector <= 255
    ensures var (d, f) := RaiseGroup0(c, vector, newSR);
            RaiseGroup0(Slow(c), vector, newSR) == (Slow(d), f) && Transparent(d.mem)
  {
    hide WriteFrame, Vectored, SetSR, Transparent, Group0Frame;
    var regs := SetSR(c.regs, newSR);
    var sp := Wrap32((regs.A[7] as int) - 14);
    var c0 := c.(regs := WithA7(regs, sp));
    FrameSame(c0, sp, Group0Frame(c.fault, c.regs.SR));
    VectoredSame(WriteFrame(c0, sp, Group0Frame(c.fault, c.regs.SR)).0, vector);
  }

  lemma RteSame(c: State)
    requires Transparent(c.mem)
    ensures var (d, f) := Rte(c); Rte(Slow(c)) == (Slow(d), f) && Transparent(d.mem)
  {
    hide Pop, RaiseException, Transparent;
    RaiseSame(c, XPRIVVIOLATION, Or16(c.regs.SR, SR_SUPERVISOR), c.regs.PC);
    PopSame(c, Word);
    PopSame(Pop(c, Word).0, Long);
  }

  // ---- Instructions: accesses chosen from what is known so far ----

  datatype Request =
    | Fetch(size: Size)                                               // popPc, a word or a long at PC
    | ReadFrom(size: Size, address: u32, ctx: Context)
    | WriteTo(size: Size, address: u32, value: u32, ctx: Context)

  datatype Answer = Loaded(result: Result<u32>) | Stored(error: Option<Fault>)

  /** The registers the code has set by now, and the access it makes next, if any. */
  datatype Choice = Choice(regs: Registers, request: Option<Request>)

  /** Running code sees its registers, the recorded fault and the answers to its accesses so far. */
  type Code = (Registers, FaultInfo, seq<Answer>) -> Choice

  function ProgramContext(regs: Registers): Context {
    Context(if Supervisor(regs.SR) then 6 else 2, false)
  }

  /** An instruction fetch; the shortcut has its own test order here. */
  function FetchProgram(c: State, s: Size): (State, Result<u32>) {
    var a := Address24(c.regs.PC);
    var r := if c.fast && s != Byte then FastFetch(c.mem, s, a) else Core.Load(c.mem, c.fast, s, c.regs.PC);
    match r case Ok(_) => (c, r) case Err(f) => (RecordFault(c, f, ProgramContext(c.regs), false), r)
  }

  /** A fetch gives what lies at PC, or records itself as an instruction's read of program space. */
  lemma FetchOutcome(c: State, s: Size)
    requires c.mem.Inside24() && s != Byte
    ensures var (d, r) := FetchProgram(c, s);
            if r.Ok? then d == c
            else d == c.(fault := FaultInfo(Address24(FaultAddress(r.fault)), c.regs.PC, c.regs.IR,
                                            if Bit(c.regs.SR, 13) then 6 else 2, false, false))
    ensures Inside(c.mem, s, c.regs.PC) ==>
              FetchProgram(c, s).1 == Ok(Memory.Load(c.mem.bytes, Address24(c.regs.PC) - c.mem.offset, s))
  {
    hide FastLoad, LoneLoad, Memory.Load, Address24, Bit, FaultAddress;
    FlagBits(c.regs.SR);
    if Inside(c.mem, s, c.regs.PC) {
      LoadInside(c.mem, c.fast, s, c.regs.PC);
    }
  }

  function Perform(c: State, request: Request): (State, Answer) {
    match request
    case Fetch(size) => var (d, r) := FetchProgram(c, size); (d, Loaded(r))
    case ReadFrom(size, address, ctx) => var (d, r) := Core.Read(c, size, address, ctx); (d, Loaded(r))
    case WriteTo(size, address, value, ctx) => var (d, f) := Core.Write(c, size, address, value, ctx); (d, Stored(f))
  }

  /** The code's next n accesses, or fewer if it makes fewer. */
  function Execute(c: State, code: Code, answers: seq<Answer>, n: nat): State
    decreases n
  {
    if n == 0 then c
    else
      var choice := code(c.regs, c.fault, answers);
      var d := c.(regs := choice.regs);
      match choice.request
      case None => d
      case Some(request) =>
        var (e, answer) := Perform(d, request);
        Execute(e, code, answers + [answer], n - 1)
  }

  lemma PerformSame(c: State, request: Request)
    requires Transparent(c.mem)
    ensures var (d, a) := Perform(c, request); Perform(Slow(c), request) == (Slow(d), a) && Transparent(d.mem)
  {
    match request {
      case Fetch(size) =>
        SameAccess(c.mem, size, c.regs.PC, 0);
        if size != Byte { FastFetchRefines(c.mem, size, Address24(c.regs.PC)); }
        hide FastFetch, FastLoad, LoneLoad;
      case ReadFrom(size, address, ctx) => ReadSame(c, size, address, ctx); hide Core.Read;
      case WriteTo(size, address, value, ctx) => WriteSame(c, size, address, value, ctx); hide Core.Write;
    }
  }

  /** Whatever the code does, access by access, it gets the same answers on both machines. */
  lemma {:induction false} ExecuteSame(c: State, code: Code, answers: seq<Answer>, n: nat)
    requires Transparent(c.mem)
    ensures var d := Execute(c, code, answers, n); Execute(Slow(c), code, answers, n) == Slow(d) && Transparent(d.mem)
    decreases n
  {
    hide Transparent, Perform;
    if n > 0 {
      var choice := code(c.regs, c.fault, answers);
      if choice.request.Some? {
        var d := c.(regs := choice.regs);
        PerformSame(d, choice.request.value);
        var (e, answer) := Perform(d, choice.request.value);
        ExecuteSame(e, code, answers + [answer], n - 1);
      }
    }
  }

  // ---- Runs ----

  /** A step of the machine other than the code's own work. */
  type Interruption = s: Step | !s.Work? witness Check

  datatype Event = Interruption(step: Interruption) | Instructions(code: Code, accesses: nat)

  function Happens(m: Machine, e: Event): Machine {
    match e
    case Interruption(step) => Next(m, step).0
    case Instructions(code, accesses) => m.(core := Execute(m.core, code, [], accesses))
  }

  function Play(m: Machine, events: seq<Event>): Machine
    decreases |events|
  {
    if |events| == 0 then m else Play(Happens(m, events[0]), events[1..])
  }

  function SlowMachine(m: Machine): Machine { m.(core := Slow(m.core)) }

  lemma StepSame(m: Machine, s: Interruption)
    requires Transparent(m.core.mem)
    ensures var (n, ok) := Next(m, s); Next(SlowMachine(m), s) == (SlowMachine(n), ok) && Transparent(n.core.mem)
  {
    hide RaiseException, RaiseGroup0, Rte, Transparent, Or16, ContextOf, Wrap32;
    var c, sr := m.core, m.core.regs.SR;
    match s {
      case Trap(number, stackedPC) => RaiseSame(c, number, Or16(sr, SR_SUPERVISOR), stackedPC);
      case Fault(_) =>
        Group0Same(c, XBUSERROR, Or16(sr, SR_SUPERVISOR));
        Group0Same(c, XADDRESSERROR, Or16(sr, SR_SUPERVISOR));
      case Check =>
        var r := Served(m.queues, Mask(sr));
        if r.Some? { RaiseSame(c, r.value.interrupt.vector, InterruptSR(sr, r.value.level), c.regs.PC); }
      case Return => RteSame(c);
      case _ =>
    }
  }

  lemma EventSame(m: Machine, e: Event)
    requires Transparent(m.core.mem)
    ensures Happens(SlowMachine(m), e) == SlowMachine(Happens(m, e)) && Transparent(Happens(m, e).core.mem)
  {
    hide Next, Execute, Transparent;
    match e {
      case Interruption(step) => StepSame(m, step);
      case Instructions(code, accesses) => ExecuteSame(m.core, code, [], accesses);
    }
  }

  /** The main result: on such a RAM no run of instructions, traps, faults, interrupts and returns
      ever distinguishes the shortcut from the bus: registers, memory, queues and recorded fault
      are the same after every one of them. */
  lemma {:induction false} RunSame(m: Machine, events: seq<Event>)
    requires Transparent(m.core.mem)
    ensures Play(SlowMachine(m), events) == SlowMachine(Play(m, events))
    decreases |events|
  {
    hide Transparent, Happens, SlowMachine;
    if |events| > 0 {
      EventSame(m, events[0]);
      RunSame(Happens(m, events[0]), events[1..]);
    }
  }
}
