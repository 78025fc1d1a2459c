/** Runs of exceptions, interrupts and returns: the frames kept in stack memory behave as an
    abstract stack of interrupted contexts. */
module ExceptionRuns {
  import opened Words
  import opened Memory
  import opened Status
  import opened Interrupts
  import opened Core
  import opened CoreMemory
  import opened ExceptionEntry

  /** What an exception interrupts and a return must bring back. */
  datatype Saved = Saved(pc: u32, sr: u16, userSP: u32, superSP: u32)

  function ContextOf(regs: Registers): Saved {
    Saved(regs.PC, regs.SR, UserSP(regs), SuperSP(regs))
  }

  /** One active exception. `base` is where its SR word lies, followed by the PC; `level` is the
      interrupt level, or 0 for a synchronous exception. */
  datatype Frame = Frame(base: u32, saved: Saved, level: nat)

  datatype Machine = Machine(core: State, queues: Queues, frames: seq<Frame>)

  datatype Step =
    | Trap(number: u32, stackedPC: u32)             // any group 1/2 exception of the running code
    | Fault(fault: Words.Fault)                     // a bus or address error just recorded
    | Ask(level: nat, vector: Option<u8>)           // a device requests an interrupt
    | Check                                         // the check between two instructions
    | Return                                        // RTE
    | Work(next: State)                             // anything else the running code does

  function Top(frames: seq<Frame>): Frame
    requires frames != []
  {
    frames[|frames| - 1]
  }

  /** One step, and whether it completed without a fault. */
  function Next(m: Machine, s: Step): (Machine, bool) {
    var regs := m.core.regs;
    match s
    case Trap(number, stackedPC) =>
      var (c, f) := RaiseException(m.core, number, Or16(regs.SR, SR_SUPERVISOR), stackedPC);
      (Machine(c, m.queues, m.frames + [Frame(c.regs.A[7], ContextOf(regs).(pc := stackedPC), 0)]), f.None?)
    case Fault(fault) =>
      var (c, f) := HandleFault(m.core, fault);
      var frame := Frame(Wrap32(c.regs.A[7] as int + 8), ContextOf(regs).(pc := m.core.fault.pc), 0);
      (Machine(c, m.queues, m.frames + [frame]), f.None?)
    case Ask(level, vector) =>
      (m.(queues := match Requested(level, vector) case None => m.queues case Some(r) => Enqueue(m.queues, r)), true)
    case Check =>
      var (c, q, f) := CheckInterrupts(m.core, m.queues);
      var r := Served(m.queues, Mask(regs.SR));
      var frames := if r.None? then m.frames else m.frames + [Frame(c.regs.A[7], ContextOf(regs), r.value.level)];
      (Machine(c, q, frames), f.None?)
    case Return =>
      var (c, f) := Rte(m.core);
      (Machine(c, m.queues, if m.frames == [] then [] else m.frames[..|m.frames| - 1]), f.None?)
    case Work(next) => (m.(core := next), true)
  }

  /** n bytes below the supervisor stack pointer do not straddle the end of the address space, and
      with frames in place the stack does not continue at the other end. */
  predicate Room(m: Machine, n: nat) {
    NoStraddle(m.core.mem, SuperSP(m.core.regs), n) && (m.frames != [] ==> Address24(SuperSP(m.core.regs)) > 0)
  }

  /** What the running code must do, and all it must do, for the stack discipline to hold:
      entries complete (EntryExactly and Group0Exactly say when) and have room below the
      supervisor stack pointer; a handler leaves the bytes of the active frames alone, does not
      raise the stack pointer above its own, and returns with the stack pointer there. */
  ghost predicate Legal(m: Machine, s: Step) {
    var regs := m.core.regs;
    match s
    case Trap(_, _) => Room(m, 6) && Next(m, s).1
    case Fault(fault) => !fault.InvalidVector? && Room(m, 14) && Next(m, s).1
    case Ask(_, _) => true
    case Check => Served(m.queues, Mask(regs.SR)).None? || (Room(m, 6) && Next(m, s).1)
    case Return => m.frames != [] && Supervisor(regs.SR) && regs.A[7] == Top(m.frames).base
    case Work(next) =>
      && next.fast == m.core.fast
      && next.mem.offset == m.core.mem.offset && |next.mem.bytes| == |m.core.mem.bytes|
      && (m.frames != [] ==> Address24(SuperSP(next.regs)) <= Address24(Top(m.frames).base))
      && forall i :: 0 <= i < |m.frames| ==> FrameUntouched(m.core.mem, next.mem, m.frames[i])
  }

  /** The six bytes of the frame are the same. */
  ghost predicate FrameUntouched(mem: Image, next: Image, f: Frame)
    requires |next.bytes| == |mem.bytes|
  {
    var low := Address24(f.base) as int - mem.offset;
    forall k :: 0 <= k < |mem.bytes| && low <= k < low + 6 ==> next.bytes[k] == mem.bytes[k]
  }

  /** The frame lies in RAM and holds the saved SR and PC; above it begins the interrupted stack. */
  ghost predicate InMemory(mem: Image, f: Frame) {
    var base: int := Address24(f.base);
    base % 2 == 0 && Holds(mem, Word, base, f.saved.sr) && Holds(mem, Long, base + 2, f.saved.pc) &&
    f.saved.superSP == Wrap32(f.base + 6)
  }

  ghost predicate FramesStored(mem: Image, frames: seq<Frame>) {
    forall i :: 0 <= i < |frames| ==> InMemory(mem, frames[i])
  }

  /** Outer frames lie above inner ones and no two overlap. */
  ghost predicate FramesApart(frames: seq<Frame>) {
    forall i :: 0 < i < |frames| ==> Address24(frames[i].base) + 6 <= Address24(frames[i - 1].base)
  }

  ghost predicate Valid(m: Machine) {
    && m.core.mem.Inside24()
    && FramesStored(m.core.mem, m.frames)
    && FramesApart(m.frames)
    && (m.frames != [] ==> Address24(SuperSP(m.core.regs)) <= Address24(Top(m.frames).base))
  }

  // ---- Every step keeps the machine valid ----

  /** Outer frames lie above the innermost one. */
  lemma {:induction false} FramesAbove(frames: seq<Frame>, i: nat)
    requires i < |frames| && FramesApart(frames)
    ensures Address24(frames[i].base) >= Address24(Top(frames).base)
    decreases |frames| - i
  {
    if i + 1 < |frames| { FramesAbove(frames, i + 1); }
  }

  lemma FrameKept(c: State, d: State, f: Frame, low: int, high: int)
    requires InMemory(c.mem, f) && SameOutside(c, d, low, high) && high <= Address24(f.base)
    ensures InMemory(d.mem, f)
  {
    var base: int := Address24(f.base);
    HoldsOn(c, d, Word, base, f.saved.sr, low, high);
    HoldsOn(c, d, Long, base + 2, f.saved.pc, low, high);
  }

  /** Changes below the innermost frame leave every frame as it was. */
  lemma FramesKept(c: State, d: State, frames: seq<Frame>, low: int, high: int)
    requires FramesStored(c.mem, frames) && FramesApart(frames) && SameOutside(c, d, low, high)
    requires frames != [] ==> high <= Address24(Top(frames).base)
    ensures FramesStored(d.mem, frames)
  {
    forall i | 0 <= i < |frames| ensures InMemory(d.mem, frames[i]) {
      FramesAbove(frames, i);
      FrameKept(c, d, frames[i], low, high);
    }
  }

  /** What exception entry does: frame f appears below the supervisor stack pointer. */
  ghost predicate Entry(c: State, d: State, f: Frame) {
    && d.mem.offset == c.mem.offset && |d.mem.bytes| == |c.mem.bytes|
    && (exists low :: SameOutside(c, d, low, Ceiling(SuperSP(c.regs))))
    && InMemory(d.mem, f)
    && Address24(f.base) + 6 <= Ceiling(SuperSP(c.regs))
    && Address24(SuperSP(d.regs)) <= Address24(f.base)
    && f.saved.sr == c.regs.SR
  }

  lemma EntryKeepsValid(m: Machine, d: State, q: Queues, f: Frame)
    requires Valid(m) && Entry(m.core, d, f) && (m.frames != [] ==> Address24(SuperSP(m.core.regs)) > 0)
    ensures Valid(Machine(d, q, m.frames + [f]))
  {
    hide Address24, SuperSP, InMemory, SameOutside;
    var low :| SameOutside(m.core, d, low, Ceiling(SuperSP(m.core.regs)));
    FramesKept(m.core, d, m.frames, low, Ceiling(SuperSP(m.core.regs)));
    FramesJoined(d.mem, m.frames, f);
    hide FramesStored, FramesApart;
  }

  lemma FramesJoined(mem: Image, frames: seq<Frame>, f: Frame)
    requires FramesStored(mem, frames) && FramesApart(frames) && InMemory(mem, f)
    requires frames != [] ==> Address24(f.base) + 6 <= Address24(Top(frames).base)
    ensures FramesStored(mem, frames + [f]) && FramesApart(frames + [f])
  {
    hide InMemory, Address24;
  }

  lemma MakeEntry(c: State, d: State, f: Frame, low: int)
    requires SameOutside(c, d, low, Ceiling(SuperSP(c.regs)))
    requires Address24(f.base) + 6 == Ceiling(SuperSP(c.regs)) && Address24(f.base) % 2 == 0
    requires Holds(d.mem, Word, Address24(f.base), f.saved.sr) && Holds(d.mem, Long, Address24(f.base) + 2, f.saved.pc)
    requires f.saved.superSP == Wrap32(f.base + 6) && f.saved.sr == c.regs.SR
    requires Address24(SuperSP(d.regs)) <= Address24(f.base)
    ensures Entry(c, d, f)
  {
    hide Address24, Wrap32, Holds, SuperSP;
    assert d.mem.offset == c.mem.offset && |d.mem.bytes| == |c.mem.bytes|;
    hide SameOutside;
  }

  lemma RaiseIsEntry(c: State, vector: nat, newSR: u16, stackedPC: u32, level: nat)
    requires c.mem.Inside24() && vector <= 255 && Supervisor(newSR) && NoStraddle(c.mem, SuperSP(c.regs), 6)
    requires RaiseException(c, vector, newSR, stackedPC).1.None?
    ensures var d := RaiseException(c, vector, newSR, stackedPC).0;
            d.regs.SR == newSR && Entry(c, d, Frame(d.regs.A[7], ContextOf(c.regs).(pc := stackedPC), level))
  {
    hide RaiseException, Holds, SameOutside, Address24, Wrap32, Image.Inside24, Supervisor, Entry;
    Entered(c, vector, newSR, stackedPC);
    StackTop(SuperSP(c.regs), 6);
    var d := RaiseException(c, vector, newSR, stackedPC).0;
    MakeEntry(c, d, Frame(d.regs.A[7], ContextOf(c.regs).(pc := stackedPC), level), Ceiling(SuperSP(c.regs)) - 6);
  }

  /** n bytes below a stack pointer, and back up to it. */
  lemma StackTop(sp: u32, n: nat)
    ensures Wrap32(Wrap32(sp as int - n) as int + n) == sp
  {
  }

  lemma Group0IsEntry(c: State, vector: nat, newSR: u16)
    requires c.mem.Inside24() && vector <= 255 && Supervisor(newSR) && NoStraddle(c.mem, SuperSP(c.regs), 14)
    requires RaiseGroup0(c, vector, newSR).1.None?
    ensures var d := RaiseGroup0(c, vector, newSR).0;
            d.regs.SR == newSR &&
            Entry(c, d, Frame(Wrap32(d.regs.A[7] as int + 8), ContextOf(c.regs).(pc := c.fault.pc), 0))
  {
    hide RaiseGroup0, Holds, Wrap32, Image.Inside24, SameOutside, Supervisor, Entry, Address24;
    EnteredGroup0(c, vector, newSR);
    var d := RaiseGroup0(c, vector, newSR).0;
    AddressPlus(d.regs.A[7], 8);
    Group0Base(SuperSP(c.regs));
    MakeEntry(c, d, Frame(Wrap32(d.regs.A[7] as int + 8), ContextOf(c.regs).(pc := c.fault.pc), 0),
              Ceiling(SuperSP(c.regs)) - 14);
  }

  lemma Group0Base(sp: u32)
    ensures Wrap32(Wrap32(Wrap32(sp as int - 14) as int + 8) as int + 6) == sp
  {
  }

  lemma TrapKeepsValid(m: Machine, s: Step)
    requires Valid(m) && s.Trap? && Legal(m, s)
    ensures Valid(Next(m, s).0)
  {
    var sr := m.core.regs.SR;
    ExceptionSR(sr);
    assert s.number <= 255;
    hide RaiseException, Entry, Mask, Supervisor, Address24;
    RaiseIsEntry(m.core, s.number, Or16(sr, SR_SUPERVISOR), s.stackedPC, 0);
    EntryKeepsValid(m, Next(m, s).0.core, m.queues, Top(Next(m, s).0.frames));
  }

  lemma FaultKeepsValid(m: Machine, s: Step)
    requires Valid(m) && s.Fault? && Legal(m, s)
    ensures Valid(Next(m, s).0)
  {
    var sr := m.core.regs.SR;
    ExceptionSR(sr);
    hide RaiseGroup0, Entry, Mask, Supervisor, Address24;
    Group0IsEntry(m.core, if s.fault.BusError? then XBUSERROR else XADDRESSERROR, Or16(sr, SR_SUPERVISOR));
    EntryKeepsValid(m, Next(m, s).0.core, m.queues, Top(Next(m, s).0.frames));
  }

  lemma CheckKeepsValid(m: Machine, s: Step)
    requires Valid(m) && s.Check? && Legal(m, s)
    ensures Valid(Next(m, s).0)
  {
    var regs := m.core.regs;
    var r := Served(m.queues, Mask(regs.SR));
    if r.Some? {
      InterruptSRMask(regs.SR, r.value.level);
      hide RaiseException, Entry, Mask, Supervisor, Address24, InterruptSR;
      RaiseIsEntry(m.core, r.value.interrupt.vector, InterruptSR(regs.SR, r.value.level), regs.PC, r.value.level);
      EntryKeepsValid(m, Next(m, s).0.core, Next(m, s).0.queues, Top(Next(m, s).0.frames));
    }
  }

  lemma Popped(c: State, s: Size, v: u32)
    requires c.mem.Inside24() && Address24(c.regs.A[7]) % 2 == 0 && Holds(c.mem, s, Address24(c.regs.A[7]), v)
    ensures Pop(c, s) == (c.(regs := WithA7(c.regs, Wrap32(c.regs.A[7] as int + s.Bytes()))), Ok(v))
  {
    LoadInside(c.mem, c.fast, s, c.regs.A[7]);
    hide Core.Load, Memory.Load, Address24, Wrap32, DataContext;
  }

  /** Two pops from an intact frame. */
  lemma PopsFrame(c: State, f: Frame)
    requires c.mem.Inside24() && InMemory(c.mem, f) && c.regs.A[7] == f.base
    ensures var c1 := c.(regs := WithA7(c.regs, Wrap32(f.base + 2)));
            Pop(c, Word) == (c1, Ok(f.saved.sr)) &&
            Pop(c1, Long) == (c.(regs := WithA7(c.regs, f.saved.superSP)), Ok(f.saved.pc))
  {
    AddressPlusEven(f.base);
    PlusTwice(f.base, 2, 4);
    hide Pop, Address24, Wrap32, Holds, Image.Inside24;
    Popped(c, Word, f.saved.sr);
    Popped(c.(regs := WithA7(c.regs, Wrap32(f.base + 2))), Long, f.saved.pc);
    assert c.regs.A[7 := Wrap32(f.base + 2)][7 := f.saved.superSP] == c.regs.A[7 := f.saved.superSP];
  }

  lemma AddressPlusEven(a: u32)
    ensures Address24(a) % 2 == 0 ==> Address24(Wrap32(a + 2)) % 2 == 0
    ensures Address24(a) + 2 < 0x100_0000 ==> Address24(Wrap32(a + 2)) == Address24(a) + 2
  {
  }

  /** The data registers, A0 to A6, the opcode and the recorded fault. */
  predicate OthersSame(c: State, d: State) {
    d.regs.D == c.regs.D && d.regs.A[..7] == c.regs.A[..7] && d.regs.IR == c.regs.IR && d.fault == c.fault
  }

  lemma RteRestores(c: State, f: Frame)
    requires c.mem.Inside24() && InMemory(c.mem, f) && Supervisor(c.regs.SR) && c.regs.A[7] == f.base
    ensures var (d, fault) := Rte(c);
            fault.None? && d.mem == c.mem && d.fast == c.fast &&
            ContextOf(d.regs) == f.saved.(userSP := UserSP(c.regs)) &&
            (d.regs.A[7] == if Supervisor(f.saved.sr) then f.saved.superSP else UserSP(c.regs)) &&
            OthersSame(c, d)
  {
    hide Pop, Address24, InMemory, Image.Inside24, SetSR, Supervisor;
    PopsFrame(c, f);
    var popped := WithA7(c.regs, f.saved.superSP);
    assert Rte(c) == (c.(regs := SetSR(popped, f.saved.sr).(PC := f.saved.pc)), None);
    hide Rte;
    SetSRKeepsStackPointers(popped, f.saved.sr);
  }

  /** RTE brings back exactly the context of the innermost frame and changes nothing else. The user
      stack pointer is the one the handler leaves, which is the interrupted one unless the handler
      changes it. */
  lemma ReturnRestores(m: Machine)
    requires Valid(m) && Legal(m, Return)
    ensures var (n, ok) := Next(m, Return);
            var saved := Top(m.frames).saved;
            ok && n.frames == m.frames[..|m.frames| - 1] && n.queues == m.queues && n.core.mem == m.core.mem &&
            n.core.fast == m.core.fast && ContextOf(n.core.regs) == saved.(userSP := UserSP(m.core.regs)) &&
            (n.core.regs.A[7] == if Supervisor(saved.sr) then saved.superSP else UserSP(m.core.regs)) &&
            OthersSame(m.core, n.core)
  {
    hide Rte, Address24, InMemory, ContextOf, UserSP, SuperSP, FramesApart;
    var f := Top(m.frames);
    assert InMemory(m.core.mem, f);
    RteRestores(m.core, f);
  }

  /** Exactly when RTE completes in supervisor state; otherwise only A7 can have moved, by the size
      of SR when only the PC cannot be read. */
  lemma ReturnExactly(c: State)
    requires c.mem.Inside24() && Supervisor(c.regs.SR)
    requires Address24(c.regs.A[7]) + 6 <= 0x100_0000 || |c.mem.bytes| < 0x100_0000
    ensures var (d, f) := Rte(c);
            var word, long := Inside(c.mem, Word, c.regs.A[7]), Inside(c.mem, Long, Wrap32(c.regs.A[7] as int + 2));
            (f.None? <==> word && long) && d.mem == c.mem &&
            (f.Some? ==> d.regs == if word then WithA7(c.regs, Wrap32(c.regs.A[7] as int + 2)) else c.regs)
  {
    var a7 := c.regs.A[7];
    var c1 := c.(regs := WithA7(c.regs, Wrap32(a7 as int + 2)));
    hide Address24, Wrap32, Inside, Image.Inside24, Supervisor, SetSR, Pop;
    AddressAfter(a7);
    PopExactly(c, Word);
    PopExactly(c1, Long);
  }

  lemma AddressAfter(a: u32)
    ensures Address24(a) + 6 <= 0x100_0000 ==>
              Address24(a) + 2 <= 0x100_0000 && Address24(Wrap32(a as int + 2)) + 4 <= 0x100_0000
  {
  }

  lemma PopExactly(c: State, s: Size)
    requires c.mem.Inside24()
    requires Address24(c.regs.A[7]) + s.Bytes() <= 0x100_0000 || |c.mem.bytes| < 0x100_0000
    ensures var (d, r) := Pop(c, s);
            (r.Ok? <==> Inside(c.mem, s, c.regs.A[7])) && d.mem == c.mem &&
            (if r.Ok? then d == c.(regs := WithA7(c.regs, Wrap32(c.regs.A[7] as int + s.Bytes())))
             else d.regs == c.regs)
  {
    hide Core.Load, Address24, Wrap32, Inside, DataContext, Image.Inside24;
    if |c.mem.bytes| < 0x100_0000 {
      LoadsExactly(c.mem, c.fast, s, c.regs.A[7]);
    } else {
      LoadExactly(c.mem, c.fast, s, c.regs.A[7]);
    }
  }

  lemma ReturnKeepsValid(m: Machine)
    requires Valid(m) && Legal(m, Return)
    ensures Valid(Next(m, Return).0)
  {
    ReturnRestores(m);
    var f := Top(m.frames);
    var n := Next(m, Return).0;
    hide Next, Legal, Address24, Mask, Image.Inside24;
    assert f.saved.superSP == Wrap32(f.base + 6) by { assert InMemory(m.core.mem, f); }
    hide InMemory, Wrap32;
    assert SuperSP(n.core.regs) == f.saved.superSP && n.core.regs.SR == f.saved.sr;
    hide SuperSP, UserSP;
    if n.frames != [] {
      var below := m.frames[|m.frames| - 2];
      assert Top(n.frames) == below && Address24(f.base) + 6 <= Address24(below.base);
      AddressPlus(f.base, 6);
    }
  }

  lemma WorkKeepsValid(m: Machine, s: Step)
    requires Valid(m) && s.Work? && Legal(m, s)
    ensures Valid(Next(m, s).0)
  {
    hide Address24, SuperSP, InMemory, FrameUntouched;
    forall i | 0 <= i < |m.frames| ensures InMemory(s.next.mem, m.frames[i]) {
      UntouchedFrame(m.core.mem, s.next.mem, m.frames[i]);
    }
  }

  lemma UntouchedFrame(mem: Image, next: Image, f: Frame)
    requires next.offset == mem.offset && |next.bytes| == |mem.bytes|
    requires InMemory(mem, f) && FrameUntouched(mem, next, f)
    ensures InMemory(next, f)
  {
    hide Address24, Memory.Load;
    LoadFrame(mem.bytes, next.bytes, Address24(f.base) - mem.offset, Word);
    LoadFrame(mem.bytes, next.bytes, Address24(f.base) + 2 - mem.offset, Long);
  }

  /** The invariant of the machine: every legal step keeps every frame intact in memory. */
  lemma StepKeepsValid(m: Machine, s: Step)
    requires Valid(m) && Legal(m, s)
    ensures Valid(Next(m, s).0)
  {
    match s {
      case Trap(_, _) => TrapKeepsValid(m, s);
      case Fault(_) => FaultKeepsValid(m, s);
      case Ask(_, _) =>
      case Check => CheckKeepsValid(m, s);
      case Return => ReturnKeepsValid(m);
      case Work(_) => WorkKeepsValid(m, s);
    }
  }

  // ---- Whole runs ----

  function Run(m: Machine, steps: seq<Step>): Machine
    decreases |steps|
  {
    if steps == [] then m else Run(Next(m, steps[0]).0, steps[1..])
  }

  ghost predicate LegalRun(m: Machine, steps: seq<Step>)
    decreases |steps|
  {
    steps != [] ==> Legal(m, steps[0]) && LegalRun(Next(m, steps[0]).0, steps[1..])
  }

  /** The run never returns from any of the n outermost frames. */
  ghost predicate StaysWithin(m: Machine, steps: seq<Step>, n: nat)
    decreases |steps|
  {
    |m.frames| >= n && (steps != [] ==> StaysWithin(Next(m, steps[0]).0, steps[1..], n))
  }

  lemma {:induction false} RunKeepsValid(m: Machine, steps: seq<Step>)
    requires Valid(m) && LegalRun(m, steps)
    ensures Valid(Run(m, steps))
    decreases |steps|
  {
    if steps != [] {
      StepKeepsValid(m, steps[0]);
      hide Valid, Legal, Next;
      RunKeepsValid(Next(m, steps[0]).0, steps[1..]);
    }
  }

  lemma {:induction false} OuterFramesKept(m: Machine, steps: seq<Step>, n: nat)
    requires StaysWithin(m, steps, n)
    ensures |Run(m, steps).frames| >= n && Run(m, steps).frames[..n] == m.frames[..n]
    decreases |steps|
  {
    if steps != [] {
      var next := Next(m, steps[0]).0;
      assert |next.frames| >= n;
      assert next.frames[..n] == m.frames[..n] by { hide RaiseException, HandleFault, CheckInterrupts, Rte; }
      OuterFramesKept(next, steps[1..], n);
    }
  }

  /** Where an entry resumes. */
  function ResumePC(m: Machine, entry: Step): u32 {
    match entry
    case Trap(_, stackedPC) => stackedPC
    case Fault(_) => m.core.fault.pc
    case _ => m.core.regs.PC
  }

  /** The main result. Take any valid machine and any exception entry, let the handler run any
      legal steps, nested entries and returns to any depth included, and return: the interrupted
      PC, SR and supervisor stack pointer are back, and so is the user stack pointer unless
      the code in between changed it; A7 is the one of the restored mode. */
  lemma NestedRunRestores(m: Machine, entry: Step, body: seq<Step>)
    requires Valid(m) && (entry.Trap? || entry.Fault? || (entry.Check? && Served(m.queues, Mask(m.core.regs.SR)).Some?))
    requires Legal(m, entry) && LegalRun(Next(m, entry).0, body)
    requires StaysWithin(Next(m, entry).0, body, |m.frames| + 1)
    requires var b := Run(Next(m, entry).0, body); |b.frames| == |m.frames| + 1 && Legal(b, Return)
    ensures var b := Run(Next(m, entry).0, body);
            var (r, ok) := Next(b, Return);
            ok && Valid(r) && r.frames == m.frames &&
            r.core.regs.PC == ResumePC(m, entry) && r.core.regs.SR == m.core.regs.SR &&
            SuperSP(r.core.regs) == SuperSP(m.core.regs) && UserSP(r.core.regs) == UserSP(b.core.regs) &&
            (UserSP(b.core.regs) == UserSP(m.core.regs) ==> r.core.regs.A[7] == m.core.regs.A[7])
  {
    hide Legal, LegalRun, StaysWithin, Run, Valid, Next, Supervisor, Mask;
    var e := Next(m, entry).0;
    var b := Run(e, body);
    EntrySaves(m, entry);
    StepKeepsValid(m, entry);
    RunKeepsValid(e, body);
    OuterFramesKept(e, body, |m.frames| + 1);
    assert Top(b.frames) == Top(e.frames) by {
      assert b.frames[..|m.frames| + 1][|m.frames|] == e.frames[..|m.frames| + 1][|m.frames|];
    }
    assert b.frames[..|m.frames|] == m.frames by {
      assert b.frames[..|m.frames| + 1][..|m.frames|] == e.frames[..|m.frames| + 1][..|m.frames|];
    }
    ReturnKeepsValid(b);
    ReturnRestores(b);
    SetSRKeepsStackPointers(m.core.regs, m.core.regs.SR);
  }

  /** The hypotheses are met by every trap whose frame fits and whose handler is readable in memory
      with that frame, with a handler that returns at once. */
  lemma EmptyHandler(m: Machine, number: nat, stackedPC: u32)
    requires Valid(m) && number <= 255 && Room(m, 6)
    requires var top := Ceiling(SuperSP(m.core.regs));
             FrameFits(m.core.mem, top, 6) &&
             HandlerOf(FrameImage(m.core.mem, top - 6, Group12Frame(m.core.regs.SR, stackedPC)), number).Some?
    ensures var e := Next(m, Trap(number, stackedPC)).0;
            Legal(m, Trap(number, stackedPC)) && LegalRun(e, []) && StaysWithin(e, [], |m.frames| + 1) &&
            Legal(e, Return)
  {
    var sr := Or16(m.core.regs.SR, SR_SUPERVISOR);
    ExceptionSR(m.core.regs.SR);
    hide RaiseException, Supervisor, HandlerOf, FrameFits, FrameImage, Group12Frame, Valid, Address24, Wrap32,
         SameOutside, Holds, Mask;
    assert m.core.mem.Inside24() by { ValidMemory(m); }
    EntryExactly(m.core, number, sr, stackedPC);
    Entered(m.core, number, sr, stackedPC);
  }

  lemma ValidMemory(m: Machine)
    requires Valid(m)
    ensures m.core.mem.Inside24()
  {
  }

  lemma EntrySaves(m: Machine, entry: Step)
    requires entry.Trap? || entry.Fault? || (entry.Check? && Served(m.queues, Mask(m.core.regs.SR)).Some?)
    ensures var e := Next(m, entry).0;
            e.frames[..|e.frames| - 1] == m.frames && |e.frames| == |m.frames| + 1 &&
            Top(e.frames).saved == ContextOf(m.core.regs).(pc := ResumePC(m, entry))
  {
    hide RaiseException, HandleFault, UserSP, SuperSP, Wrap32;
  }

  // ---- Interrupt masks, for code that does not lower its own ----

  /** The innermost interrupt level being served. */
  function ActiveLevel(frames: seq<Frame>): nat {
    if frames == [] then 0 else if Top(frames).level > 0 then Top(frames).level else ActiveLevel(frames[..|frames| - 1])
  }

  /** Every mask in force, now or saved above an interrupt, is at least that interrupt's level,
      and each accepted level was above the mask it interrupted. */
  ghost predicate MasksNest(frames: seq<Frame>, mask: nat) {
    frames != [] ==>
      var top := Top(frames);
      && mask >= ActiveLevel(frames)
      && (top.level > 0 ==> Mask(top.saved.sr) < top.level <= 7)
      && MasksNest(frames[..|frames| - 1], Mask(top.saved.sr))
  }

  /** The code being run leaves the mask at or above the level it serves. */
  predicate KeepsMask(m: Machine, s: Step) {
    s.Work? ==> Mask(s.next.regs.SR) >= ActiveLevel(m.frames)
  }

  ghost predicate MaskedRun(m: Machine, steps: seq<Step>)
    decreases |steps|
  {
    steps != [] ==> KeepsMask(m, steps[0]) && MaskedRun(Next(m, steps[0]).0, steps[1..])
  }

  lemma MasksPushed(frames: seq<Frame>, f: Frame, before: nat, after: nat)
    requires MasksNest(frames, before) && Mask(f.saved.sr) == before
    requires f.level > 0 ==> before < f.level <= 7
    requires after >= if f.level > 0 then f.level else before
    ensures MasksNest(frames + [f], after)
  {
    hide Mask;
    var all := frames + [f];
    assert all[..|all| - 1] == frames && Top(all) == f;
    assert frames == [] ==> ActiveLevel(frames) == 0;
  }

  lemma {:induction false} ActiveBelow(frames: seq<Frame>, mask: nat)
    requires MasksNest(frames, mask)
    ensures ActiveLevel(frames) <= mask && ActiveLevel(frames) <= 7
  {
    if frames != [] {
      ActiveBelow(frames[..|frames| - 1], Mask(Top(frames).saved.sr));
    }
  }

  lemma TrapMasks(m: Machine, s: Step)
    requires Valid(m) && Legal(m, s) && (s.Trap? || s.Fault?) && MasksNest(m.frames, Mask(m.core.regs.SR))
    ensures var n := Next(m, s).0; MasksNest(n.frames, Mask(n.core.regs.SR))
  {
    var sr := m.core.regs.SR;
    ExceptionSR(sr);
    assert s.Trap? ==> s.number <= 255;
    hide RaiseException, RaiseGroup0, Entry, Mask, Supervisor, Address24, Wrap32, MasksNest;
    if s.Trap? {
      RaiseIsEntry(m.core, s.number, Or16(sr, SR_SUPERVISOR), s.stackedPC, 0);
    } else {
      Group0IsEntry(m.core, if s.fault.BusError? then XBUSERROR else XADDRESSERROR, Or16(sr, SR_SUPERVISOR));
    }
    MasksPushed(m.frames, Top(Next(m, s).0.frames), Mask(sr), Mask(sr));
  }

  lemma CheckMasks(m: Machine, s: Step)
    requires Valid(m) && Legal(m, s) && s.Check? && MasksNest(m.frames, Mask(m.core.regs.SR))
    ensures var n := Next(m, s).0; MasksNest(n.frames, Mask(n.core.regs.SR))
  {
    var regs := m.core.regs;
    var r := Served(m.queues, Mask(regs.SR));
    if r.Some? {
      InterruptSRMask(regs.SR, r.value.level);
      hide RaiseException, Entry, Mask, Supervisor, Address24, InterruptSR, MasksNest;
      RaiseIsEntry(m.core, r.value.interrupt.vector, InterruptSR(regs.SR, r.value.level), regs.PC, r.value.level);
      MasksPushed(m.frames, Top(Next(m, s).0.frames), Mask(regs.SR), r.value.level);
    }
  }

  lemma ReturnMasks(m: Machine)
    requires Valid(m) && Legal(m, Return) && MasksNest(m.frames, Mask(m.core.regs.SR))
    ensures var n := Next(m, Return).0; MasksNest(n.frames, Mask(n.core.regs.SR))
  {
    ReturnRestores(m);
    hide Next, Legal, Valid, Mask, UserSP, SuperSP;
  }

  /** Every step keeps the masks nested, if the running code does not lower its own. */
  lemma StepKeepsMasks(m: Machine, s: Step)
    requires Valid(m) && Legal(m, s) && KeepsMask(m, s) && MasksNest(m.frames, Mask(m.core.regs.SR))
    ensures var n := Next(m, s).0; MasksNest(n.frames, Mask(n.core.regs.SR))
  {
    match s {
      case Trap(_, _) => TrapMasks(m, s);
      case Fault(_) => TrapMasks(m, s);
      case Ask(_, _) =>
      case Check => CheckMasks(m, s);
      case Return => ReturnMasks(m);
      case Work(_) => hide Mask;
    }
  }

  lemma {:induction false} RunKeepsMasks(m: Machine, steps: seq<Step>)
    requires Valid(m) && LegalRun(m, steps) && MaskedRun(m, steps) && MasksNest(m.frames, Mask(m.core.regs.SR))
    ensures var n := Run(m, steps); MasksNest(n.frames, Mask(n.core.regs.SR))
    decreases |steps|
  {
    if steps != [] {
      StepKeepsValid(m, steps[0]);
      StepKeepsMasks(m, steps[0]);
      hide Valid, Legal, Next, KeepsMask, MasksNest;
      RunKeepsMasks(Next(m, steps[0]).0, steps[1..]);
    }
  }

  /** The interrupt levels being served, outermost first. */
  function Levels(frames: seq<Frame>): seq<nat> {
    if frames == [] then []
    else Levels(frames[..|frames| - 1]) + if Top(frames).level > 0 then [Top(frames).level] else []
  }

  ghost predicate StrictlyIncreasing(levels: seq<nat>) {
    forall i, j :: 0 <= i < j < |levels| ==> levels[i] < levels[j]
  }

  lemma {:induction false} LevelsIncrease(frames: seq<Frame>, mask: nat)
    requires MasksNest(frames, mask)
    ensures StrictlyIncreasing(Levels(frames))
    ensures forall i :: 0 <= i < |Levels(frames)| ==> 1 <= Levels(frames)[i] <= 7 && Levels(frames)[i] <= mask
    ensures ActiveLevel(frames) == if Levels(frames) == [] then 0 else Levels(frames)[|Levels(frames)| - 1]
    decreases |frames|
  {
    hide *;
    NestUnfolds(frames, mask);
    IncreasingOn([], 0);
    if frames != [] {
      var outer := Levels(frames[..|frames| - 1]);
      LevelsIncrease(frames[..|frames| - 1], Mask(Top(frames).saved.sr));
      LastIsLargest(outer);
      if Top(frames).level > 0 { IncreasingOn(outer, Top(frames).level); }
    }
  }

  /** The innermost frame, the outer ones, and how they make up the levels and masks. */
  lemma NestUnfolds(frames: seq<Frame>, mask: nat)
    requires MasksNest(frames, mask)
    ensures Levels([]) == [] && ActiveLevel([]) == 0
    ensures frames != [] ==>
              var top, outer := Top(frames), frames[..|frames| - 1];
              && ActiveLevel(frames) <= mask && MasksNest(outer, Mask(top.saved.sr))
              && (if top.level > 0
                  then Levels(frames) == Levels(outer) + [top.level] && ActiveLevel(frames) == top.level &&
                       Mask(top.saved.sr) < top.level <= 7
                  else Levels(frames) == Levels(outer) && ActiveLevel(frames) == ActiveLevel(outer))
  {
    hide Mask;
  }

  lemma IncreasingOn(levels: seq<nat>, next: nat)
    requires (levels == [] || StrictlyIncreasing(levels)) && forall i :: 0 <= i < |levels| ==> levels[i] < next
    ensures StrictlyIncreasing(levels + [next]) && StrictlyIncreasing([])
  {
  }

  lemma LastIsLargest(levels: seq<nat>)
    requires StrictlyIncreasing(levels)
    ensures forall i :: 0 <= i < |levels| ==> levels[i] <= levels[|levels| - 1]
  {
  }

  lemma {:induction false} IncreasingIsShort(levels: seq<nat>, top: nat)
    requires StrictlyIncreasing(levels) && forall i :: 0 <= i < |levels| ==> 1 <= levels[i] <= top
    ensures |levels| <= top
    decreases top
  {
    if levels != [] {
      var rest := levels[..|levels| - 1];
      assert levels[|levels| - 1] >= 1;
      IncreasingIsShort(rest, top - 1);
    }
  }

  /** From a machine serving nothing, whatever is requested, accepted and returned from: interrupts
      nest at most 7 deep, with levels strictly increasing inwards, all within the mask in force. */
  lemma NestingBounded(m: Machine, steps: seq<Step>)
    requires m.core.mem.Inside24() && m.frames == [] && LegalRun(m, steps) && MaskedRun(m, steps)
    ensures var n := Run(m, steps);
            StrictlyIncreasing(Levels(n.frames)) && |Levels(n.frames)| <= 7 &&
            forall i :: 0 <= i < |Levels(n.frames)| ==> 1 <= Levels(n.frames)[i] <= Mask(n.core.regs.SR)
  {
    RunKeepsMasks(m, steps);
    var n := Run(m, steps);
    LevelsIncrease(n.frames, Mask(n.core.regs.SR));
    IncreasingIsShort(Levels(n.frames), 7);
  }
}
