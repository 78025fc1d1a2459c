/** Registers, stack memory and exception processing of the CPU (cpu.go, op_system.go) as
    functions from state to state; the CPU class is proved against them. */
module Core {
  import opened Words
  import opened Memory
  import opened FastPath
  import opened Interrupts
  import opened Status

  type Bank = r: seq<u32> | |r| == 8 witness [0, 0, 0, 0, 0, 0, 0, 0]

  datatype Registers = Registers(D: Bank, A: Bank, PC: u32, SR: u16, SSP: u32, USP: u32, IR: u16)

  datatype FaultInfo = FaultInfo(address: u24, pc: u32, ir: u16, functionCode: nat, notInstruction: bool, write: bool)

  datatype Context = Context(functionCode: nat, notInstruction: bool)

  /** A CPU on a bus whose only device is a RAM. `fast` tells whether the shortcut is active. */
  datatype State = State(regs: Registers, mem: Image, fast: bool, fault: FaultInfo)

  const XBUSERROR := 2
  const XADDRESSERROR := 3
  const XDIVBYZERO := 5
  const XPRIVVIOLATION := 8
  const XUNINITIALIZEDINT := 15

  const SYSTEM_DATA := Context(5, true)
  const SYSTEM_PROGRAM := Context(6, true)

  function DataContext(regs: Registers): Context {
    Context(if Supervisor(regs.SR) then 5 else 1, false)
  }

  function WithA7(regs: Registers, a7: u32): Registers {
    regs.(A := regs.A[7 := a7])
  }

  function FaultAddress(f: Fault): u32 {
    match f case BusError(a) => a case AddressError(a) => a case InvalidVector(_) => 0
  }

  function RecordFault(c: State, f: Fault, ctx: Context, write: bool): State {
    c.(fault := FaultInfo(Address24(FaultAddress(f)), c.regs.PC, c.regs.IR,
                          ctx.functionCode, ctx.notInstruction, write))
  }

  function Load(mem: Image, fast: bool, s: Size, a: u32): Result<u32> {
    if fast then FastLoad(mem, s, Address24(a)) else LoneLoad(mem, s, Address24(a))
  }

  function Store(mem: Image, fast: bool, s: Size, a: u32, v: u32): (r: (Image, Option<Fault>))
    ensures r.0.offset == mem.offset && |r.0.bytes| == |mem.bytes|
  {
    if fast then FastStore(mem, s, Address24(a), v) else LoneStore(mem, s, Address24(a), v)
  }

  function Read(c: State, s: Size, a: u32, ctx: Context): (r: (State, Result<u32>))
    ensures r.0.regs == c.regs && r.0.mem == c.mem && r.0.fast == c.fast
  {
    var r := Load(c.mem, c.fast, s, a);
    match r case Ok(_) => (c, r) case Err(f) => (RecordFault(c, f, ctx, false), r)
  }

  function Write(c: State, s: Size, a: u32, v: u32, ctx: Context): (r: (State, Option<Fault>))
    ensures r.0.regs == c.regs && r.0.fast == c.fast
    ensures r.0.mem.offset == c.mem.offset && |r.0.mem.bytes| == |c.mem.bytes|
  {
    var (mem, fault) := Store(c.mem, c.fast, s, a, v);
    var c' := c.(mem := mem);
    match fault case None => (c', None) case Some(f) => (RecordFault(c', f, ctx, true), fault)
  }

  /** setSR: the active stack pointer is swapped when the supervisor bit changes. */
  function SetSR(regs: Registers, sr: u16): Registers {
    if Supervisor(regs.SR) == Supervisor(sr) then regs.(SR := sr)
    else if Supervisor(sr) then WithA7(regs, regs.SSP).(USP := regs.A[7], SR := sr)
    else WithA7(regs, regs.USP).(SSP := regs.A[7], SR := sr)
  }

  /** The user and supervisor stack pointers, wherever they currently live. */
  function UserSP(regs: Registers): u32 {
    if Supervisor(regs.SR) then regs.USP else regs.A[7]
  }

  function SuperSP(regs: Registers): u32 {
    if Supervisor(regs.SR) then regs.A[7] else regs.SSP
  }

  /** A change of SR never loses a stack pointer, A7 is always the one of the new mode, and no other
      register changes. */
  lemma SetSRKeepsStackPointers(regs: Registers, sr: u16)
    ensures var r := SetSR(regs, sr);
            UserSP(r) == UserSP(regs) && SuperSP(r) == SuperSP(regs) && r.SR == sr &&
            (r.A[7] == if Supervisor(sr) then SuperSP(regs) else UserSP(regs)) &&
            r.D == regs.D && r.A[..7] == regs.A[..7] && r.PC == regs.PC && r.IR == regs.IR
  {
  }

  function PushException(c: State, s: Size, v: u32): (State, Option<Fault>) {
    var sp := Wrap32(c.regs.A[7] - s.Bytes());
    Write(c.(regs := WithA7(c.regs, sp)), s, sp, v, SYSTEM_DATA)
  }

  function Pop(c: State, s: Size): (State, Result<u32>) {
    var (c', r) := Read(c, s, c.regs.A[7], DataContext(c.regs));
    match r
    case Err(_) => (c', r)
    case Ok(_) => (c'.(regs := WithA7(c'.regs, Wrap32(c'.regs.A[7] + s.Bytes()))), r)
  }

  /** An empty vector falls back to the uninitialised-interrupt vector. */
  function ReadVector(c: State, offset: u32): (State, Result<u32>) {
    if offset % 2 == 1 || offset >= 0x400 then (c, Err(AddressError(offset)))
    else
      var (c', r) := Read(c, Long, offset, SYSTEM_PROGRAM);
      if r == Ok(0) then Read(c', Long, XUNINITIALIZEDINT * 4, SYSTEM_PROGRAM) else (c', r)
  }

  /** The tail of every exception: fetch the handler address. */
  function Vectored(c: State, vector: nat): (State, Option<Fault>)
    requires vector <= 255
  {
    var (c', r) := ReadVector(c, vector * 4);
    match r
    case Err(f) => (c', Some(f))
    case Ok(handler) => (c'.(regs := c'.regs.(PC := handler)), None)
  }

  /** raiseExceptionWithPC: a 6-byte frame, PC then SR, on the supervisor stack. */
  function RaiseException(c: State, vector: nat, newSR: u16, stackedPC: u32): (State, Option<Fault>)
    requires vector < 0x1_0000_0000
  {
    if vector > 255 then (c, Some(InvalidVector(vector)))
    else
      var (c1, f1) := PushException(c.(regs := SetSR(c.regs, newSR)), Long, stackedPC);
      if f1.Some? then (c1, f1)
      else
        var (c2, f2) := PushException(c1, Word, c.regs.SR);
        if f2.Some? then (c2, f2) else Vectored(c2, vector)
  }

  function StatusWord(f: FaultInfo): u16 {
    (if f.write then 0 else 0x10) + (if f.notInstruction then 8 else 0) + f.functionCode % 8
  }

  datatype FrameWrite = FrameWrite(size: Size, displacement: nat, value: u32)

  /** The 14-byte frame of a bus or address error, in the order it is written. */
  function Group0Frame(info: FaultInfo, sr: u16): seq<FrameWrite> {
    [FrameWrite(Word, 0, StatusWord(info)), FrameWrite(Long, 2, info.address), FrameWrite(Word, 6, info.ir),
     FrameWrite(Word, 8, sr), FrameWrite(Long, 10, info.pc)]
  }

  function WriteFrame(c: State, sp: u32, writes: seq<FrameWrite>): (State, Option<Fault>)
    decreases |writes|
  {
    if |writes| == 0 then (c, None)
    else
      var w := writes[0];
      var (c', f) := Write(c, w.size, Wrap32(sp + w.displacement), w.value, SYSTEM_DATA);
      if f.Some? then (c', f) else WriteFrame(c', sp, writes[1..])
  }

  /** raiseGroup0Exception. The fault described is the one recorded on entry. */
  function RaiseGroup0(c: State, vector: nat, newSR: u16): (State, Option<Fault>)
    requires vector <= 255
  {
    var regs := SetSR(c.regs, newSR);
    var sp := Wrap32((regs.A[7] as int) - 14);
    var (c', f) := WriteFrame(c.(regs := WithA7(regs, sp)), sp, Group0Frame(c.fault, c.regs.SR));
    if f.Some? then (c', f) else Vectored(c', vector)
  }

  /** handleFaultError: bus and address errors become exceptions, anything else is returned. */
  function HandleFault(c: State, f: Fault): (State, Option<Fault>) {
    var newSR := Or16(c.regs.SR, SR_SUPERVISOR);
    match f
    case BusError(_) => RaiseGroup0(c, XBUSERROR, newSR)
    case AddressError(_) => RaiseGroup0(c, XADDRESSERROR, newSR)
    case InvalidVector(_) => (c, Some(f))
  }

  /** A synchronous exception of the running code. */
  function Exception(c: State, vector: nat): (State, Option<Fault>)
    requires vector <= 255
  {
    RaiseException(c, vector, Or16(c.regs.SR, SR_SUPERVISOR), c.regs.PC)
  }

  /** RTE: privileged; pops SR, then PC, and only then leaves supervisor state. */
  function Rte(c: State): (State, Option<Fault>) {
    if !Supervisor(c.regs.SR) then Exception(c, XPRIVVIOLATION)
    else
      var (c1, sr) := Pop(c, Word);
      if sr.Err? then (c1, Some(sr.fault))
      else
        var (c2, pc) := Pop(c1, Long);
        if pc.Err? then (c2, Some(pc.fault))
        else (c2.(regs := SetSR(c2.regs, sr.value % 0x1_0000).(PC := pc.value)), None)
  }

  /** Acceptance of an interrupt request. */
  function Interrupt(c: State, level: nat, vector: u8): (State, Option<Fault>)
    requires level <= 7
  {
    RaiseException(c, vector, InterruptSR(c.regs.SR, level), c.regs.PC)
  }

  /** checkInterrupts: at most one request is taken out of the queues and accepted. */
  function CheckInterrupts(c: State, q: Queues): (State, Queues, Option<Fault>) {
    match Served(q, Mask(c.regs.SR))
    case None => (c, q, None)
    case Some(r) =>
      var (c', f) := Interrupt(c, r.level, r.interrupt.vector);
      (c', Dequeue(q, r.level), f)
  }
}
