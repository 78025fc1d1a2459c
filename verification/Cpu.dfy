/** The CPU object (cpu.go, op_system.go, op_arithmetic.go, op_bit_logical.go, op_data_transfer.go):
    methods that update registers and memory in place, each proved to do what the corresponding
    function on states says. */
module Cpu {
  import opened Words
  import opened Memory
  import opened Bits
  import opened Devices
  import opened BusDecoder
  import opened FastPath
  import opened Interrupts
  import opened Status
  import opened Core
  import opened Chains
  import opened MemoryChains
  import opened Movem
  import opened ShiftBits
  import Divide
  import Shift

  lemma SupervisorChanges(a: u16, b: u16)
    ensures And(Xor(a, b), SR_SUPERVISOR) != 0 <==> Supervisor(a) != Supervisor(b)
  {
    hide And, Xor, Bit, Or, AndNot;
    Pow2Values();
    FlagBits(a);
    FlagBits(b);
    OpBits(a, b, 13);
    AndPow2(Xor(a, b), 13);
  }

  /** What the bus answers a CPU whose only device is a RAM. */
  lemma RamBus(ram: RAM, s: Size, a: u24, v: u32)
    ensures BusLoad([RamDevice(ram)], s, a) == LoneLoad(ram.View(), s, a)
    ensures BusStoreFault([RamDevice(ram)], s, a, v) == LoneStore(ram.View(), s, a, v).1
    ensures BusStore([RamDevice(ram)], ram.mem, ram.mem[..], s, a, v) == LoneStore(ram.View(), s, a, v).0.bytes
    ensures Storage([RamDevice(ram)]) == {ram.mem}
  {
    LoneBus(ram, s, a, v);
    hide LoneStore, LoneLoad, BusLoad, BusStore, BusStoreFault;
    assert [RamDevice(ram)][0].Storage() == {ram.mem};
  }

  /** A read, told by its steps: the load on shortcut or bus, and the fault recorded afterwards. */
  lemma ReadSteps(c: State, s: Size, a: u32, ctx: Context)
    ensures Address24(Address24(a)) == Address24(a)
    ensures var r := if c.fast then FastLoad(c.mem, s, Address24(a)) else LoneLoad(c.mem, s, Address24(a));
            Core.Read(c, s, a, ctx) == (if r.Err? then Core.RecordFault(c, r.fault, ctx, false) else c, r)
  {
    hide FastLoad, LoneLoad, Core.RecordFault;
  }

  /** A write, told by its steps: the store on shortcut or bus, and the fault recorded afterwards. */
  lemma WriteSteps(c: State, s: Size, a: u32, v: u32, ctx: Context)
    ensures Core.Store(c.mem, c.fast, s, a, v) ==
            if c.fast then FastStore(c.mem, s, Address24(a), v) else LoneStore(c.mem, s, Address24(a), v)
    ensures Address24(Address24(a)) == Address24(a)
    ensures var (mem, fault) := Core.Store(c.mem, c.fast, s, a, v);
            Core.Write(c, s, a, v, ctx) ==
            (if fault.Some? then Core.RecordFault(c.(mem := mem), fault.value, ctx, true) else c.(mem := mem), fault)
  {
    hide FastStore, LoneStore, Core.RecordFault;
  }

  /** The first write of a frame, and what is left to write after it. */
  lemma FrameStep(c: State, sp: u32, writes: seq<FrameWrite>)
    requires |writes| > 0
    ensures var w := writes[0];
            var (d, f) := Core.Write(c, w.size, Wrap32(sp + w.displacement), w.value, SYSTEM_DATA);
            WriteFrame(c, sp, writes) == if f.Some? then (d, f) else WriteFrame(d, sp, writes[1..])
    ensures |writes| == 1 ==>
              WriteFrame(c, sp, writes) ==
                Core.Write(c, writes[0].size, Wrap32(sp + writes[0].displacement), writes[0].value, SYSTEM_DATA)
  {
    hide Core.Write;
  }

  lemma FitsSize(x: nat, size: Size)
    requires x < Pow2(size.Bits())
    ensures Wrap32(x) == x && Low(x, size) == x
  {
    Pow2Values();
    assert Pow2(size.Bits()) == size.Modulus();
    SignedCases(x, size);
    hide Pow2;
  }

  lemma SameAddresses(regs: Registers, size: Size, srcReg: nat, dstReg: nat)
    requires srcReg < 8 && dstReg < 8
    ensures srcReg == dstReg ==>
              Wrap32(regs.A[srcReg] as int - Decrement(srcReg, size)) ==
                Wrap32(regs.A[dstReg] as int - Decrement(dstReg, size))
  {
  }

  class Cpu {
    var regs: Registers
    var fault: FaultInfo
    const bus: Bus
    const interrupts: InterruptController
    ghost const ram: RAM

    ghost predicate Valid()
      reads this, bus, interrupts
    {
      bus.Valid() && bus.devices == [RamDevice(ram)] && interrupts.Valid()
    }

    ghost function View(): State
      reads this, bus, ram.mem
    {
      State(regs, ram.View(), bus.fastRAM.Some?, fault)
    }

    constructor (bus: Bus, interrupts: InterruptController, ghost ram: RAM, regs: Registers)
      requires bus.Valid() && bus.devices == [RamDevice(ram)] && interrupts.Valid()
      ensures Valid() && this.bus == bus && this.interrupts == interrupts && this.ram == ram && this.regs == regs
    {
      this.bus, this.interrupts, this.ram, this.regs := bus, interrupts, ram, regs;
      fault := FaultInfo(0, 0, 0, 0, false, false);
    }

    // ---- Memory accesses ----

    method FastRAMRead(size: Size, address: u24) returns (ok: bool, r: Result<u32>)
      requires Valid()
      ensures ok == bus.fastRAM.Some?
      ensures ok ==> r == FastLoad(ram.View(), size, address)
    {
      if bus.fastRAM.None? {
        return false, Ok(0);
      }
      var device := bus.fastRAM.value;
      var memLen := Wrap32(device.mem.Length);
      if address < device.offset {
        return true, Err(BusError(address));
      }
      var idx := address - device.offset;
      match size {
        case Byte =>
          if idx >= memLen {
            return true, Err(BusError(address));
          }
          return true, Ok(device.mem[idx]);
        case Word =>
          if address % 2 == 1 {
            return true, Err(AddressError(address));
          }
          if idx + 1 >= memLen {
            return true, Err(BusError(address));
          }
          return true, Ok((device.mem[idx] as int) * 0x100 + device.mem[idx + 1]);
        case Long =>
          if address % 2 == 1 {
            return true, Err(AddressError(address));
          }
          if idx + 1 >= memLen {
            return true, Err(BusError(address));
          }
          if idx + 3 >= memLen {
            return true, Err(BusError(Address24(address + 2)));
          }
          return true, Ok((device.mem[idx] as int) * 0x100_0000 + (device.mem[idx + 1] as int) * 0x1_0000 +
                          (device.mem[idx + 2] as int) * 0x100 + device.mem[idx + 3]);
      }
    }

    method FastRAMWrite(size: Size, address: u24, value: u32) returns (ok: bool, error: Option<Fault>)
      requires Valid()
      modifies ram.mem
      ensures ok == bus.fastRAM.Some?
      ensures !ok ==> ram.View() == old(ram.View())
      ensures ok ==> (ram.View(), error) == FastStore(old(ram.View()), size, address, value)
    {
      if bus.fastRAM.None? {
        return false, None;
      }
      var device := bus.fastRAM.value;
      var memLen := Wrap32(device.mem.Length);
      if address < device.offset {
        return true, Some(BusError(address));
      }
      var idx := address - device.offset;
      match size {
        case Byte =>
          if idx >= memLen {
            return true, Some(BusError(address));
          }
          device.mem[idx] := value % 0x100;
        case Word =>
          if address % 2 == 1 {
            return true, Some(AddressError(address));
          }
          if idx + 1 >= memLen {
            return true, Some(BusError(address));
          }
          device.mem[idx] := value / 0x100 % 0x100;
          device.mem[idx + 1] := value % 0x100;
        case Long =>
          if address % 2 == 1 {
            return true, Some(AddressError(address));
          }
          if idx + 1 >= memLen {
            return true, Some(BusError(address));
          }
          device.mem[idx] := value / 0x100_0000 % 0x100;
          device.mem[idx + 1] := value / 0x1_0000 % 0x100;
          assert device.mem[..] == Store16(old(device.mem[..]), idx, value / 0x1_0000);
          if idx + 3 >= memLen {
            return true, Some(BusError(Address24(address + 2)));
          }
          device.mem[idx + 2] := value / 0x100 % 0x100;
          device.mem[idx + 3] := value % 0x100;
          assert device.mem[..] == Store16(Store16(old(device.mem[..]), idx, value / 0x1_0000), idx + 2, value);
      }
      return true, None;
    }

    method RecordFault(f: Fault, ctx: Context, write: bool)
      requires Valid()
      modifies `fault
      ensures Valid() && View() == Core.RecordFault(old(View()), f, ctx, write)
    {
      fault := FaultInfo(Address24(FaultAddress(f)), regs.PC, regs.IR, ctx.functionCode, ctx.notInstruction, write);
    }

    method ReadContext(size: Size, addressIn: u32, ctx: Context) returns (r: Result<u32>)
      requires Valid()
      modifies `fault, bus`hookLog
      ensures Valid() && (View(), r) == Core.Read(old(View()), size, addressIn, ctx)
    {
      hide LoneLoad, FastLoad, BusLoad, Bus.Valid, Core.RecordFault, Core.Read, Address24;
      ReadSteps(View(), size, addressIn, ctx);
      var address := Address24(addressIn);
      RamBus(ram, size, address, 0);
      var ok;
      ok, r := FastRAMRead(size, address);
      if !ok {
        r := bus.Read(size, address);
      }
      if r.Err? {
        RecordFault(r.fault, ctx, false);
      }
    }

    method WriteContext(size: Size, addressIn: u32, value: u32, ctx: Context) returns (error: Option<Fault>)
      requires Valid()
      modifies `fault, bus`hookLog, ram.mem
      ensures Valid() && (View(), error) == Core.Write(old(View()), size, addressIn, value, ctx)
    {
      hide LoneStore, FastStore, BusStore, BusStoreFault, Bus.Valid, Core.RecordFault, Core.Store, Core.Write,
           Address24;
      ghost var store := Core.Store(ram.View(), bus.fastRAM.Some?, size, addressIn, value);
      WriteSteps(View(), size, addressIn, value, ctx);
      var address := Address24(addressIn);
      RamBus(ram, size, address, value);
      var ok;
      ok, error := FastRAMWrite(size, address, value);
      if !ok {
        error := bus.Write(size, address, value);
      }
      assert ram.View() == store.0 && error == store.1;
      if error.Some? {
        RecordFault(error.value, ctx, true);
      }
    }

    /** readProgramFastWord and readProgramFastLong */
    method ReadProgramFast(size: Size, address: u32) returns (ok: bool, r: Result<u32>)
      requires Valid() && size != Byte
      ensures ok == bus.fastRAM.Some?
      ensures ok ==> r == FastFetch(ram.View(), size, Address24(address))
    {
      if bus.fastRAM.None? {
        return false, Ok(0);
      }
      if Address24(address) % 2 == 1 {
        return true, Err(AddressError(Address24(address)));
      }
      ok, r := FastRAMRead(size, Address24(address));
    }

    // ---- Status register and supervisor stack ----

    method SetSR(value: u16)
      requires Valid()
      modifies `regs
      ensures Valid() && View() == old(View()).(regs := Core.SetSR(old(regs), value))
    {
      SupervisorChanges(regs.SR, value);
      hide And, Xor;
      if And(Xor(regs.SR, value), SR_SUPERVISOR) != 0 {
        if And(value, SR_SUPERVISOR) != 0 {
          regs := regs.(USP := regs.A[7]);
          regs := WithA7(regs, regs.SSP);
        } else {
          regs := regs.(SSP := regs.A[7]);
          regs := WithA7(regs, regs.USP);
        }
      }
      regs := regs.(SR := value);
    }

    method PushException(size: Size, value: u32) returns (error: Option<Fault>)
      requires Valid()
      modifies `regs, `fault, bus`hookLog, ram.mem
      ensures Valid() && (View(), error) == Core.PushException(old(View()), size, value)
    {
      hide Core.Write, Bus.Valid;
      regs := WithA7(regs, Wrap32(regs.A[7] - size.Bytes()));
      error := WriteContext(size, regs.A[7], value, SYSTEM_DATA);
    }

    method Pop(size: Size) returns (r: Result<u32>)
      requires Valid()
      modifies `regs, `fault, bus`hookLog
      ensures Valid() && (View(), r) == Core.Pop(old(View()), size)
    {
      hide Core.Read, Bus.Valid;
      r := ReadContext(size, regs.A[7], DataContext(regs));
      if r.Ok? {
        regs := WithA7(regs, Wrap32(regs.A[7] + size.Bytes()));
      }
    }

    method ReadVector(offset: u32) returns (r: Result<u32>)
      requires Valid()
      modifies `fault, bus`hookLog
      ensures Valid() && (View(), r) == Core.ReadVector(old(View()), offset)
    {
      hide Core.Read, Bus.Valid;
      if offset % 2 != 0 {
        return Err(AddressError(offset));
      }
      if offset >= 256 * 4 {
        return Err(AddressError(offset));
      }
      r := ReadContext(Long, offset, SYSTEM_PROGRAM);
      if r == Ok(0) {
        r := ReadContext(Long, XUNINITIALIZEDINT * 4, SYSTEM_PROGRAM);
      }
    }

    // ---- Exceptions ----

    method RaiseExceptionWithPC(vector: u32, newSR: u16, stackedPC: u32) returns (error: Option<Fault>)
      requires Valid()
      modifies `regs, `fault, bus`hookLog, ram.mem
      ensures Valid() && (View(), error) == Core.RaiseException(old(View()), vector, newSR, stackedPC)
    {
      hide Core.Read, Core.Write, Core.PushException, Core.ReadVector, Core.SetSR, Bus.Valid;
      if vector > 255 {
        return Some(InvalidVector(vector));
      }
      var originalSR := regs.SR;
      SetSR(newSR);
      error := PushException(Long, stackedPC);
      if error.Some? {
        return;
      }
      error := PushException(Word, originalSR);
      if error.Some? {
        return;
      }
      var handler := ReadVector(vector * 4);
      if handler.Err? {
        return Some(handler.fault);
      }
      regs := regs.(PC := handler.value);
    }

    method Exception(vector: nat) returns (error: Option<Fault>)
      requires Valid() && vector <= 255
      modifies `regs, `fault, bus`hookLog, ram.mem
      ensures Valid() && (View(), error) == Core.Exception(old(View()), vector)
    {
      hide Core.RaiseException, Bus.Valid;
      error := RaiseExceptionWithPC(vector, Or16(regs.SR, SR_SUPERVISOR), regs.PC);
    }

    /** The five writes of raiseGroup0Exception. */
    method WriteGroup0Frame(sp: u32, info: FaultInfo, sr: u16) returns (error: Option<Fault>)
      requires Valid()
      modifies `fault, bus`hookLog, ram.mem
      ensures Valid() && (View(), error) == WriteFrame(old(View()), sp, Group0Frame(info, sr))
    {
      hide Core.Write, Core.WriteFrame, Core.StatusWord, Bus.Valid, Wrap32;
      ghost var frame := Group0Frame(info, sr);
      FrameStep(View(), sp, frame);
      error := WriteContext(Word, Wrap32(sp + 0), StatusWord(info), SYSTEM_DATA);
      if error.Some? {
        return;
      }
      FrameStep(View(), sp, frame[1..]);
      error := WriteContext(Long, Wrap32(sp as int + 2), info.address, SYSTEM_DATA);
      if error.Some? {
        return;
      }
      FrameStep(View(), sp, frame[1..][1..]);
      error := WriteContext(Word, Wrap32(sp as int + 6), info.ir, SYSTEM_DATA);
      if error.Some? {
        return;
      }
      FrameStep(View(), sp, frame[1..][1..][1..]);
      error := WriteContext(Word, Wrap32(sp as int + 8), sr, SYSTEM_DATA);
      if error.Some? {
        return;
      }
      FrameStep(View(), sp, frame[1..][1..][1..][1..]);
      error := WriteContext(Long, Wrap32(sp as int + 10), info.pc, SYSTEM_DATA);
    }

    method RaiseGroup0Exception(vector: nat, newSR: u16) returns (error: Option<Fault>)
      requires Valid() && vector <= 255
      modifies `regs, `fault, bus`hookLog, ram.mem
      ensures Valid() && (View(), error) == Core.RaiseGroup0(old(View()), vector, newSR)
    {
      hide Core.WriteFrame, Group0Frame, Core.ReadVector, Core.SetSR, Bus.Valid;
      var info, originalSR := fault, regs.SR;
      SetSR(newSR);
      var sp := Wrap32((regs.A[7] as int) - 14);
      regs := WithA7(regs, sp);
      error := WriteGroup0Frame(sp, info, originalSR);
      if error.Some? {
        return;
      }
      var handler := ReadVector(vector * 4);
      if handler.Err? {
        return Some(handler.fault);
      }
      regs := regs.(PC := handler.value);
    }

    method HandleFaultError(f: Fault) returns (error: Option<Fault>)
      requires Valid()
      modifies `regs, `fault, bus`hookLog, ram.mem
      ensures Valid() && (View(), error) == Core.HandleFault(old(View()), f)
    {
      hide Core.RaiseGroup0, Bus.Valid;
      var newSR := Or16(regs.SR, SR_SUPERVISOR);
      match f {
        case BusError(_) => error := RaiseGroup0Exception(XBUSERROR, newSR);
        case AddressError(_) => error := RaiseGroup0Exception(XADDRESSERROR, newSR);
        case InvalidVector(_) => error := Some(f);
      }
    }

    method Rte() returns (error: Option<Fault>)
      requires Valid()
      modifies `regs, `fault, bus`hookLog, ram.mem
      ensures Valid() && (View(), error) == Core.Rte(old(View()))
    {
      hide Core.Exception, Core.Pop, Core.SetSR, Bus.Valid;
      if And(regs.SR, SR_SUPERVISOR) == 0 {
        error := Exception(XPRIVVIOLATION);
        return;
      }
      var newSR := Pop(Word);
      if newSR.Err? {
        return Some(newSR.fault);
      }
      var pc := Pop(Long);
      if pc.Err? {
        return Some(pc.fault);
      }
      SetSR(newSR.value % 0x1_0000);
      regs := regs.(PC := pc.value);
      error := None;
    }

    method Interrupt(level: nat, vector: u8) returns (error: Option<Fault>)
      requires Valid() && level <= 7
      modifies `regs, `fault, bus`hookLog, ram.mem
      ensures Valid() && (View(), error) == Core.Interrupt(old(View()), level, vector)
    {
      hide Core.RaiseException, Bus.Valid;
      var newSR := Or16(Or16(AndNot16(regs.SR, SR_INTERRUPT_MASK), SR_SUPERVISOR), level * 0x100);
      error := RaiseExceptionWithPC(vector, newSR, regs.PC);
    }

    /** At most one request leaves the queues, and only for being accepted. */
    method CheckInterrupts() returns (error: Option<Fault>)
      requires Valid()
      modifies `regs, `fault, bus`hookLog, ram.mem, interrupts
      ensures Valid()
      ensures (View(), interrupts.requests, error) == Core.CheckInterrupts(old(View()), old(interrupts.requests))
    {
      hide Core.Interrupt, Bus.Valid, Dequeue;
      if !interrupts.HasPending(regs.SR) {
        return None;
      }
      var r := interrupts.Pending(regs.SR);
      if r.None? {
        return None;
      }
      error := Interrupt(r.value.level, r.value.interrupt.vector);
    }

    // ---- Instructions ----

    method Divu(reg: nat, divisor: u16) returns (error: Option<Fault>)
      requires Valid() && reg < 8
      modifies `regs, `fault, bus`hookLog, ram.mem
      ensures Valid() && (View(), error) == Divide.DivideStep(old(View()), reg, divisor, false)
    {
      hide Core.Exception, Bus.Valid, Divide.Packed, Divide.QuotientFlags, ReplaceFlags;
      if divisor == 0 {
        error := Exception(XDIVBYZERO);
        return;
      }
      var dividend := regs.D[reg];
      assert regs.D[reg := dividend] == regs.D;
      var quotient := dividend / divisor;
      if quotient > 0xffff {
        regs := regs.(SR := ReplaceFlags(regs.SR, MASK_NZVC, SR_OVERFLOW));
        return None;
      }
      var remainder := dividend % divisor;
      regs := regs.(D := regs.D[reg := Divide.Packed(quotient, remainder)],
                    SR := ReplaceFlags(regs.SR, MASK_NZVC, Divide.QuotientFlags(quotient)));
      error := None;
    }

    method Divs(reg: nat, divisorRaw: u16) returns (error: Option<Fault>)
      requires Valid() && reg < 8
      modifies `regs, `fault, bus`hookLog, ram.mem
      ensures Valid() && (View(), error) == Divide.DivideStep(old(View()), reg, divisorRaw, true)
    {
      Divide.DivisorNotZero(divisorRaw);
      hide Core.Exception, Bus.Valid, Divide.Packed, Divide.QuotientFlags, ReplaceFlags, Signed, Divide.Quotient,
           Divide.Remainder;
      var divisor := Signed(divisorRaw, Word);
      if divisor == 0 {
        error := Exception(XDIVBYZERO);
        return;
      }
      var dividend := Signed(regs.D[reg], Long);
      assert regs.D[reg := regs.D[reg]] == regs.D;
      var quotient := Signed(Divide.Quotient(dividend, divisor), Long);
      if quotient > 0x7fff || quotient < -0x8000 {
        regs := regs.(SR := ReplaceFlags(regs.SR, MASK_NZVC, SR_OVERFLOW));
        return None;
      }
      var remainder := Divide.Remainder(dividend, divisor);
      regs := regs.(D := regs.D[reg := Divide.Packed(quotient, remainder)],
                    SR := ReplaceFlags(regs.SR, MASK_NZVC, Divide.QuotientFlags(quotient)));
      error := None;
    }

    /** ADDX, SUBX, ABCD and SBCD Dy,Dx. */
    method ExtendRegister(op: Op, srcReg: nat, dstReg: nat)
      requires Valid() && srcReg < 8 && dstReg < 8
      modifies `regs
      ensures Valid() && View() == old(View()).(regs := StepRegister(old(regs), op, srcReg, dstReg))
      ensures RegisterStep(old(regs), regs, op, srcReg, dstReg)
      ensures op.Chainable() && op.ValidLimb(Low(old(regs).D[srcReg], op.Width())) &&
              op.ValidLimb(Low(old(regs).D[dstReg], op.Width())) ==>
                RegisterBalance(old(regs), regs, op, srcReg, dstReg)
    {
      hide Step, Bus.Valid, Merged, RegisterBalance, RegisterStep;
      StepRegisterExactly(regs, op, srcReg, dstReg);
      if op.Chainable() && op.ValidLimb(Low(regs.D[srcReg], op.Width())) &&
         op.ValidLimb(Low(regs.D[dstReg], op.Width())) {
        StepRegisterMeaning(regs, op, srcReg, dstReg);
      }
      var (limb, sr) := Step(op, regs.D[srcReg], regs.D[dstReg], regs.SR);
      regs := regs.(D := regs.D[dstReg := Merged(regs.D[dstReg], limb, op.Width())]);
      regs := regs.(SR := sr);
    }

    /** The same -(Ay),-(Ax). */
    method ExtendMemory(op: Op, srcReg: nat, dstReg: nat) returns (error: Option<Fault>)
      requires Valid() && srcReg < 8 && dstReg < 8
      modifies `regs, `fault, bus`hookLog, ram.mem
      ensures Valid() && (View(), error) == StepMemory(old(View()), op, srcReg, dstReg)
    {
      hide Core.Read, Core.Write, Step, Bus.Valid, Decrement, Op.Width, DataContext;
      var size := op.Width();
      var srcAddr := Wrap32(regs.A[srcReg] as int - Decrement(srcReg, size));
      var dstAddr := Wrap32(regs.A[dstReg] as int - Decrement(dstReg, size));
      regs := regs.(A := regs.A[srcReg := srcAddr]);
      regs := regs.(A := regs.A[dstReg := dstAddr]);
      SameAddresses(old(regs), size, srcReg, dstReg);
      var src := ReadContext(size, srcAddr, DataContext(regs));
      if src.Err? {
        return Some(src.fault);
      }
      var dst := ReadContext(size, dstAddr, DataContext(regs));
      if dst.Err? {
        return Some(dst.fault);
      }
      var (limb, sr) := Step(op, src.value, dst.value, regs.SR);
      error := WriteContext(size, dstAddr, limb, DataContext(regs));
      if error.Some? {
        return;
      }
      regs := regs.(SR := sr);
    }

    /** A register shifted or rotated by a register's low six bits, or by 1 to 8. */
    method ShiftRotate(register: nat, size: Size, countField: nat, registerCount: bool, op: Shift.ShiftOp, left: bool)
      returns (result: nat, flags: Shift.ShiftFlags)
      requires Valid() && register < 8 && countField < 8
      modifies `regs
      ensures Valid() && View() == old(View()).(regs := old(regs).(D := regs.D, SR := regs.SR))
      ensures forall i :: 0 <= i < 8 && i != register ==> regs.D[i] == old(regs).D[i]
      ensures result == Low(regs.D[register], size)
      ensures regs.D[register] as int - result == old(regs).D[register] as int - Low(old(regs).D[register], size)
      ensures var count := if registerCount then old(regs).D[countField] % 64
                           else if countField == 0 then 8 else countField;
              ShiftResult(op, left, Low(old(regs).D[register], size), count, size, old(regs).SR, result, regs.SR, flags)
    {
      hide Shift.Masked, Shift.Meaning, Shift.UpdateShiftRotateFlags, Bus.Valid, Merged, Pow2, X, ShiftResult, Low;
      var count: nat := if registerCount then regs.D[countField] % 0x40 else if countField == 0 then 8 else countField;
      result, flags := Shift.DoShiftRotate(regs.D[register], count, size.Bits(), op, left, X(regs.SR));
      ShiftResults(op, left, regs.D[register], count, size, regs.SR, result, flags);
      FitsSize(result, size);
      MergedParts(regs.D[register], Wrap32(result), size);
      var was := regs.D[register];
      regs := regs.(D := regs.D[register := Merged(was, Wrap32(result), size)]);
      regs := regs.(SR := Shift.UpdateShiftRotateFlags(regs.SR, result, size.Bits(), flags));
    }

    /** MOVEM list,<ea> */
    method MovemToMemory(mask: u16, mode: StoreMode, size: Size) returns (error: Option<Fault>)
      requires Valid() && (mode.Predecrement? ==> mode.reg < 8)
      modifies `regs, `fault, bus`hookLog, ram.mem
      ensures Valid() && (View(), error) == StoreMultiple(old(View()), mask, mode, size)
    {
      hide Core.Write, Bus.Valid, Listed, Reverse16, Register;
      var order := MovemRegisterOrder(mask, mode.Predecrement?);
      ghost var list := Listed(if mode.Predecrement? then Reverse16(mask) else mask);
      ghost var start := View();
      var addr: u32 := match mode case Predecrement(reg) => regs.A[reg] case StoreAt(a) => a;
      ghost var first := addr;
      for i := 0 to |order|
        invariant Valid() && regs == old(regs)
        invariant mode.Predecrement? ==>
                    StoreDown(View(), list, |list| - i, addr, size) == StoreDown(start, list, |list|, first, size)
        invariant mode.StoreAt? ==> StoreUp(View(), list, i, addr, size) == StoreUp(start, list, 0, first, size)
      {
        if mode.Predecrement? {
          addr := Wrap32(addr as int - size.Bytes());
        }
        error := WriteContext(size, addr, Register(regs, order[i]), DataContext(regs));
        if error.Some? {
          return;
        }
        if !mode.Predecrement? {
          addr := Wrap32(addr + size.Bytes());
        }
      }
      match mode {
        case Predecrement(reg) => regs := regs.(A := regs.A[reg := addr]);
        case StoreAt(_) =>
      }
      error := None;
    }

    /** MOVEM <ea>,list */
    method MovemToRegisters(mask: u16, mode: LoadMode, size: Size) returns (error: Option<Fault>)
      requires Valid() && (mode.Postincrement? ==> mode.reg < 8)
      modifies `regs, `fault, bus`hookLog
      ensures Valid() && (View(), error) == LoadMultiple(old(View()), mask, mode, size)
    {
      hide Core.Read, Bus.Valid, Listed, WithRegister, Extended, Bit;
      var order := MovemRegisterOrder(mask, false);
      ghost var start := View();
      var addr: u32 := match mode case Postincrement(reg) => regs.A[reg] case LoadAt(a) => a;
      ghost var first := addr;
      for i := 0 to |order|
        invariant Valid()
        invariant LoadUp(View(), order, i, addr, size) == LoadUp(start, order, 0, first, size)
      {
        var value := ReadContext(size, addr, DataContext(regs));
        if value.Err? {
          return Some(value.fault);
        }
        regs := WithRegister(regs, order[i], Extended(size, value.value));
        addr := Wrap32(addr + size.Bytes());
      }
      match mode {
        case Postincrement(reg) =>
          if !Bit(mask, 8 + reg) {
            regs := regs.(A := regs.A[reg := addr]);
          }
        case LoadAt(_) =>
      }
      error := None;
    }
  }
}
