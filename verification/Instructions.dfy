/** Single instructions on the machine, faulting accesses included (op_arithmetic.go,
    op_data_transfer.go): what they leave in registers, memory and the recorded fault. */
module Instructions {
  import opened Words
  import opened Memory
  import opened Bits
  import opened Status
  import opened Core
  import opened CoreMemory
  import opened ExceptionEntry
  import opened Outcomes
  import opened Chains
  import opened MemoryChains
  import opened Movem

  // ---- One data access ----

  /** The access does not run over the end of a RAM that fills the whole address space. */
  predicate NoWrap(mem: Image, s: Size, a: u32) {
    Address24(a) + s.Bytes() <= 0x100_0000 || |mem.bytes| < 0x100_0000
  }

  /** A data access of the running code at a has failed: the error and the recorded fault. */
  ghost predicate Failed(c: State, s: Size, a: u32, write: bool, f: Option<Fault>, fault: FaultInfo) {
    var refusal := Refusal(c.mem, c.fast, s, Address24(a));
    && f == Some(refusal)
    && fault == FaultInfo(Address24(FaultAddress(refusal)), c.regs.PC, c.regs.IR,
                          if Bit(c.regs.SR, 13) then 5 else 1, false, write)
  }

  lemma ReadOutcome(c: State, s: Size, a: u32)
    requires c.mem.Inside24() && NoWrap(c.mem, s, a)
    ensures var (d, r) := Read(c, s, a, DataContext(c.regs));
            if Inside(c.mem, s, a) then d == c && r == Ok(LimbAt(c.mem, Address24(a), s))
            else r.Err? && d == c.(fault := d.fault) && Failed(c, s, a, false, Some(r.fault), d.fault)
  {
    hide Core.Load, Memory.Load, Address24, Refusal, Image.Inside24, Supervisor, Bit;
    FlagBits(c.regs.SR);
    AccessFaults(c.mem, c.fast, s, a, 0);
    if |c.mem.bytes| < 0x100_0000 {
      LoadsExactly(c.mem, c.fast, s, a);
    } else {
      LoadExactly(c.mem, c.fast, s, a);
    }
    if Inside(c.mem, s, a) { LoadInside(c.mem, c.fast, s, a); }
  }

  lemma WriteOutcome(c: State, s: Size, a: u32, v: u32)
    requires c.mem.Inside24() && Inside(c.mem, s, a)
    ensures var (d, f) := Write(c, s, a, v, DataContext(c.regs));
            f.None? && d == c.(mem := d.mem) && SameOutside(c, d, Address24(a), Address24(a) + s.Bytes()) &&
            LimbAt(d.mem, Address24(a), s) == Low(v, s)
  {
    hide Core.Store, Memory.Load, Memory.Store, Address24, Image.Inside24;
    InsideEnds(c.mem, s, a);
    StoreInside(c.mem, c.fast, s, a, v);
    Written(c, s, a, v, DataContext(c.regs));
  }

  lemma InsideEnds(mem: Image, s: Size, a: u32)
    requires mem.Inside24() && Inside(mem, s, a)
    ensures Address24(a) + s.Bytes() <= 0x100_0000
  {
  }

  // ---- ADDX, SUBX, ABCD and SBCD -(Ay),-(Ax) ----

  /** Where an operand lies once its register is decremented. */
  function OperandAt(regs: Registers, op: Op, reg: nat): u32
    requires reg < 8
  {
    Wrap32(regs.A[reg] as int - Decrement(reg, op.Width()))
  }

  /** The memory form for any operands: both registers are decremented even when an access fails; it
      completes exactly when both operands can be read, and then only the destination, the two
      registers and the condition codes have changed. A failing read is reported for the source first
      and leaves memory and SR alone. */
  lemma MemoryStepExactly(c: State, op: Op, srcReg: nat, dstReg: nat)
    requires srcReg < 8 && dstReg < 8 && c.mem.Inside24()
    requires NoWrap(c.mem, op.Width(), OperandAt(c.regs, op, srcReg))
    requires NoWrap(c.mem, op.Width(), OperandAt(c.regs, op, dstReg))
    ensures var w := op.Width();
            var sa, da := OperandAt(c.regs, op, srcReg), OperandAt(c.regs, op, dstReg);
            var (d, f) := StepMemory(c, op, srcReg, dstReg);
            d.regs == c.regs.(A := c.regs.A[srcReg := sa][dstReg := da], SR := d.regs.SR) &&
            if !Inside(c.mem, w, sa) then
              d.mem == c.mem && d.regs.SR == c.regs.SR && Failed(c, w, sa, false, f, d.fault)
            else if !Inside(c.mem, w, da) then
              d.mem == c.mem && d.regs.SR == c.regs.SR && Failed(c, w, da, false, f, d.fault)
            else
              f.None? && d.fault == c.fault && SameOutside(c, d, Address24(da), Address24(da) + w.Bytes()) &&
              StepResult(op, LimbAt(c.mem, Address24(sa), w), LimbAt(c.mem, Address24(da), w), c.regs.SR,
                         LimbAt(d.mem, Address24(da), w), d.regs.SR)
  {
    hide Address24, Step, Decrement, Wrap32, Op.Width, Read, Write, Inside, LimbAt, NoWrap, Image.Inside24, StepResult;
    hide SameOutside, Refusal;
    var w := op.Width();
    var regs := Decremented(c.regs, w, srcReg, dstReg);
    var sa, da := regs.A[srcReg], regs.A[dstReg];
    var c0 := c.(regs := regs);
    ReadOutcome(c0, w, sa);
    if Inside(c.mem, w, sa) {
      ReadOutcome(c0, w, da);
      if Inside(c.mem, w, da) {
        var s, t := LimbAt(c.mem, Address24(sa), w), LimbAt(c.mem, Address24(da), w);
        var limb := Step(op, s, t, c.regs.SR).0;
        WriteOutcome(c0, w, da, limb);
        SameMemory(c0, c, Write(c0, w, da, limb, DataContext(regs)).0, StepMemory(c, op, srcReg, dstReg).0,
                   Address24(da), Address24(da) + w.Bytes());
        StepFits(op, s, t, c.regs.SR);
        StepResults(op, s, t, c.regs.SR);
      }
    }
  }

  /** The result and status word of a step on any operands; BcdAddMeaning and BcdSubMeaning add what
      the decimal result is on valid ones. */
  ghost predicate StepResult(op: Op, src: u32, dst: u32, sr: u16, r: u32, sr': u16) {
    if op.Addx? || op.Subx? then BinaryResult(op, src, dst, sr, r, sr')
    else
      && (Z(sr') <==> Z(sr) && r == 0) && (C(sr') <==> X(sr')) && !N(sr') && !V(sr') && sr' / 0x20 == sr / 0x20
      && (op.ValidLimb(src) && op.ValidLimb(dst) ==>
          op.ValidLimb(r) && Balanced(op, op.Digit(r), X(sr'), op.Digit(src), op.Digit(dst), X(sr), 100))
  }

  lemma StepResults(op: Op, src: u32, dst: u32, sr: u16)
    ensures var (r, sr') := Step(op, src, dst, sr); StepResult(op, src, dst, sr, r, sr')
  {
    hide Step, BinaryResult, Balanced, Op.Digit, X, Z, C, N, V;
    if op.Addx? || op.Subx? {
      BinaryStepMeaning(op, src, dst, sr);
    } else {
      DecimalFlags(op, src, dst, sr);
      if op.ValidLimb(src) && op.ValidLimb(dst) {
        ValidIsLow(op, src);
        ValidIsLow(op, dst);
        hide Op.ValidLimb;
        StepMeaning(op, src, dst, sr);
      }
    }
  }

  // ---- MOVEM: which register goes where ----

  /** Whether the mask names register r, counting D0 to D7 and then A0 to A7; with -(An) it is read
      from the other end. */
  predicate Names(mask: u16, reversed: bool, r: int)
    requires 0 <= r < 16
  {
    Bit(mask, if reversed then 15 - r else r)
  }

  ghost function RegisterSet(mask: u16, reversed: bool): set<int> {
    set r | 0 <= r < 16 && Names(mask, reversed, r)
  }

  /** How many of the registers come before r. */
  ghost function Before(listed: set<int>, r: int): nat {
    |set k | k in listed && k < r|
  }

  lemma {:induction false} Positions(mask: u16, n: nat)
    requires n <= 16
    ensures |ListedBelow(mask, n)| == Before(RegisterSet(mask, false), n)
    ensures forall r: Reg :: r < n && Bit(mask, r) ==>
              Before(RegisterSet(mask, false), r) < |ListedBelow(mask, n)| &&
              ListedBelow(mask, n)[Before(RegisterSet(mask, false), r)] == r
    decreases n
  {
    hide Bit, Before, RegisterSet;
    var all := RegisterSet(mask, false);
    NamedSets(mask);
    NoneBefore(all);
    if n > 0 {
      Positions(mask, n - 1);
      OneMoreBefore(all, n - 1);
      forall r: Reg | r < n && Bit(mask, r)
        ensures Before(all, r) < |ListedBelow(mask, n)| && ListedBelow(mask, n)[Before(all, r)] == r
      {
        if r < n - 1 { assert ListedBelow(mask, n - 1)[Before(all, r)] == r; }
      }
    }
  }

  lemma NamedSets(mask: u16)
    ensures forall r: Reg :: r in RegisterSet(mask, false) <==> Bit(mask, r)
    ensures forall r :: r in RegisterSet(mask, false) ==> 0 <= r < 16
  {
    hide Bit;
  }

  lemma NoneBefore(listed: set<int>)
    requires forall r :: r in listed ==> r >= 0
    ensures Before(listed, 0) == 0
  {
    assert (set k | k in listed && k < 0) == {};
  }

  lemma OneMoreBefore(listed: set<int>, n: int)
    ensures Before(listed, n + 1) == Before(listed, n) + if n in listed then 1 else 0
  {
    assert (set k | k in listed && k < n + 1) ==
           (set k | k in listed && k < n) + if n in listed then {n} else {};
  }

  lemma ListPositions(mask: u16)
    ensures |Listed(mask)| == |RegisterSet(mask, false)|
    ensures forall r: Reg :: Bit(mask, r) ==>
              Before(RegisterSet(mask, false), r) < |Listed(mask)| &&
              Listed(mask)[Before(RegisterSet(mask, false), r)] == r
  {
    Positions(mask, 16);
    var all := RegisterSet(mask, false);
    assert (set k | k in all && k < 16) == all;
    hide ListedBelow, Bit;
  }

  lemma ReversedSet(mask: u16)
    ensures RegisterSet(Reverse16(mask), false) == RegisterSet(mask, true)
  {
    hide Bit, Pow2, ReverseLow;
    forall r: int | 0 <= r < 16 ensures Names(Reverse16(mask), false, r) <==> Names(mask, true, r) {
      ReversedBit(mask, 16, r);
    }
    hide Names, Reverse16;
  }

  /** Memory from base on holds the listed registers without gaps, D0 first and A7 last. */
  ghost predicate Laid(regs: Registers, mem: Image, listed: set<int>, base: int, size: Size) {
    && (forall i :: 0 <= i < 8 && i in listed ==>
          Holds(mem, size, base + size.Bytes() * Before(listed, i), regs.D[i] as int % size.Modulus()))
    && (forall i :: 0 <= i < 8 && 8 + i in listed ==>
          Holds(mem, size, base + size.Bytes() * Before(listed, 8 + i), regs.A[i] as int % size.Modulus()))
  }

  lemma StoredIsLaid(c: State, regs: Registers, mask: u16, base: int, size: Size)
    requires Stored(c, regs, Listed(mask), |Listed(mask)|, base, size)
    ensures Laid(regs, c.mem, RegisterSet(mask, false), base, size)
  {
    hide Holds, Before, Listed, Bit;
    ListPositions(mask);
    var listed := RegisterSet(mask, false);
    forall r: Reg | r in listed
      ensures Holds(c.mem, size, base + size.Bytes() * Before(listed, r), Register(regs, r) as int % size.Modulus())
    {
      assert Listed(mask)[Before(listed, r)] == r;
    }
    forall i | 0 <= i < 8 && i in listed
      ensures Holds(c.mem, size, base + size.Bytes() * Before(listed, i), regs.D[i] as int % size.Modulus())
    {
      assert Register(regs, i) == regs.D[i];
    }
    forall i | 0 <= i < 8 && 8 + i in listed
      ensures Holds(c.mem, size, base + size.Bytes() * Before(listed, 8 + i), regs.A[i] as int % size.Modulus())
    {
      assert Register(regs, 8 + i) == regs.A[i];
    }
  }

  /** The bytes of a list are an even address on and lie in RAM; the empty list needs none. */
  predicate ListFits(mem: Image, base: int, total: nat) {
    total == 0 || (base % 2 == 0 && mem.offset <= base && base + total <= mem.offset + |mem.bytes|)
  }

  lemma SpanIs(k: nat, size: Size)
    ensures Span(k, size) == size.Bytes() * k && (Span(k, size) == 0 <==> k == 0)
  {
  }

  lemma {:induction false} StoreUpKeeps(c: State, order: seq<Reg>, k: nat, addr: u32, size: Size)
    requires k <= |order|
    ensures var (d, f) := StoreUp(c, order, k, addr, size); d.regs == c.regs && (f.None? ==> d.fault == c.fault)
    decreases |order| - k
  {
    hide Write, Wrap32, Register;
    if k < |order| {
      var v := Register(c.regs, order[k]);
      WriteKeeps(c, size, addr, v, DataContext(c.regs));
      StoreUpKeeps(Write(c, size, addr, v, DataContext(c.regs)).0, order, k + 1, Wrap32(addr + size.Bytes()), size);
    }
  }

  lemma {:induction false} StoreDownKeeps(c: State, order: seq<Reg>, k: nat, addr: u32, size: Size)
    requires k <= |order|
    ensures var (d, _, f) := StoreDown(c, order, k, addr, size); d.regs == c.regs && (f.None? ==> d.fault == c.fault)
    decreases k
  {
    hide Write, Wrap32, Register;
    if k > 0 {
      var a, v := Wrap32(addr as int - size.Bytes()), Register(c.regs, order[k - 1]);
      WriteKeeps(c, size, a, v, DataContext(c.regs));
      StoreDownKeeps(Write(c, size, a, v, DataContext(c.regs)).0, order, k - 1, a, size);
    }
  }

  lemma InsideFrom(mem: Image, s: Size, a: u32, at: int)
    requires Address24(a) == at && mem.offset <= at && at + s.Bytes() <= mem.offset + |mem.bytes| && at % 2 == 0
    ensures Inside(mem, s, a)
  {
  }

  lemma {:induction false} StoreUpFits(c: State, order: seq<Reg>, k: nat, addr: u32, size: Size, base: int)
    requires k < |order| && size != Byte && c.mem.Inside24() && Address24(addr) == base + Span(k, size)
    requires base % 2 == 0 && c.mem.offset <= base && base + Span(|order|, size) <= c.mem.offset + |c.mem.bytes|
    ensures StoreUp(c, order, k, addr, size).1.None?
    decreases |order| - k
  {
    hide Write, Address24, Wrap32, Span, Register, Inside;
    var n := size.Bytes();
    SpanStep(k, size);
    SpanStep(k + 1, size);
    SpanMonotone(k + 1, |order|, size);
    EvenSpan(k, size);
    InsideFrom(c.mem, size, addr, base + Span(k, size));
    WriteOutcome(c, size, addr, Register(c.regs, order[k]));
    if k + 1 < |order| {
      SpanStep(k + 2, size);
      SpanMonotone(k + 2, |order|, size);
      AddressPlus(addr, n);
      var c1 := Write(c, size, addr, Register(c.regs, order[k]), DataContext(c.regs)).0;
      StoreUpFits(c1, order, k + 1, Wrap32(addr + n), size, base);
    }
  }

  lemma {:induction false} StoreDownFits(c: State, order: seq<Reg>, k: nat, addr: u32, size: Size, top: int)
    requires k <= |order| && size != Byte && c.mem.Inside24() && EndsAt(addr, top)
    requires k > 0 ==> top % 2 == 0 && c.mem.offset <= top - Span(k, size) && top <= c.mem.offset + |c.mem.bytes|
    ensures StoreDown(c, order, k, addr, size).2.None?
    decreases k
  {
    hide Write, Address24, Wrap32, Span, Register, Inside, EndsAt;
    if k > 0 {
      var n := size.Bytes();
      var a := Wrap32(addr as int - n);
      SpanStep(k, size);
      SpanStep(k - 1, size);
      EndsBelow(addr, top, n);
      InsideFrom(c.mem, size, a, top - n);
      WriteOutcome(c, size, a, Register(c.regs, order[k - 1]));
      var c1 := Write(c, size, a, Register(c.regs, order[k - 1]), DataContext(c.regs)).0;
      StoreDownFits(c1, order, k - 1, a, size, top - n);
    }
  }

  /** MOVEM list,<ea> for a control mode: it completes exactly when its bytes lie in RAM at an even
      address, and then they hold the listed registers, D0 first, and nothing else has changed. No
      register changes, whether it completes or not. */
  lemma StoreAtMeaning(c: State, mask: u16, addr: u32, size: Size)
    requires size != Byte && c.mem.Inside24()
    requires Address24(addr) + size.Bytes() * |RegisterSet(mask, false)| <= 0x100_0000 || |c.mem.bytes| < 0x100_0000
    ensures var listed := RegisterSet(mask, false);
            var base: int, total := Address24(addr), size.Bytes() * |listed|;
            var (d, f) := StoreMultiple(c, mask, StoreAt(addr), size);
            (f.None? <==> ListFits(c.mem, base, total)) && d.regs == c.regs &&
            (f.None? ==> d.fault == c.fault && SameOutside(c, d, base, base + total) &&
                         Laid(c.regs, d.mem, listed, base, size))
  {
    hide Write, Address24, Wrap32, Span, Register, Inside, Listed, RegisterSet, Laid, Stored, Holds, SameOutside;
    var order, base: int := Listed(mask), Address24(addr);
    ListPositions(mask);
    SpanIs(|order|, size);
    SpanIs(0, size);
    StoreUpKeeps(c, order, 0, addr, size);
    if StoreUp(c, order, 0, addr, size).1.None? {
      StoredUp(c, order, 0, addr, size, base);
      var d := StoreUp(c, order, 0, addr, size).0;
      AllStored(d, c.regs, order, base, size);
      StoredIsLaid(d, c.regs, mask, base, size);
      SameShape(c, d, base, base + Span(|order|, size));
      if |order| > 0 { StoredBounds(c, d, order, base, size); }
    } else if |order| > 0 && ListFits(c.mem, base, size.Bytes() * |order|) {
      StoreUpFits(c, order, 0, addr, size, base);
    }
  }

  lemma StoredBounds(c: State, d: State, order: seq<Reg>, base: int, size: Size)
    requires |order| > 0 && d.mem.offset == c.mem.offset && |d.mem.bytes| == |c.mem.bytes|
    requires Stored(d, c.regs, order, |order|, base, size)
    ensures c.mem.offset <= base && base + Span(|order|, size) <= c.mem.offset + |c.mem.bytes|
  {
    SpanStep(0, size);
    SpanStep(|order|, size);
    hide Span, Register, Memory.Load;
    var n := |order| - 1;
    assert Holds(d.mem, size, base + Span(0, size), Register(c.regs, order[0]) as int % size.Modulus());
    assert Holds(d.mem, size, base + Span(n, size), Register(c.regs, order[n]) as int % size.Modulus());
  }

  /** MOVEM list,-(An): the bytes end where An pointed, and the registers named by the reversed mask
      lie in them in the same ascending order. An is decremented by their number exactly when the
      instruction completes, which is when they lie in RAM at an even address. */
  lemma PredecrementMeaning(c: State, mask: u16, reg: nat, size: Size, top: int)
    requires reg < 8 && size != Byte && c.mem.Inside24() && EndsAt(c.regs.A[reg], top)
    requires var total := size.Bytes() * |RegisterSet(mask, true)|;
             top >= total || (top > 0 && |c.mem.bytes| < 0x100_0000)
    ensures var listed := RegisterSet(mask, true);
            var total := size.Bytes() * |listed|;
            var base := top - total;
            var (d, f) := StoreMultiple(c, mask, Predecrement(reg), size);
            (f.None? <==> ListFits(c.mem, base, total)) &&
            d.regs == (if f.None? then c.regs.(A := c.regs.A[reg := Wrap32(c.regs.A[reg] as int - total)])
                       else c.regs) &&
            (f.None? ==> d.fault == c.fault && SameOutside(c, d, base, top) && Laid(c.regs, d.mem, listed, base, size))
  {
    hide Write, Address24, Wrap32, Span, Register, Inside, Listed, RegisterSet, Reverse16, Laid, Stored, Holds,
         SameOutside, EndsAt;
    var order := Listed(Reverse16(mask));
    ListPositions(Reverse16(mask));
    ReversedSet(mask);
    SpanIs(|order|, size);
    var base := top - Span(|order|, size);
    StoreDownKeeps(c, order, |order|, c.regs.A[reg], size);
    var (d, a, f) := StoreDown(c, order, |order|, c.regs.A[reg], size);
    if f.None? {
      StoredDown(c, order, |order|, c.regs.A[reg], size, top);
      StoredIsLaid(d, c.regs, Reverse16(mask), base, size);
      SameShape(c, d, base, top);
      SameMemory(c, c, d, StoreMultiple(c, mask, Predecrement(reg), size).0, base, top);
      if |order| > 0 { StoredBounds(c, d, order, base, size); }
    } else if ListFits(c.mem, base, size.Bytes() * |order|) {
      EvenSpan(|order|, size);
      StoreDownFits(c, order, |order|, c.regs.A[reg], size, top);
    }
  }

  // ---- The other way ----

  /** Each listed register has the value found at its place, words with their sign, and no other
      register has changed. */
  ghost predicate Taken(before: Registers, after: Registers, mem: Image, listed: set<int>, base: int, size: Size) {
    && after == before.(D := after.D, A := after.A)
    && (forall i :: 0 <= i < 8 ==>
          if i in listed then ReadAs(after.D[i], mem, base + size.Bytes() * Before(listed, i), size)
          else after.D[i] == before.D[i])
    && (forall i :: 0 <= i < 8 ==>
          if 8 + i in listed then ReadAs(after.A[i], mem, base + size.Bytes() * Before(listed, 8 + i), size)
          else after.A[i] == before.A[i])
  }

  /** The register reads as the signed number found at a. */
  ghost predicate ReadAs(register: u32, mem: Image, a: int, size: Size) {
    Signed(register, Long) == Signed(LimbAt(mem, a, size), size)
  }

  /** What lies where the list puts register r. */
  ghost function Found(mem: Image, listed: set<int>, base: int, size: Size, r: int): u32 {
    LimbAt(mem, base + size.Bytes() * Before(listed, r), size)
  }

  ghost function FoundRegisters(regs: Registers, mem: Image, listed: set<int>, base: int, size: Size): (r: Registers) {
    regs.(D := seq(8, i requires 0 <= i < 8 => Found(mem, listed, base, size, i)),
          A := seq(8, i requires 0 <= i < 8 => Found(mem, listed, base, size, 8 + i)))
  }

  lemma FoundAt(regs: Registers, mem: Image, listed: set<int>, base: int, size: Size, r: Reg)
    ensures Register(FoundRegisters(regs, mem, listed, base, size), r) == Found(mem, listed, base, size, r)
  {
    hide Found;
  }

  /** Whatever lies in a list's bytes is what some registers would have stored there. */
  lemma FoundIsStored(c: State, mask: u16, base: int, size: Size)
    requires c.mem.offset <= base && base + size.Bytes() * |Listed(mask)| <= c.mem.offset + |c.mem.bytes|
    ensures var order := Listed(mask);
            Stored(c, FoundRegisters(c.regs, c.mem, RegisterSet(mask, false), base, size), order, |order|, base, size)
  {
    hide Before, Listed, RegisterSet, Register, FoundRegisters, Bit, Memory.Load;
    var order, listed := Listed(mask), RegisterSet(mask, false);
    forall i | 0 <= i < |order|
      ensures Holds(c.mem, size, base + Span(i, size),
                    Register(FoundRegisters(c.regs, c.mem, listed, base, size), order[i]) as int % size.Modulus())
    {
      PlaceOf(mask, i);
      FoundAt(c.regs, c.mem, listed, base, size, order[i]);
      SpanIs(i, size);
      SpanIs(i + 1, size);
      SpanIs(|order|, size);
      SpanMonotone(i + 1, |order|, size);
      LimbFits(c.mem, base + Span(i, size), size);
    }
  }

  lemma LimbFits(mem: Image, a: int, size: Size)
    ensures LimbAt(mem, a, size) as int % size.Modulus() == LimbAt(mem, a, size)
  {
  }

  /** The i-th register of the list has i before it. */
  lemma PlaceOf(mask: u16, i: nat)
    requires i < |Listed(mask)|
    ensures Before(RegisterSet(mask, false), Listed(mask)[i]) == i
  {
    hide Before, RegisterSet, ListedBelow, Bit;
    ListPositions(mask);
    ListedMeaning(mask, 16);
    var r := Listed(mask)[i];
    assert r in Listed(mask);
    var k := Before(RegisterSet(mask, false), r);
    assert Listed(mask)[k] == r;
  }

  /** A load changes only listed registers, and the recorded fault only when it fails. */
  lemma {:induction false} LoadUpKeeps(c: State, order: seq<Reg>, k: nat, addr: u32, size: Size)
    requires k <= |order|
    ensures var (d, _, f) := LoadUp(c, order, k, addr, size);
            d.mem == c.mem && d.fast == c.fast && d.regs == c.regs.(D := d.regs.D, A := d.regs.A) &&
            (f.None? ==> d.fault == c.fault) &&
            forall r: Reg :: r !in order[k..] ==> Register(d.regs, r) == Register(c.regs, r)
    decreases |order| - k
  {
    hide Core.Load, Wrap32, Register, WithRegister, Extended, DataContext;
    if k < |order| {
      var (c1, v) := Read(c, size, addr, DataContext(c.regs));
      if v.Ok? {
        var c2 := c1.(regs := WithRegister(c1.regs, order[k], Extended(size, v.value)));
        OneRegister(c1.regs, order[k], Extended(size, v.value));
        LoadUpKeeps(c2, order, k + 1, Wrap32(addr + size.Bytes()), size);
        assert order[k..] == [order[k]] + order[k + 1..];
      }
    }
  }

  lemma OneRegister(regs: Registers, r: Reg, v: u32)
    ensures var after := WithRegister(regs, r, v);
            after == regs.(D := after.D, A := after.A) &&
            forall q: Reg :: q != r ==> Register(after, q) == Register(regs, q)
  {
  }

  /** A load that completes found all its bytes in RAM. */
  lemma {:induction false} LoadUpInside(c: State, order: seq<Reg>, k: nat, addr: u32, size: Size, base: int)
    requires k < |order| && size != Byte && c.mem.Inside24() && Address24(addr) == base + Span(k, size)
    requires base + Span(|order|, size) <= 0x100_0000 || |c.mem.bytes| < 0x100_0000
    requires LoadUp(c, order, k, addr, size).2.None?
    ensures (base + Span(k, size)) % 2 == 0 && c.mem.offset <= base + Span(k, size)
    ensures base + Span(|order|, size) <= c.mem.offset + |c.mem.bytes|
    decreases |order| - k
  {
    hide Read, Address24, Wrap32, Span, WithRegister, Extended, NoWrap, LimbAt, DataContext;
    var n := size.Bytes();
    SpanStep(k + 1, size);
    SpanMonotone(k + 1, |order|, size);
    ReadInside(c, size, addr, base + Span(|order|, size));
    if k + 1 < |order| {
      SpanStep(k + 2, size);
      SpanMonotone(k + 2, |order|, size);
      AddressUp(addr, n);
      var v := LimbAt(c.mem, Address24(addr), size);
      var c1 := c.(regs := WithRegister(c.regs, order[k], Extended(size, v)));
      if Address24(addr) + n < 0x100_0000 {
        LoadUpInside(c1, order, k + 1, Wrap32(addr + n), size, base);
      } else {
        ReadInside(c1, size, Wrap32(addr + n), n);
      }
    }
  }

  lemma ReadInside(c: State, size: Size, addr: u32, end: int)
    requires c.mem.Inside24() && size != Byte && Address24(addr) + size.Bytes() <= end
    requires end <= 0x100_0000 || |c.mem.bytes| < 0x100_0000
    ensures var (d, r) := Read(c, size, addr, DataContext(c.regs));
            r.Ok? ==> d == c && r == Ok(LimbAt(c.mem, Address24(addr), size)) && c.mem.offset <= Address24(addr) &&
                      Address24(addr) + size.Bytes() <= c.mem.offset + |c.mem.bytes| && Address24(addr) % 2 == 0
  {
    ReadOutcome(c, size, addr);
    hide Read, LimbAt, DataContext, Address24;
  }

  lemma ListedRegisters(mask: u16)
    ensures forall r: Reg :: r in Listed(mask) <==> r in RegisterSet(mask, false)
  {
    ListsRegisters(mask, Listed(mask));
    NamedSets(mask);
    hide RegisterSet, ListedBelow, Bit;
  }

  /** The load of a list from base: when it completes and what it puts where. */
  lemma ListLoaded(c: State, mask: u16, addr: u32, size: Size)
    requires size != Byte && c.mem.Inside24()
    requires Address24(addr) + size.Bytes() * |Listed(mask)| <= 0x100_0000 || |c.mem.bytes| < 0x100_0000
    ensures var base: int, total := Address24(addr), size.Bytes() * |Listed(mask)|;
            var (d, a, f) := LoadUp(c, Listed(mask), 0, addr, size);
            (f.None? <==> ListFits(c.mem, base, total)) && d.mem == c.mem && d.fast == c.fast &&
            (f.None? ==> d.fault == c.fault && a == Wrap32(addr as int + total) &&
                         Taken(c.regs, d.regs, c.mem, RegisterSet(mask, false), base, size))
  {
    hide Read, Address24, Wrap32, Span, Register, Listed, RegisterSet, Stored, Found, FoundRegisters, Taken, LoadUp;
    var order, base: int := Listed(mask), Address24(addr);
    SpanIs(|order|, size);
    SpanIs(0, size);
    LoadUpKeeps(c, order, 0, addr, size);
    if order == [] {
      NothingTaken(c, addr, size, mask, base);
    } else {
      if LoadUp(c, order, 0, addr, size).2.None? { LoadUpInside(c, order, 0, addr, size, base); }
      if ListFits(c.mem, base, size.Bytes() * |order|) {
        var found := FoundRegisters(c.regs, c.mem, RegisterSet(mask, false), base, size);
        FoundIsStored(c, mask, base, size);
        RestoresList(c.(regs := found), c, order, addr, base, size);
        RestoredIsTaken(c, LoadUp(c, order, 0, addr, size).0, mask, base, size);
      }
    }
  }

  lemma NothingTaken(c: State, addr: u32, size: Size, mask: u16, base: int)
    requires Listed(mask) == []
    ensures LoadUp(c, Listed(mask), 0, addr, size) == (c, addr, None) && addr == Wrap32(addr as int + 0)
    ensures Taken(c.regs, c.regs, c.mem, RegisterSet(mask, false), base, size)
  {
    ListedRegisters(mask);
    hide RegisterSet, Listed, Before;
  }

  lemma RestoredIsTaken(c: State, d: State, mask: u16, base: int, size: Size)
    requires size != Byte && d.regs == c.regs.(D := d.regs.D, A := d.regs.A)
    requires var found := FoundRegisters(c.regs, c.mem, RegisterSet(mask, false), base, size);
             forall r: Reg :: Register(d.regs, r) ==
               if r in Listed(mask) then Extended(size, Low(Register(found, r), size)) else Register(c.regs, r)
    ensures Taken(c.regs, d.regs, c.mem, RegisterSet(mask, false), base, size)
  {
    hide Listed, RegisterSet, FoundRegisters, Extended, Low, Signed, LimbAt, Before;
    var listed := RegisterSet(mask, false);
    ListedRegisters(mask);
    forall r: Reg
      ensures if r in listed then ReadAs(Register(d.regs, r), c.mem, base + size.Bytes() * Before(listed, r), size)
              else Register(d.regs, r) == Register(c.regs, r)
    {
      FoundAt(c.regs, c.mem, listed, base, size, r);
      ExtendedReads(LimbAt(c.mem, base + size.Bytes() * Before(listed, r), size), size);
    }
    forall i | 0 <= i < 8
      ensures if i in listed then ReadAs(d.regs.D[i], c.mem, base + size.Bytes() * Before(listed, i), size)
              else d.regs.D[i] == c.regs.D[i]
    {
      assert Register(d.regs, i) == d.regs.D[i] && Register(c.regs, i) == c.regs.D[i];
    }
    forall i | 0 <= i < 8
      ensures if 8 + i in listed then ReadAs(d.regs.A[i], c.mem, base + size.Bytes() * Before(listed, 8 + i), size)
              else d.regs.A[i] == c.regs.A[i]
    {
      assert Register(d.regs, 8 + i) == d.regs.A[i] && Register(c.regs, 8 + i) == c.regs.A[i];
    }
  }

  lemma ExtendedReads(v: u32, size: Size)
    requires size != Byte
    ensures Signed(Extended(size, Low(v, size)), Long) == Signed(v, size)
  {
    ExtendedMeaning(v);
    hide Extended, Low, Signed;
  }

  /** MOVEM <ea>,list for a control mode: it completes exactly when its bytes lie in RAM at an even
      address, and then every listed register has its place's value and no other has changed; memory
      is never changed. */
  lemma LoadAtMeaning(c: State, mask: u16, addr: u32, size: Size)
    requires size != Byte && c.mem.Inside24()
    requires Address24(addr) + size.Bytes() * |RegisterSet(mask, false)| <= 0x100_0000 || |c.mem.bytes| < 0x100_0000
    ensures var listed := RegisterSet(mask, false);
            var base: int, total := Address24(addr), size.Bytes() * |listed|;
            var (d, f) := LoadMultiple(c, mask, LoadAt(addr), size);
            (f.None? <==> ListFits(c.mem, base, total)) && d.mem == c.mem &&
            (f.None? ==> d.fault == c.fault && Taken(c.regs, d.regs, c.mem, listed, base, size))
  {
    hide LoadUp, Address24, Listed, RegisterSet, Taken, ListFits;
    ListPositions(mask);
    ListLoaded(c, mask, addr, size);
  }

  /** MOVEM (An)+,list: the same from where An points, with An incremented past the list unless it was
      loaded itself; after a failing read An is not incremented. */
  lemma PostincrementMeaning(c: State, mask: u16, reg: nat, size: Size)
    requires reg < 8 && size != Byte && c.mem.Inside24()
    requires Address24(c.regs.A[reg]) + size.Bytes() * |RegisterSet(mask, false)| <= 0x100_0000 ||
             |c.mem.bytes| < 0x100_0000
    ensures var listed := RegisterSet(mask, false);
            var base: int, total := Address24(c.regs.A[reg]), size.Bytes() * |listed|;
            var (d, f) := LoadMultiple(c, mask, Postincrement(reg), size);
            var incremented := c.regs.(A := c.regs.A[reg := Wrap32(c.regs.A[reg] as int + total)]);
            (f.None? <==> ListFits(c.mem, base, total)) && d.mem == c.mem &&
            (f.None? ==> d.fault == c.fault && Taken(incremented, d.regs, c.mem, listed, base, size)) &&
            (f.Some? && 8 + reg !in listed ==> d.regs.A[reg] == c.regs.A[reg])
  {
    hide LoadUp, Address24, Listed, RegisterSet, ListFits, Before, ReadAs, Wrap32, Register;
    ListPositions(mask);
    ListLoaded(c, mask, c.regs.A[reg], size);
    LoadUpKeeps(c, Listed(mask), 0, c.regs.A[reg], size);
    ListedRegisters(mask);
    NamedSets(mask);
    assert Listed(mask)[0..] == Listed(mask);
    AddressKept(c.regs, LoadUp(c, Listed(mask), 0, c.regs.A[reg], size).0.regs, reg);
  }

  lemma AddressKept(before: Registers, after: Registers, reg: nat)
    requires reg < 8
    ensures Register(after, 8 + reg) == Register(before, 8 + reg) ==> after.A[reg] == before.A[reg]
  {
  }
}
