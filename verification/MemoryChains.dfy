/** ADDX, SUBX, ABCD and SBCD on the machine (op_arithmetic.go): the register form, and the
    memory form -(Ay),-(Ax) whose repetition is multi-precision arithmetic in place. */
module MemoryChains {
  import opened Words
  import opened Memory
  import opened Bits
  import opened Status
  import opened Core
  import opened CoreMemory
  import opened Extend
  import opened Chains

  /** addressRegisterStep: the size of the operand, or for A7 the least even number no smaller. */
  function Decrement(reg: nat, size: Size): (n: nat)
    ensures size.Bytes() <= n <= 4 && (size != Byte ==> n % 2 == 0)
    ensures if reg == 7 then n % 2 == 0 && n <= size.Bytes() + 1 else n == size.Bytes()
  {
    if size == Byte && reg == 7 then 2 else size.Bytes()
  }

  /** (old &^ mask) | (v & mask) */
  function Merged(was: u32, v: u32, size: Size): u32 {
    LowPart(was, size);
    was - Low(was, size) + Low(v, size)
  }

  /** That is what the bit operators make of it: the low part is replaced, the rest kept. */
  lemma MergedIsOr(was: u32, v: u32, size: Size)
    ensures Merged(was, v, size) == Or(AndNot(was, size.Modulus() - 1), And(v, size.Modulus() - 1))
  {
    hide And, AndNot, Or, Pow2;
    Pow2Values();
    assert Pow2(size.Bits()) == size.Modulus();
    OrOfParts(was, v, size.Bits());
  }

  /** Dy,Dx */
  function StepRegister(regs: Registers, op: Op, srcReg: nat, dstReg: nat): Registers
    requires srcReg < 8 && dstReg < 8
  {
    var (limb, sr) := Step(op, regs.D[srcReg], regs.D[dstReg], regs.SR);
    regs.(D := regs.D[dstReg := Merged(regs.D[dstReg], limb, op.Width())], SR := sr)
  }

  /** What the register form does: digits and carries balance on the low parts, the bits above and
      every other register keep their value. */
  lemma StepRegisterMeaning(regs: Registers, op: Op, srcReg: nat, dstReg: nat)
    requires srcReg < 8 && dstReg < 8 && op.Chainable()
    requires op.ValidLimb(Low(regs.D[srcReg], op.Width())) && op.ValidLimb(Low(regs.D[dstReg], op.Width()))
    ensures RegisterBalance(regs, StepRegister(regs, op, srcReg, dstReg), op, srcReg, dstReg)
  {
    hide Step, Op.ValidLimb, Op.Digit, Op.Base, Balanced, Merged, Low, X, Z, C;
    StepMeaning(op, regs.D[srcReg], regs.D[dstReg], regs.SR);
    var limb := Step(op, regs.D[srcReg], regs.D[dstReg], regs.SR).0;
    ValidIsLow(op, limb);
    MergedParts(regs.D[dstReg], limb, op.Width());
  }

  ghost predicate RegisterBalance(regs: Registers, after: Registers, op: Op, srcReg: nat, dstReg: nat)
    requires srcReg < 8 && dstReg < 8
  {
    var w := op.Width();
    var src, dst, r := Low(regs.D[srcReg], w), Low(regs.D[dstReg], w), Low(after.D[dstReg], w);
    && op.ValidLimb(r)
    && Balanced(op, op.Digit(r), X(after.SR), op.Digit(src), op.Digit(dst), X(regs.SR), op.Base())
    && (Z(after.SR) <==> Z(regs.SR) && op.Digit(r) == 0) && (C(after.SR) <==> X(after.SR))
    && after.D[dstReg] as int - r == regs.D[dstReg] as int - dst
    && (forall i :: 0 <= i < 8 && i != dstReg ==> after.D[i] == regs.D[i])
    && after == regs.(D := after.D, SR := after.SR)
  }

  /** What the register form does whatever the operands: the low part of Dx gets the result of the step
      on the low parts, and nothing but that part and the condition codes changes. */
  ghost predicate RegisterStep(regs: Registers, after: Registers, op: Op, srcReg: nat, dstReg: nat)
    requires srcReg < 8 && dstReg < 8
  {
    var w := op.Width();
    var r := Low(after.D[dstReg], w);
    && after == regs.(D := after.D, SR := after.SR)
    && (forall i :: 0 <= i < 8 && i != dstReg ==> after.D[i] == regs.D[i])
    && after.D[dstReg] as int - r == regs.D[dstReg] as int - Low(regs.D[dstReg], w)
    && if op.Addx? || op.Subx? then BinaryResult(op, regs.D[srcReg], regs.D[dstReg], regs.SR, r, after.SR)
       else (Z(after.SR) <==> Z(regs.SR) && r == 0) && (C(after.SR) <==> X(after.SR)) && !N(after.SR) &&
            !V(after.SR) && after.SR / 0x20 == regs.SR / 0x20
  }

  lemma StepRegisterExactly(regs: Registers, op: Op, srcReg: nat, dstReg: nat)
    requires srcReg < 8 && dstReg < 8
    ensures RegisterStep(regs, StepRegister(regs, op, srcReg, dstReg), op, srcReg, dstReg)
  {
    hide Step, Merged, Low, X, Z, C, N, V, BinaryResult;
    var src, dst := regs.D[srcReg], regs.D[dstReg];
    var (limb, sr) := Step(op, src, dst, regs.SR);
    MergedParts(dst, limb, op.Width());
    StepFits(op, src, dst, regs.SR);
    if op.Addx? || op.Subx? { BinaryStepMeaning(op, src, dst, regs.SR); } else { DecimalFlags(op, src, dst, regs.SR); }
  }

  lemma MergedParts(was: u32, v: u32, size: Size)
    ensures Low(Merged(was, v, size), size) == Low(v, size)
    ensures Merged(was, v, size) as int - Low(v, size) == was as int - Low(was, size)
  {
    LowPart(was, size);
    var q := was / size.Modulus();
    assert was == size.Modulus() * q + Low(was, size);
    ModUnique(Merged(was, v, size), size.Modulus(), q, Low(v, size));
  }

  function Decremented(regs: Registers, size: Size, srcReg: nat, dstReg: nat): Registers
    requires srcReg < 8 && dstReg < 8
  {
    var srcAddr := Wrap32(regs.A[srcReg] as int - Decrement(srcReg, size));
    var dstAddr := Wrap32(regs.A[dstReg] as int - Decrement(dstReg, size));
    regs.(A := regs.A[srcReg := srcAddr][dstReg := dstAddr])
  }

  /** -(Ay),-(Ax): both registers are decremented before anything is read. */
  function StepMemory(c: State, op: Op, srcReg: nat, dstReg: nat): (State, Option<Fault>)
    requires srcReg < 8 && dstReg < 8
  {
    var size := op.Width();
    var regs := Decremented(c.regs, size, srcReg, dstReg);
    var (c1, src) := Read(c.(regs := regs), size, regs.A[srcReg], DataContext(regs));
    if src.Err? then (c1, Some(src.fault))
    else
      var (c2, dst) := Read(c1, size, regs.A[dstReg], DataContext(regs));
      if dst.Err? then (c2, Some(dst.fault))
      else
        var (limb, sr) := Step(op, src.value, dst.value, regs.SR);
        var (c3, f) := Write(c2, size, regs.A[dstReg], limb, DataContext(regs));
        if f.Some? then (c3, f) else (c3.(regs := regs.(SR := sr)), None)
  }

  /** n times the same instruction. */
  function RunMemory(c: State, op: Op, srcReg: nat, dstReg: nat, n: nat): (State, Option<Fault>)
    requires srcReg < 8 && dstReg < 8
    decreases n
  {
    if n == 0 then (c, None)
    else
      var (d, f) := StepMemory(c, op, srcReg, dstReg);
      if f.Some? then (d, f) else RunMemory(d, op, srcReg, dstReg, n - 1)
  }

  // ---- Numbers in memory ----

  /** The bytes n decrements run over. */
  function Reach(n: int, step: int): int { n * step }

  lemma ReachStep(n: int, step: nat)
    ensures Reach(n, step) == Reach(n - 1, step) + step && Reach(0, step) == 0
    ensures n >= 1 ==> Reach(n, step) >= step
  {
    if n >= 1 { assert (n - 1) * step >= 0; }
  }

  /** n limbs below `top` lie in RAM, word limbs aligned. */
  ghost predicate Region(mem: Image, top: int, step: nat, n: nat, size: Size) {
    && mem.offset <= top - Reach(n, step) && top <= mem.offset + |mem.bytes|
    && size.Bytes() <= step && (size != Byte ==> top % 2 == 0 && step % 2 == 0)
  }

  function LimbAt(mem: Image, a: int, size: Size): u32 {
    if mem.offset <= a && a + size.Bytes() <= mem.offset + |mem.bytes|
    then Memory.Load(mem.bytes, a - mem.offset, size)
    else 0
  }

  predicate LimbInside(mem: Image, a: int, size: Size) {
    mem.offset <= a && a + size.Bytes() <= mem.offset + |mem.bytes| && (size != Byte ==> a % 2 == 0)
  }

  /** The n limbs below `top`, the one at the highest address being the least significant. */
  function Limbs(mem: Image, top: int, step: nat, n: nat, size: Size): (limbs: seq<u32>)
    ensures |limbs| == n
    decreases n
  {
    if n == 0 then [] else [LimbAt(mem, top - step, size)] + Limbs(mem, top - step, step, n - 1, size)
  }

  lemma {:induction false} LimbsFrame(c: State, d: State, top: int, step: nat, n: nat, size: Size, low: int, high: int)
    requires SameOutside(c, d, low, high) && Region(c.mem, top, step, n, size)
    requires top <= low || high <= top - Reach(n, step)
    ensures Limbs(d.mem, top, step, n, size) == Limbs(c.mem, top, step, n, size)
    decreases n
  {
    hide Reach;
    if n > 0 {
      ReachStep(n, step);
      RegionBelow(c.mem, top, step, n, size);
      LimbFrame(c, d, top - step, size, low, high);
      LimbsFrame(c, d, top - step, step, n - 1, size, low, high);
      hide LimbAt;
    }
  }

  lemma LimbFrame(c: State, d: State, a: int, size: Size, low: int, high: int)
    requires SameOutside(c, d, low, high) && (a + size.Bytes() <= low || high <= a)
    ensures LimbAt(d.mem, a, size) == LimbAt(c.mem, a, size)
  {
    if c.mem.offset <= a && a + size.Bytes() <= c.mem.offset + |c.mem.bytes| {
      LoadFrame(c.mem.bytes, d.mem.bytes, a - c.mem.offset, size);
    }
    hide Memory.Load;
  }

  lemma RegionBelow(mem: Image, top: int, step: nat, n: nat, size: Size)
    requires Region(mem, top, step, n, size) && n > 0
    ensures Region(mem, top - step, step, n - 1, size)
    ensures LimbInside(mem, top - step, size)
  {
    ReachStep(n, step);
    ReachStep(n - 1, step);
    hide Reach;
    assert n > 1 ==> Reach(n - 1, step) >= step;
  }

  /** One step inside RAM: both limbs are read, the destination limb is replaced. */
  lemma StepInside(c: State, op: Op, srcReg: nat, dstReg: nat, src: int, dst: int)
    requires srcReg < 8 && dstReg < 8 && c.mem.Inside24()
    requires var regs := Decremented(c.regs, op.Width(), srcReg, dstReg);
             src == Address24(regs.A[srcReg]) && dst == Address24(regs.A[dstReg])
    requires LimbInside(c.mem, src, op.Width()) && LimbInside(c.mem, dst, op.Width())
    ensures var (d, f) := StepMemory(c, op, srcReg, dstReg);
            var (limb, sr) := Step(op, LimbAt(c.mem, src, op.Width()), LimbAt(c.mem, dst, op.Width()), c.regs.SR);
            f.None? && d.regs == Decremented(c.regs, op.Width(), srcReg, dstReg).(SR := sr) &&
            SameOutside(c, d, dst, dst + op.Width().Bytes()) && LimbAt(d.mem, dst, op.Width()) == Low(limb, op.Width())
  {
    hide Address24, Memory.Load, Memory.Store, Step, Decrement, Wrap32, Op.Width;
    var size := op.Width();
    var regs := Decremented(c.regs, size, srcReg, dstReg);
    LoadInside(c.mem, c.fast, size, regs.A[srcReg]);
    LoadInside(c.mem, c.fast, size, regs.A[dstReg]);
    var b := c.(regs := regs);
    var limb := Step(op, LimbAt(c.mem, src, size), LimbAt(c.mem, dst, size), c.regs.SR).0;
    StoreInside(c.mem, c.fast, size, regs.A[dstReg], limb);
    Written(b, size, regs.A[dstReg], limb, DataContext(regs));
    hide Core.Load, Core.Store, Low;
  }

  // ---- Whole chains ----

  /** The address registers after n decrements. */
  ghost predicate Walked(before: Registers, after: Registers, size: Size, srcReg: nat, dstReg: nat, n: nat)
    requires srcReg < 8 && dstReg < 8
  {
    && after.D == before.D && after.PC == before.PC && after.SSP == before.SSP && after.USP == before.USP &&
       after.IR == before.IR
    && after.A == before.A[srcReg := Wrap32(before.A[srcReg] as int - Reach(n, Decrement(srcReg, size)))]
                          [dstReg := Wrap32(before.A[dstReg] as int - Reach(n, Decrement(dstReg, size)))]
  }

  /** Where limb j lies. */
  function LimbAddress(top: int, step: nat, j: int): int { top - Reach(j + 1, step) }

  predicate Clear(a: int, b: int, size: Size) {
    a + size.Bytes() <= b || b + size.Bytes() <= a
  }

  /** No result is written over a source limb that is still to be read. */
  ghost predicate NoHazard(src: int, ss: nat, dst: int, ds: nat, n: nat, size: Size) {
    forall i, j :: 0 <= i < j < n ==> Clear(LimbAddress(src, ss, j), LimbAddress(dst, ds, i), size)
  }

  /** So it is for operands that lie apart, and for operands of the same step whose source does not
      end above the destination, as when they coincide. */
  lemma ApartIsSafe(src: int, ss: nat, dst: int, ds: nat, n: nat, size: Size)
    requires size.Bytes() <= ss && size.Bytes() <= ds
    requires dst <= src - Reach(n, ss) || src <= dst - Reach(n, ds) || (ss == ds && src <= dst)
    ensures NoHazard(src, ss, dst, ds, n, size)
  {
    hide Reach;
    forall i, j | 0 <= i < j < n ensures Clear(LimbAddress(src, ss, j), LimbAddress(dst, ds, i), size) {
      ReachGrows(i + 1, j + 1, ss);
      ReachGrows(j + 1, n, ss);
      ReachGrows(i + 1, n, ds);
      ReachGrows(0, i + 1, ds);
      ReachGrows(0, j + 1, ss);
      ReachStep(1, ss);
      ReachStep(1, ds);
    }
  }

  lemma ReachGrows(a: nat, b: nat, step: nat)
    requires a <= b
    ensures Reach(a, step) <= Reach(b, step) && (a < b ==> Reach(a, step) + step <= Reach(b, step)) &&
            Reach(0, step) == 0
  {
    if a < b { assert (b - a - 1) * step >= 0; }
  }

  /** All n limbs below top keep clear of the limb at `low`. */
  ghost predicate ClearOf(top: int, step: nat, n: nat, low: int, size: Size) {
    forall j :: 0 <= j < n ==> Clear(LimbAddress(top, step, j), low, size)
  }

  lemma {:induction false} LimbsClear(c: State, d: State, top: int, step: nat, n: nat, size: Size, low: int)
    requires SameOutside(c, d, low, low + size.Bytes())
    requires ClearOf(top, step, n, low, size)
    ensures Limbs(d.mem, top, step, n, size) == Limbs(c.mem, top, step, n, size)
    decreases n
  {
    hide Reach, LimbAt, SameOutside, LimbAddress;
    if n > 0 {
      NextLimb(top, step, 0);
      LimbFrame(c, d, top - step, size, low, low + size.Bytes());
      var below := top - step;
      forall j | 0 <= j < n - 1 ensures Clear(LimbAddress(below, step, j), low, size) {
        NextLimb(top, step, j);
      }
      LimbsClear(c, d, top - step, step, n - 1, size, low);
    }
  }

  lemma NextLimb(top: int, step: nat, j: nat)
    ensures LimbAddress(top, step, 0) == top - step && LimbAddress(top - step, step, j) == LimbAddress(top, step, j + 1)
  {
    ReachStep(1, step);
    ReachStep(j + 2, step);
    hide Reach;
  }

  /** One step on, the hazards are those of the limbs left. */
  lemma NoHazardLeft(src: int, ss: nat, dst: int, ds: nat, n: nat, size: Size)
    requires n > 0 && NoHazard(src, ss, dst, ds, n, size)
    ensures NoHazard(src - ss, ss, dst - ds, ds, n - 1, size)
    ensures ClearOf(src - ss, ss, n - 1, dst - ds, size)
  {
    hide LimbAddress;
    var srcNext, dstNext := src - ss, dst - ds;
    NextLimb(dst, ds, 0);
    forall i, j | 0 <= i < j < n - 1 ensures Clear(LimbAddress(srcNext, ss, j), LimbAddress(dstNext, ds, i), size) {
      NextLimb(src, ss, j);
      NextLimb(dst, ds, i);
      assert Clear(LimbAddress(src, ss, j + 1), LimbAddress(dst, ds, i + 1), size);
    }
    forall j | 0 <= j < n - 1 ensures Clear(LimbAddress(srcNext, ss, j), dstNext, size) {
      NextLimb(src, ss, j);
      assert Clear(LimbAddress(src, ss, j + 1), LimbAddress(dst, ds, 0), size);
    }
  }

  /** The first of n steps: one limb done, and everything in place for the other n - 1. */
  lemma OneStep(c: State, op: Op, srcReg: nat, dstReg: nat, n: nat, srcTop: int, dstTop: int)
    requires srcReg < 8 && dstReg < 8 && c.mem.Inside24() && n > 0
    requires EndsAt(c.regs.A[srcReg], srcTop) && EndsAt(c.regs.A[dstReg], dstTop)
    requires var ss, ds := Decrement(srcReg, op.Width()), Decrement(dstReg, op.Width());
             Region(c.mem, srcTop, ss, n, op.Width()) && Region(c.mem, dstTop, ds, n, op.Width()) &&
             NoHazard(srcTop, ss, dstTop, ds, n, op.Width())
    ensures var size := op.Width();
            var ss, ds := Decrement(srcReg, size), Decrement(dstReg, size);
            var src, dst := srcTop - ss, dstTop - ds;
            var (b, f) := StepMemory(c, op, srcReg, dstReg);
            var (limb, sr) := Step(op, LimbAt(c.mem, src, size), LimbAt(c.mem, dst, size), c.regs.SR);
            f.None? && b.mem.Inside24() && b.regs.SR == sr && LimbAt(b.mem, dst, size) == limb &&
            SameOutside(c, b, dst, dst + ds) &&
            Walked(c.regs, b.regs, size, srcReg, dstReg, 1) &&
            EndsAt(b.regs.A[srcReg], src) && EndsAt(b.regs.A[dstReg], dst) && NoHazard(src, ss, dst, ds, n - 1, size) &&
            Region(b.mem, src, ss, n - 1, size) && Region(b.mem, dst, ds, n - 1, size) &&
            Limbs(b.mem, src, ss, n - 1, size) == Limbs(c.mem, src, ss, n - 1, size) &&
            Limbs(b.mem, dst, ds, n - 1, size) == Limbs(c.mem, dst, ds, n - 1, size)
  {
    hide Address24, Wrap32, Step, LimbAt, Reach, Region, StepMemory, Limbs, Low, Decrement, LimbInside, SameOutside,
         Op.Width;
    hide NoHazard, LimbAddress, Clear, ClearOf;
    var size := op.Width();
    var ss, ds := Decrement(srcReg, size), Decrement(dstReg, size);
    var src, dst := srcTop, dstTop;
    RegionBelow(c.mem, src, ss, n, size);
    RegionBelow(c.mem, dst, ds, n, size);
    RegionStarts(c.mem, src, ss, n, size);
    RegionStarts(c.mem, dst, ds, n, size);
    EndsBelow(c.regs.A[srcReg], src, ss);
    EndsBelow(c.regs.A[dstReg], dst, ds);
    StepInside(c, op, srcReg, dstReg, src - ss, dst - ds);
    var b := StepMemory(c, op, srcReg, dstReg).0;
    StepFits(op, LimbAt(c.mem, src - ss, size), LimbAt(c.mem, dst - ds, size), c.regs.SR);
    NoHazardLeft(src, ss, dst, ds, n, size);
    LimbsClear(c, b, src - ss, ss, n - 1, size, dst - ds);
    WidenSame(c, b, dst - ds, dst - ds + size.Bytes(), dst);
    ReachStep(n, ss);
    ReachStep(n, ds);
    ReachStep(1, ss);
    ReachStep(1, ds);
    LimbsFrame(c, b, dst - ds, ds, n - 1, size, dst - ds, dst);
    SameRegion(c, b, dst - ds, dst, src - ss, ss, n - 1, size);
    SameRegion(c, b, dst - ds, dst, dst - ds, ds, n - 1, size);
  }

  lemma RegionStarts(mem: Image, top: int, step: nat, n: nat, size: Size)
    requires Region(mem, top, step, n, size) && n > 0
    ensures step <= top && size.Bytes() <= step
  {
    ReachStep(n, step);
    hide Reach;
  }

  lemma SameRegion(c: State, d: State, low: int, high: int, top: int, step: nat, n: nat, size: Size)
    requires SameOutside(c, d, low, high) && Region(c.mem, top, step, n, size)
    ensures Region(d.mem, top, step, n, size)
  {
  }

  lemma WidenSame(c: State, d: State, low: int, mid: int, high: int)
    requires SameOutside(c, d, low, mid) && mid <= high
    ensures SameOutside(c, d, low, high) && (c.mem.Inside24() ==> d.mem.Inside24())
  {
  }

  lemma StepFits(op: Op, src: u32, dst: u32, sr: u16)
    ensures Low(Step(op, src, dst, sr).0, op.Width()) == Step(op, src, dst, sr).0
  {
    var limb := Step(op, src, dst, sr).0;
    assert limb < op.Width().Modulus();
    hide Step;
    SignedCases(limb, op.Width());
  }

  lemma ChainStep(op: Op, s: u32, src: seq<u32>, d: u32, dst: seq<u32>, sr: u16)
    requires |src| == |dst|
    ensures var (limb, sr1) := Step(op, s, d, sr);
            var (rest, sr2) := Chain(op, src, dst, sr1);
            Chain(op, [s] + src, [d] + dst, sr) == ([limb] + rest, sr2)
  {
    hide Step;
    assert ([s] + src)[1..] == src && ([d] + dst)[1..] == dst;
  }

  lemma WalkedOn(a: Registers, b: Registers, d: Registers, size: Size, srcReg: nat, dstReg: nat, n: nat)
    requires srcReg < 8 && dstReg < 8 && n > 0
    requires Walked(a, b, size, srcReg, dstReg, 1) && Walked(b, d, size, srcReg, dstReg, n - 1)
    ensures Walked(a, d, size, srcReg, dstReg, n)
  {
    hide Reach, Decrement, Wrap32;
    forall reg | reg == srcReg || reg == dstReg
      ensures Wrap32(Wrap32(a.A[reg] as int - Reach(1, Decrement(reg, size))) as int -
                     Reach(n - 1, Decrement(reg, size))) ==
              Wrap32(a.A[reg] as int - Reach(n, Decrement(reg, size)))
    {
      ReachStep(n, Decrement(reg, size));
      ReachStep(1, Decrement(reg, size));
      ReachStep(n - 1, Decrement(reg, size));
      MinusTwice(a.A[reg], Decrement(reg, size), if n == 1 then 0 else Reach(n - 1, Decrement(reg, size)));
    }
  }

  /** Repeating the memory form n times is the chain over the limbs below the two registers, done in
      place: nothing outside the destination is written. The operands may be one and the same, through
      two registers or through a single one, which is then decremented once a step. */
  lemma {:induction false} MemoryChain(c: State, op: Op, srcReg: nat, dstReg: nat, n: nat, src: int, dst: int)
    requires srcReg < 8 && dstReg < 8 && c.mem.Inside24()
    requires EndsAt(c.regs.A[srcReg], src) && EndsAt(c.regs.A[dstReg], dst)
    requires var ss, ds := Decrement(srcReg, op.Width()), Decrement(dstReg, op.Width());
             Region(c.mem, src, ss, n, op.Width()) && Region(c.mem, dst, ds, n, op.Width()) &&
             NoHazard(src, ss, dst, ds, n, op.Width())
    ensures var size := op.Width();
            var ss, ds := Decrement(srcReg, size), Decrement(dstReg, size);
            var (d, f) := RunMemory(c, op, srcReg, dstReg, n);
            var (limbs, sr) := Chain(op, Limbs(c.mem, src, ss, n, size), Limbs(c.mem, dst, ds, n, size), c.regs.SR);
            f.None? && Limbs(d.mem, dst, ds, n, size) == limbs && d.regs.SR == sr &&
            SameOutside(c, d, dst - Reach(n, ds), dst) && Walked(c.regs, d.regs, size, srcReg, dstReg, n)
    decreases n
  {
    hide Address24, Wrap32, Step, LimbAt, Reach, Region, StepMemory, Walked, SameOutside, Low, Decrement, Op.Width,
         LimbInside;
    hide EndsAt, NoHazard;
    var size := op.Width();
    var ss, ds := Decrement(srcReg, size), Decrement(dstReg, size);
    ReachStep(n, ss);
    ReachStep(n, ds);
    if n == 0 {
      NotMoved(c, size, srcReg, dstReg, dst);
    } else {
      OneStep(c, op, srcReg, dstReg, n, src, dst);
      var b := StepMemory(c, op, srcReg, dstReg).0;
      MemoryChain(b, op, srcReg, dstReg, n - 1, src - ss, dst - ds);
      var d := RunMemory(b, op, srcReg, dstReg, n - 1).0;
      ChainStep(op, LimbAt(c.mem, src - ss, size), Limbs(c.mem, src - ss, ss, n - 1, size),
                LimbAt(c.mem, dst - ds, size), Limbs(c.mem, dst - ds, ds, n - 1, size), c.regs.SR);
      hide Chain;
      LimbFrame(b, d, dst - ds, size, dst - Reach(n, ds), dst - ds);
      SameJoined(c, b, d, dst - Reach(n, ds), dst - ds, dst);
      WalkedOn(c.regs, b.regs, d.regs, size, srcReg, dstReg, n);
    }
  }

  lemma NotMoved(c: State, size: Size, srcReg: nat, dstReg: nat, dst: int)
    requires srcReg < 8 && dstReg < 8
    ensures Walked(c.regs, c.regs, size, srcReg, dstReg, 0) && SameOutside(c, c, dst, dst)
  {
    assert c.regs.A == c.regs.A[srcReg := c.regs.A[srcReg]][dstReg := c.regs.A[dstReg]];
  }

  /** The main result: n instructions -(Ay),-(Ax) replace the n-limb number below Ax by its sum or
      difference with the one below Ay modulo base^n, X being the carry or borrow that is left. The
      source is left alone where it lies apart; where it coincides, the number is doubled or cleared. */
  lemma MemoryArithmetic(c: State, op: Op, srcReg: nat, dstReg: nat, n: nat, src: int, dst: int)
    requires srcReg < 8 && dstReg < 8 && c.mem.Inside24() && op.Chainable()
    requires EndsAt(c.regs.A[srcReg], src) && EndsAt(c.regs.A[dstReg], dst)
    requires var ss, ds := Decrement(srcReg, op.Width()), Decrement(dstReg, op.Width());
             Region(c.mem, src, ss, n, op.Width()) && Region(c.mem, dst, ds, n, op.Width()) &&
             NoHazard(src, ss, dst, ds, n, op.Width()) &&
             ValidLimbs(op, Limbs(c.mem, src, ss, n, op.Width())) &&
             ValidLimbs(op, Limbs(c.mem, dst, ds, n, op.Width()))
    ensures var size := op.Width();
            var ss, ds := Decrement(srcReg, size), Decrement(dstReg, size);
            var (d, f) := RunMemory(c, op, srcReg, dstReg, n);
            var a, b := Value(op, Limbs(c.mem, dst, ds, n, size)), Value(op, Limbs(c.mem, src, ss, n, size));
            var exact := if op.Adds() then a + b + ToInt(X(c.regs.SR)) else a - b - ToInt(X(c.regs.SR));
            var m := Power(op.Base(), n);
            f.None? && m > 0 && Value(op, Limbs(d.mem, dst, ds, n, size)) == exact % m &&
            (X(d.regs.SR) <==> !(0 <= exact < m)) && (Z(d.regs.SR) <==> Z(c.regs.SR) && exact % m == 0) &&
            SameOutside(c, d, dst - Reach(n, ds), dst) &&
            (dst <= src - Reach(n, ss) || src <= dst - Reach(n, ds) ==>
               Limbs(d.mem, src, ss, n, size) == Limbs(c.mem, src, ss, n, size))
  {
    hide *;
    var size := op.Width();
    var ss, ds := Decrement(srcReg, size), Decrement(dstReg, size);
    MemoryChain(c, op, srcReg, dstReg, n, src, dst);
    ChainComputes(op, Limbs(c.mem, src, ss, n, size), Limbs(c.mem, dst, ds, n, size), c.regs.SR);
    if dst <= src - Reach(n, ss) || src <= dst - Reach(n, ds) {
      LimbsFrame(c, RunMemory(c, op, srcReg, dstReg, n).0, src, ss, n, size, dst - Reach(n, ds), dst);
    }
  }
}
