/** Chains of ADDX, SUBX, ABCD or SBCD steps (op_arithmetic.go) compute multi-limb arithmetic. */
module Chains {
  import opened Words
  import opened Bits
  import opened Status
  import opened Arithmetic
  import opened Extend

  /** bcdAdd */
  function BcdAdd(src: u8, dst: u8, extend: bool): (u8, bool) {
    var lo := src as int % 16 + dst % 16 + ToInt(extend);
    var sum := src as int + dst + ToInt(extend) + if lo > 9 then 6 else 0;
    var carry := sum > 0x99;
    ((sum + if carry then 0x60 else 0) % 0x100, carry)
  }

  /** bcdSub */
  function BcdSub(src: u8, dst: u8, extend: bool): (u8, bool) {
    var low := dst as int % 16 - src % 16 - ToInt(extend);
    var diff := dst as int - src - ToInt(extend) - if low < 0 then 6 else 0;
    var borrow := diff < 0;
    ((diff - if borrow then 0x60 else 0) % 0x100, borrow)
  }

  /** updateBCDFlags for ABCD and SBCD, where Z can only be cleared. */
  function UpdateBCDFlags(sr: u16, result: u8, carry: bool, prevZero: bool): u16 {
    var sr1 := AndNot16(sr, SR_CARRY + SR_OVERFLOW + SR_NEGATIVE);
    var sr2 := if carry then Or16(sr1, SR_CARRY + SR_EXTEND) else AndNot16(sr1, SR_EXTEND);
    if result == 0 && prevZero then Or16(sr2, SR_ZERO) else AndNot16(sr2, SR_ZERO)
  }

  lemma BCDFlags(sr: u16, result: u8, carry: bool, prevZero: bool)
    ensures FlagsOf(UpdateBCDFlags(sr, result, carry, prevZero)) ==
            Flags(carry, false, result == 0 && prevZero, false, carry, Supervisor(sr))
  {
    hide And;
    assert FlagsOf(sr).s == Supervisor(sr);
    FlagBits(SR_CARRY + SR_OVERFLOW + SR_NEGATIVE);
    BCDFlagWord(sr, result, carry, prevZero);
  }

  lemma BCDFlagWord(sr: u16, result: u8, carry: bool, prevZero: bool)
    requires FlagsOf(SR_CARRY + SR_OVERFLOW + SR_NEGATIVE) == Flags(false, true, false, true, true, false)
    ensures FlagsOf(UpdateBCDFlags(sr, result, carry, prevZero)) ==
            Flags(carry, false, result == 0 && prevZero, false, carry, FlagsOf(sr).s)
  {
    hide FlagsOf, AndNot16, Or16;
    var sr1 := AndNot16(sr, SR_CARRY + SR_OVERFLOW + SR_NEGATIVE);
    var sr2 := if carry then Or16(sr1, SR_CARRY + SR_EXTEND) else AndNot16(sr1, SR_EXTEND);
    MaskFlags();
    AndNotFlags(sr, SR_CARRY + SR_OVERFLOW + SR_NEGATIVE);
    OrFlags(sr1, SR_CARRY + SR_EXTEND);
    AndNotFlags(sr1, SR_EXTEND);
    OrFlags(sr2, SR_ZERO);
    AndNotFlags(sr2, SR_ZERO);
  }

  /** One instruction of a chain; Addx and Subx at the width of a limb. */
  datatype Op = Addx(size: Size) | Subx(size: Size) | Abcd | Sbcd {
    function Width(): Size {
      if Addx? || Subx? then size else Byte
    }

    function Base(): (b: nat)
      ensures b >= 100
    {
      if Addx? || Subx? then size.Modulus() else 100
    }

    predicate Adds() { Addx? || Abcd? }

    function Inverse(): Op {
      match this case Addx(s) => Subx(s) case Subx(s) => Addx(s) case Abcd => Sbcd case Sbcd => Abcd
    }

    /** The number a limb stands for. */
    function Digit(limb: nat): nat {
      if Addx? || Subx? then limb else 10 * (limb / 16) + limb % 16
    }

    predicate ValidLimb(limb: nat) {
      limb < Width().Modulus() && (Abcd? || Sbcd? ==> limb / 16 <= 9 && limb % 16 <= 9)
    }

    /** The carry of the Long forms is not a carry, so chains exist at the other widths. */
    predicate Chainable() { Addx? || Subx? ==> size != Long }
  }

  /** What the instruction does to its destination limb and to the status register. */
  function Step(op: Op, src: u32, dst: u32, sr: u16): (u32, u16) {
    match op
    case Addx(size) =>
      var (result, flags) := AddWithExtend(src, dst, size, X(sr));
      (result, ReplaceFlags(sr, MASK_NZVCX, UpdateExtendZeroFlag(flags, size, result, Z(sr))))
    case Subx(size) =>
      var (result, flags) := SubWithExtend(src, dst, size, X(sr));
      (result, ReplaceFlags(sr, MASK_NZVCX, UpdateExtendZeroFlag(flags, size, result, Z(sr))))
    case Abcd =>
      var (result, carry) := BcdAdd(src % 0x100, dst % 0x100, X(sr));
      (result, UpdateBCDFlags(sr, result, carry, Z(sr)))
    case Sbcd =>
      var (result, borrow) := BcdSub(src % 0x100, dst % 0x100, X(sr));
      (result, UpdateBCDFlags(sr, result, borrow, Z(sr)))
  }

  /** A product, named so that proofs about whole chains need not open it. */
  function Times(a: int, b: int): int { a * b }

  /** The equation of one digit position: what leaves through X is what does not fit. */
  predicate Balanced(op: Op, result: int, out: bool, src: int, dst: int, extend: bool, weight: int) {
    if op.Adds() then result + Times(weight, ToInt(out)) == dst + src + ToInt(extend)
    else result == dst - src - ToInt(extend) + Times(weight, ToInt(out))
  }

  lemma TwoDigits(high: int, low: int)
    requires 0 <= high <= 9 && 0 <= low <= 9
    ensures (16 * high + low + 0x100) % 0x100 == (16 * high + low) % 0x100 == (16 * high + low - 0x100) % 0x100 ==
              16 * high + low
    ensures (16 * high + low) / 16 == high && (16 * high + low) % 16 == low
  {
  }

  /** Decimal addition of two digit pairs, as the binary corrections carry it out. */
  lemma DecimalAdd(hs: nat, ls: nat, hd: nat, ld: nat, e: nat)
    requires hs <= 9 && ls <= 9 && hd <= 9 && ld <= 9 && e <= 1
    ensures var sum := 16 * (hs + hd) + ls + ld + e + if ls + ld + e > 9 then 6 else 0;
            var carry := sum > 0x99;
            var r := (sum + if carry then 0x60 else 0) % 0x100;
            r / 16 <= 9 && r % 16 <= 9 &&
            10 * (r / 16) + r % 16 + (if carry then 100 else 0) == 10 * (hs + hd) + ls + ld + e
  {
    var c := if ls + ld + e > 9 then 1 else 0;
    var low := ls + ld + e - 10 * c;
    var high := hs + hd + c;
    var sum := 16 * (hs + hd) + ls + ld + e + if ls + ld + e > 9 then 6 else 0;
    assert sum == 16 * high + low && (sum > 0x99 <==> high > 9);
    TwoDigits(if high > 9 then high - 10 else high, low);
  }

  lemma DecimalSub(hs: nat, ls: nat, hd: nat, ld: nat, e: nat)
    requires hs <= 9 && ls <= 9 && hd <= 9 && ld <= 9 && e <= 1
    ensures var diff := 16 * hd + ld - 16 * hs - ls - e - if ld - ls - e < 0 then 6 else 0;
            var borrow := diff < 0;
            var r := (diff - if borrow then 0x60 else 0) % 0x100;
            r / 16 <= 9 && r % 16 <= 9 &&
            10 * (r / 16) + r % 16 == 10 * hd + ld - 10 * hs - ls - e + if borrow then 100 else 0
  {
    var c := if ld - ls - e < 0 then 1 else 0;
    var low := ld - ls - e + 10 * c;
    var high := hd - hs - c;
    var diff := 16 * hd + ld - 16 * hs - ls - e - if ld - ls - e < 0 then 6 else 0;
    assert diff == 16 * high + low && (diff < 0 <==> high < 0);
    TwoDigits(if high < 0 then high + 10 else high, low);
  }

  lemma BcdAddMeaning(src: u8, dst: u8, extend: bool)
    requires Abcd.ValidLimb(src) && Abcd.ValidLimb(dst)
    ensures var (r, out) := BcdAdd(src, dst, extend);
            Abcd.ValidLimb(r) && Balanced(Abcd, Abcd.Digit(r), out, Abcd.Digit(src), Abcd.Digit(dst), extend, 100)
  {
    var hs, ls, hd, ld := src / 16, src % 16, dst / 16, dst % 16;
    assert src == 16 * hs + ls && dst == 16 * hd + ld;
    DecimalAdd(hs, ls, hd, ld, ToInt(extend));
  }

  lemma BcdSubMeaning(src: u8, dst: u8, extend: bool)
    requires Sbcd.ValidLimb(src) && Sbcd.ValidLimb(dst)
    ensures var (r, out) := BcdSub(src, dst, extend);
            Sbcd.ValidLimb(r) && Balanced(Sbcd, Sbcd.Digit(r), out, Sbcd.Digit(src), Sbcd.Digit(dst), extend, 100)
  {
    var hs, ls, hd, ld := src / 16, src % 16, dst / 16, dst % 16;
    assert src == 16 * hs + ls && dst == 16 * hd + ld;
    DecimalSub(hs, ls, hd, ld, ToInt(extend));
  }

  lemma AbcdStep(src: u8, dst: u8, sr: u16)
    requires Abcd.ValidLimb(src) && Abcd.ValidLimb(dst)
    ensures var (r, sr') := Step(Abcd, src, dst, sr);
            Abcd.ValidLimb(r) && Balanced(Abcd, Abcd.Digit(r), X(sr'), Abcd.Digit(src), Abcd.Digit(dst), X(sr), 100) &&
            (Z(sr') <==> Z(sr) && r == 0) && (C(sr') <==> X(sr')) && Supervisor(sr') == Supervisor(sr)
  {
    hide And, UpdateBCDFlags, BcdAdd, Op.ValidLimb, Op.Digit, Balanced, X, Z, C, N, V, Supervisor;
    var (r, out) := BcdAdd(src, dst, X(sr));
    BcdAddMeaning(src, dst, X(sr));
    BCDFlags(sr, r, out, Z(sr));
    assert Step(Abcd, src, dst, sr) == (r as u32, UpdateBCDFlags(sr, r, out, Z(sr)));
  }

  lemma SbcdStep(src: u8, dst: u8, sr: u16)
    requires Sbcd.ValidLimb(src) && Sbcd.ValidLimb(dst)
    ensures var (r, sr') := Step(Sbcd, src, dst, sr);
            Sbcd.ValidLimb(r) && Balanced(Sbcd, Sbcd.Digit(r), X(sr'), Sbcd.Digit(src), Sbcd.Digit(dst), X(sr), 100) &&
            (Z(sr') <==> Z(sr) && r == 0) && (C(sr') <==> X(sr')) && Supervisor(sr') == Supervisor(sr)
  {
    hide And, UpdateBCDFlags, BcdSub, Op.ValidLimb, Op.Digit, Balanced, X, Z, C, N, V, Supervisor;
    var (r, out) := BcdSub(src, dst, X(sr));
    BcdSubMeaning(src, dst, X(sr));
    BCDFlags(sr, r, out, Z(sr));
    assert Step(Sbcd, src, dst, sr) == (r as u32, UpdateBCDFlags(sr, r, out, Z(sr)));
  }

  /** One step, on the low parts of any two words: digits and carries balance, Z is kept only over
      a zero result, C follows X. */
  lemma StepMeaning(op: Op, src: u32, dst: u32, sr: u16)
    requires op.Chainable() && op.ValidLimb(Low(src, op.Width())) && op.ValidLimb(Low(dst, op.Width()))
    ensures var (r, sr') := Step(op, src, dst, sr);
            op.ValidLimb(r) &&
            Balanced(op, op.Digit(r), X(sr'), op.Digit(Low(src, op.Width())), op.Digit(Low(dst, op.Width())),
                     X(sr), op.Base()) &&
            (Z(sr') <==> Z(sr) && op.Digit(r) == 0) && (C(sr') <==> X(sr')) && Supervisor(sr') == Supervisor(sr)
  {
    hide Step, X, Z, C, Supervisor, Balanced, Low, Op.Digit, Op.ValidLimb, Op.Base;
    match op {
      case Addx(_) => BinaryMeaning(op, src, dst, sr);
      case Subx(_) => BinaryMeaning(op, src, dst, sr);
      case Abcd => DecimalMeaning(op, src, dst, sr);
      case Sbcd => DecimalMeaning(op, src, dst, sr);
    }
  }

  lemma BinaryMeaning(op: Op, src: u32, dst: u32, sr: u16)
    requires (op.Addx? || op.Subx?) && op.Chainable()
    ensures var (r, sr') := Step(op, src, dst, sr);
            op.ValidLimb(r) &&
            Balanced(op, op.Digit(r), X(sr'), op.Digit(Low(src, op.Width())), op.Digit(Low(dst, op.Width())),
                     X(sr), op.Base()) &&
            (Z(sr') <==> Z(sr) && op.Digit(r) == 0) && (C(sr') <==> X(sr')) && Supervisor(sr') == Supervisor(sr)
  {
    hide Step, X, Z, C, Supervisor, Low;
    if op.Addx? { AddxStep(src, dst, op.size, sr); } else { SubxStep(src, dst, op.size, sr); }
  }

  lemma DecimalMeaning(op: Op, src: u32, dst: u32, sr: u16)
    requires (op.Abcd? || op.Sbcd?) && op.ValidLimb(Low(src, Byte)) && op.ValidLimb(Low(dst, Byte))
    ensures var (r, sr') := Step(op, src, dst, sr);
            op.ValidLimb(r) &&
            Balanced(op, op.Digit(r), X(sr'), op.Digit(Low(src, op.Width())), op.Digit(Low(dst, op.Width())),
                     X(sr), op.Base()) &&
            (Z(sr') <==> Z(sr) && op.Digit(r) == 0) && (C(sr') <==> X(sr')) && Supervisor(sr') == Supervisor(sr)
  {
    hide Step, X, Z, C, Supervisor, Balanced;
    DecimalLow(op, src, dst, sr);
    LowPart(src, Byte);
    LowPart(dst, Byte);
    hide Low;
    if op.Abcd? { AbcdStep(Low(src, Byte), Low(dst, Byte), sr); } else { SbcdStep(Low(src, Byte), Low(dst, Byte), sr); }
  }

  /** The decimal steps look at the low byte only. */
  lemma DecimalLow(op: Op, src: u32, dst: u32, sr: u16)
    requires op.Abcd? || op.Sbcd?
    ensures Step(op, src, dst, sr) == Step(op, Low(src, Byte), Low(dst, Byte), sr)
  {
    assert Low(src, Byte) == src as int % 0x100 && Low(dst, Byte) == dst as int % 0x100;
    assert Low(src, Byte) % 0x100 == Low(src, Byte) && Low(dst, Byte) % 0x100 == Low(dst, Byte);
    hide BcdAdd, BcdSub, UpdateBCDFlags, Low, X, Z;
  }

  lemma AddxStep(src: u32, dst: u32, size: Size, sr: u16)
    requires size != Long
    ensures var (r, sr') := Step(Addx(size), src, dst, sr);
            r < size.Modulus() &&
            r + size.Modulus() * ToInt(X(sr')) == Low(dst, size) as int + Low(src, size) + ToInt(X(sr)) &&
            (Z(sr') <==> Z(sr) && r == 0) && (C(sr') <==> X(sr')) && Supervisor(sr') == Supervisor(sr)
  {
    var (r, flags) := AddWithExtend(src, dst, size, X(sr));
    AddxMeaning(src, dst, size, X(sr));
    ExtendZero(flags, size, r, Z(sr));
    ReplacedFlags(sr, UpdateExtendZeroFlag(flags, size, r, Z(sr)));
    hide And, AddWithExtend, UpdateExtendZeroFlag, ReplaceFlags, Low, Fits, Signed;
    LowPart(src, size);
    LowPart(dst, size);
    SignedCases(r, size);
    ModCases(Low(dst, size) as int + Low(src, size) + ToInt(X(sr)), size);
  }

  lemma SubxStep(src: u32, dst: u32, size: Size, sr: u16)
    requires size != Long
    ensures var (r, sr') := Step(Subx(size), src, dst, sr);
            r < size.Modulus() &&
            r == Low(dst, size) as int - Low(src, size) - ToInt(X(sr)) + size.Modulus() * ToInt(X(sr')) &&
            (Z(sr') <==> Z(sr) && r == 0) && (C(sr') <==> X(sr')) && Supervisor(sr') == Supervisor(sr)
  {
    var (r, flags) := SubWithExtend(src, dst, size, X(sr));
    SubxMeaning(src, dst, size, X(sr));
    ExtendZero(flags, size, r, Z(sr));
    ReplacedFlags(sr, UpdateExtendZeroFlag(flags, size, r, Z(sr)));
    hide And, SubWithExtend, UpdateExtendZeroFlag, ReplaceFlags, Low, Fits, Signed;
    LowPart(src, size);
    LowPart(dst, size);
    SignedCases(r, size);
    ModCases(Low(dst, size) as int - Low(src, size) - ToInt(X(sr)), size);
  }

  /** What ADDX and SUBX leave, at every size: the exact sum or difference cut to the size; Z kept only
      over a zero result, N its sign, X as C. The carry is lost at Long, and so is the borrow of X off
      the largest source; V is wrong exactly when X is set and the source is the largest positive. */
  ghost predicate BinaryResult(op: Op, src: u32, dst: u32, sr: u16, r: u32, sr': u16)
    requires op.Addx? || op.Subx?
  {
    var size := op.size;
    var s, d, e := Low(src, size), Low(dst, size), if X(sr) then 1 else 0;
    var exact := if op.Addx? then d as int + s + e else d as int - s - e;
    var signed := if op.Addx? then Signed(d, size) + Signed(s, size) + e else Signed(d, size) - Signed(s, size) - e;
    && r == Low(exact, size)
    && (Z(sr') <==> Z(sr) && r == 0) && (N(sr') <==> Signed(r, size) < 0) && (X(sr') <==> C(sr'))
    && (C(sr') <==> if op.Addx? then size != Long && exact >= size.Modulus()
                    else exact < 0 && !(size == Long && e == 1 && s == 0xffff_ffff))
    && ((V(sr') <==> !(-size.SignWeight() <= signed < size.SignWeight())) <==> !(e == 1 && s == size.SignWeight() - 1))
    && sr' / 0x20 == sr / 0x20
  }

  lemma BinaryStepMeaning(op: Op, src: u32, dst: u32, sr: u16)
    requires op.Addx? || op.Subx?
    ensures var (r, sr') := Step(op, src, dst, sr); BinaryResult(op, src, dst, sr, r, sr')
  {
    hide AddWithExtend, SubWithExtend, Updated, X, Z, N, V, C, Low, Signed, Size.Modulus, Size.SignWeight;
    var size := op.size;
    var (r, flags) := if op.Addx? then AddWithExtend(src, dst, size, X(sr)) else SubWithExtend(src, dst, size, X(sr));
    StepUpdates(op, src, dst, sr);
    UpdatedMeaning(sr, flags, size, r);
    LongModulus();
    if op.Addx? {
      AddxMeaning(src, dst, size, X(sr));
      StillLow(Low(dst, size) as int + Low(src, size) + ToInt(X(sr)), size);
    } else {
      SubxMeaning(src, dst, size, X(sr));
      StillLow(Low(dst, size) as int - Low(src, size) - ToInt(X(sr)), size);
    }
  }

  /** The status word after ADDX or SUBX, from the flags of the addition or subtraction. */
  function Updated(sr: u16, flags: u16, size: Size, r: u32): u16 {
    ReplaceFlags(sr, MASK_NZVCX, UpdateExtendZeroFlag(flags, size, r, Z(sr)))
  }

  lemma StepUpdates(op: Op, src: u32, dst: u32, sr: u16)
    requires op.Addx? || op.Subx?
    ensures var size := op.size;
            var (r, flags) := if op.Addx? then AddWithExtend(src, dst, size, X(sr))
                              else SubWithExtend(src, dst, size, X(sr));
            Step(op, src, dst, sr) == (r, Updated(sr, flags, size, r))
  {
    hide AddWithExtend, SubWithExtend, UpdateExtendZeroFlag, ReplaceFlags, X, Z;
  }

  lemma UpdatedMeaning(sr: u16, flags: u16, size: Size, r: u32)
    ensures var sr' := Updated(sr, flags, size, r);
            (Z(sr') <==> Z(sr) && Low(r, size) == 0) && N(sr') == N(flags) && V(sr') == V(flags) &&
            C(sr') == C(flags) && X(sr') == X(flags) && sr' / 0x20 == sr / 0x20
  {
    hide And, UpdateExtendZeroFlag, ReplaceFlags, Low;
    var cleared := UpdateExtendZeroFlag(flags, size, r, Z(sr));
    ExtendZero(flags, size, r, Z(sr));
    ReplacedFlags(sr, cleared);
    ReplacedExactly(sr, cleared);
  }

  lemma LongModulus()
    ensures Long.Modulus() == 0x1_0000_0000
  {
  }

  lemma StillLow(x: int, size: Size)
    ensures Low(Low(x, size), size) == Low(x, size)
  {
    LowPart(x, size);
    SignedCases(Low(x, size), size);
  }

  /** What ABCD and SBCD leave besides the decimal result: C as X, N and V clear, the bits above the
      condition codes as they were. */
  lemma DecimalFlags(op: Op, src: u32, dst: u32, sr: u16)
    requires op.Abcd? || op.Sbcd?
    ensures var (r, sr') := Step(op, src, dst, sr);
            r < 0x100 && (Z(sr') <==> Z(sr) && r == 0) && (C(sr') <==> X(sr')) && !N(sr') && !V(sr') &&
            sr' / 0x20 == sr / 0x20
  {
    hide And, UpdateBCDFlags, BcdAdd, BcdSub;
    var (r, out) := if op.Abcd? then BcdAdd(src % 0x100, dst % 0x100, X(sr))
                    else BcdSub(src % 0x100, dst % 0x100, X(sr));
    BCDFlags(sr, r, out, Z(sr));
    BCDKeepsSystem(sr, r, out, Z(sr));
  }

  lemma BCDKeepsSystem(sr: u16, result: u8, carry: bool, prevZero: bool)
    ensures UpdateBCDFlags(sr, result, carry, prevZero) / 0x20 == sr / 0x20
  {
    hide Or16, AndNot16;
    var sr1 := AndNot16(sr, SR_CARRY + SR_OVERFLOW + SR_NEGATIVE);
    var sr2 := if carry then Or16(sr1, SR_CARRY + SR_EXTEND) else AndNot16(sr1, SR_EXTEND);
    AboveFlags(sr, SR_CARRY + SR_OVERFLOW + SR_NEGATIVE);
    AboveFlags(sr1, SR_CARRY + SR_EXTEND);
    AboveFlags(sr1, SR_EXTEND);
    AboveFlags(sr2, SR_ZERO);
  }

  lemma ValidIsLow(op: Op, limb: u32)
    requires op.ValidLimb(limb)
    ensures Low(limb, op.Width()) == limb
  {
    SignedCases(limb, op.Width());
  }

  // ---- Chains, least significant limb first ----

  function Chain(op: Op, src: seq<u32>, dst: seq<u32>, sr: u16): (r: (seq<u32>, u16))
    requires |src| == |dst|
    ensures |r.0| == |dst|
  {
    if |src| == 0 then ([], sr)
    else
      var (limb, sr1) := Step(op, src[0], dst[0], sr);
      var (rest, sr2) := Chain(op, src[1..], dst[1..], sr1);
      ([limb] + rest, sr2)
  }

  ghost predicate ValidLimbs(op: Op, limbs: seq<u32>) {
    forall i :: 0 <= i < |limbs| ==> op.ValidLimb(limbs[i])
  }

  function Value(op: Op, limbs: seq<u32>): (v: int)
    ensures v >= 0
  {
    if |limbs| == 0 then 0 else op.Digit(limbs[0]) + Times(op.Base(), Value(op, limbs[1..]))
  }

  function Power(base: nat, n: nat): (p: int)
    ensures p >= 0
  {
    if n == 0 then 1 else Times(base, Power(base, n - 1))
  }

  lemma {:induction false} ChainBalanced(op: Op, src: seq<u32>, dst: seq<u32>, sr: u16)
    requires |src| == |dst| && op.Chainable() && ValidLimbs(op, src) && ValidLimbs(op, dst)
    ensures var (r, sr') := Chain(op, src, dst, sr);
            ValidLimbs(op, r) &&
            Balanced(op, Value(op, r), X(sr'), Value(op, src), Value(op, dst), X(sr), Power(op.Base(), |src|)) &&
            (Z(sr') <==> Z(sr) && Value(op, r) == 0) && (|src| > 0 ==> (C(sr') <==> X(sr'))) &&
            Supervisor(sr') == Supervisor(sr)
    decreases |src|
  {
    hide Step, C, X, Z, Supervisor, Op.Digit, Op.Base, Op.ValidLimb, Op.Chainable, Balanced, ValidLimbs, Times;
    if |src| == 0 {
      EmptyChain(op, X(sr));
    } else {
      var (limb, sr1) := Step(op, src[0], dst[0], sr);
      var (rest, sr2) := Chain(op, src[1..], dst[1..], sr1);
      assert Chain(op, src, dst, sr) == ([limb] + rest, sr2);
      assert Power(op.Base(), |src|) == Times(op.Base(), Power(op.Base(), |src| - 1));
      hide Chain, Power, Value;
      FirstLimb(op, src);
      FirstLimb(op, dst);
      ValidIsLow(op, src[0]);
      ValidIsLow(op, dst[0]);
      StepMeaning(op, src[0], dst[0], sr);
      ChainBalanced(op, src[1..], dst[1..], sr1);
      AddLimb(op, limb, rest);
      Carried(op, op.Base(), Power(op.Base(), |src| - 1), op.Digit(limb), Value(op, rest), op.Digit(src[0]),
              Value(op, src[1..]), op.Digit(dst[0]), Value(op, dst[1..]), X(sr), X(sr1), X(sr2));
    }
  }

  lemma EmptyChain(op: Op, x: bool)
    ensures ValidLimbs(op, []) && Balanced(op, 0, x, 0, 0, x, 1)
  {
  }

  lemma FirstLimb(op: Op, limbs: seq<u32>)
    requires |limbs| > 0 && ValidLimbs(op, limbs)
    ensures op.ValidLimb(limbs[0]) && ValidLimbs(op, limbs[1..])
    ensures Value(op, limbs) == op.Digit(limbs[0]) + Times(op.Base(), Value(op, limbs[1..]))
  {
  }

  lemma AddLimb(op: Op, limb: u32, rest: seq<u32>)
    requires op.ValidLimb(limb) && ValidLimbs(op, rest)
    ensures ValidLimbs(op, [limb] + rest)
    ensures Value(op, [limb] + rest) == op.Digit(limb) + Times(op.Base(), Value(op, rest))
    ensures Value(op, [limb] + rest) == 0 <==> op.Digit(limb) == 0 && Value(op, rest) == 0
  {
    assert ([limb] + rest)[1..] == rest;
    assert op.Base() * Value(op, rest) == 0 <==> Value(op, rest) == 0;
  }

  /** Two balanced positions make one of the combined weight. */
  lemma Carried(op: Op, b: int, p: int, r0: int, r: int, s0: int, s: int, d0: int, d: int, x0: bool, x1: bool, x2: bool)
    requires Balanced(op, r0, x1, s0, d0, x0, b) && Balanced(op, r, x2, s, d, x1, p)
    ensures Balanced(op, r0 + Times(b, r), x2, s0 + Times(b, s), d0 + Times(b, d), x0, Times(b, p))
  {
    var c1, c2 := ToInt(x1), ToInt(x2);
    hide Times, ToInt;
    Distribute(b, p, r, s, d, c1, c2);
    if op.Adds() {
      assert r + Times(p, c2) == d + s + c1;
    } else {
      assert r == d - s - c1 + Times(p, c2);
    }
  }

  lemma Distribute(b: int, p: int, r: int, s: int, d: int, c1: int, c2: int)
    ensures Times(b, d + s + c1) == Times(b, d) + Times(b, s) + Times(b, c1)
    ensures Times(b, d - s - c1 + Times(p, c2)) == Times(b, d) - Times(b, s) - Times(b, c1) + Times(Times(b, p), c2)
    ensures Times(b, r + Times(p, c2)) == Times(b, r) + Times(Times(b, p), c2)
  {
    assert b * (p * c2) == (b * p) * c2;
  }

  lemma {:induction false} ValueBound(op: Op, limbs: seq<u32>)
    requires ValidLimbs(op, limbs) && op.Chainable()
    ensures Value(op, limbs) < Power(op.Base(), |limbs|)
    decreases |limbs|
  {
    if |limbs| > 0 {
      ValueBound(op, limbs[1..]);
      var b, v, p := op.Base(), Value(op, limbs[1..]), Power(op.Base(), |limbs| - 1);
      assert op.Digit(limbs[0]) < b;
      assert b * v <= b * (p - 1);
    }
  }

  /** n steps compute the n-limb sum or difference modulo base^n; X is the true final carry or
      borrow, and Z, if set before, tells whether the whole result is zero. */
  lemma ChainComputes(op: Op, src: seq<u32>, dst: seq<u32>, sr: u16)
    requires |src| == |dst| && op.Chainable() && ValidLimbs(op, src) && ValidLimbs(op, dst)
    ensures var (r, sr') := Chain(op, src, dst, sr);
            var m := Power(op.Base(), |src|);
            var exact := if op.Adds() then Value(op, dst) + Value(op, src) + ToInt(X(sr))
                         else Value(op, dst) as int - Value(op, src) - ToInt(X(sr));
            ValidLimbs(op, r) && m > 0 && Value(op, r) == exact % m && (X(sr') <==> !(0 <= exact < m)) &&
            (Z(sr') <==> Z(sr) && exact % m == 0)
  {
    hide Chain, X, Z, C, ValidLimbs, Supervisor, Value, Op.Base, Power, Times, Balanced, Op.Chainable;
    var (r, sr') := Chain(op, src, dst, sr);
    ChainBalanced(op, src, dst, sr);
    ValueBound(op, r);
    ExactArithmetic(op, Power(op.Base(), |src|), Value(op, src), Value(op, dst), Value(op, r), X(sr), X(sr'));
  }

  lemma ExactArithmetic(op: Op, m: int, s: nat, d: nat, r: nat, x: bool, out: bool)
    requires Balanced(op, r, out, s, d, x, m) && r < m
    ensures var exact := if op.Adds() then d + s + ToInt(x) else d as int - s - ToInt(x);
            r == exact % m && (out <==> !(0 <= exact < m))
  {
    var exact := if op.Adds() then d + s + ToInt(x) else d as int - s - ToInt(x);
    var q: int := if !out then 0 else if op.Adds() then 1 else -1;
    assert exact == m * q + r;
    ModUnique(exact, m, q, r);
  }

  lemma {:induction false} SameLimbs(op: Op, a: seq<u32>, b: seq<u32>)
    requires |a| == |b| && op.Chainable() && ValidLimbs(op, a) && ValidLimbs(op, b) && Value(op, a) == Value(op, b)
    ensures a == b
    decreases |a|
  {
    if |a| > 0 {
      hide Value, Times;
      LeastLimb(op, a);
      LeastLimb(op, b);
      SameLimbs(op, a[1..], b[1..]);
      assert a == [a[0]] + a[1..] && b == [b[0]] + b[1..];
    }
  }

  lemma LeastLimb(op: Op, limbs: seq<u32>)
    requires |limbs| > 0 && op.Chainable() && ValidLimbs(op, limbs)
    ensures Value(op, limbs) / op.Base() == Value(op, limbs[1..]) && Value(op, limbs) % op.Base() == op.Digit(limbs[0])
  {
    ModUnique(Value(op, limbs), op.Base(), Value(op, limbs[1..]), op.Digit(limbs[0]));
  }

  /** SUBX undoes ADDX and SBCD undoes ABCD, and the other way round: the inverse chain over the
      same source, started with the same X, gives back the destination and the same final X. */
  lemma ChainUndone(op: Op, src: seq<u32>, dst: seq<u32>, sr: u16, again: u16)
    requires |src| == |dst| && op.Chainable() && ValidLimbs(op, src) && ValidLimbs(op, dst) && X(again) == X(sr)
    ensures var (r, sr1) := Chain(op, src, dst, sr);
            var (back, sr2) := Chain(op.Inverse(), src, r, again);
            back == dst && X(sr2) == X(sr1)
  {
    hide *;
    var inv := op.Inverse();
    var (r, sr1) := Chain(op, src, dst, sr);
    var (back, sr2) := Chain(inv, src, r, again);
    InverseReads(op, src);
    InverseReads(op, dst);
    ChainBalanced(op, src, dst, sr);
    InverseReads(op, r);
    ChainBalanced(inv, src, r, again);
    InverseReads(op, back);
    assert Balanced(inv, Value(op, back), X(sr2), Value(op, src), Value(op, r), X(sr), Power(op.Base(), |src|));
    UndoneLimbs(op, dst, back, Value(op, src), Value(op, r), X(sr), X(sr1), X(sr2));
  }

  lemma UndoneLimbs(op: Op, dst: seq<u32>, back: seq<u32>, s: int, r: int, x: bool, out1: bool, out2: bool)
    requires |back| == |dst| && op.Chainable() && ValidLimbs(op, back) && ValidLimbs(op, dst)
    requires Balanced(op, r, out1, s, Value(op, dst), x, Power(op.Base(), |dst|))
    requires Balanced(op.Inverse(), Value(op, back), out2, s, r, x, Power(op.Base(), |dst|))
    ensures back == dst && out2 == out1
  {
    hide *;
    ValueBound(op, dst);
    ValueBound(op, back);
    UndoneArithmetic(op, Power(op.Base(), |dst|), s, Value(op, dst), r, Value(op, back), x, out1, out2);
    SameLimbs(op, back, dst);
  }

  lemma UndoneArithmetic(op: Op, m: int, s: int, d: int, r: int, back: int, x: bool, out1: bool, out2: bool)
    requires Balanced(op, r, out1, s, d, x, m) && Balanced(op.Inverse(), back, out2, s, r, x, m)
    requires 0 <= d < m && 0 <= back < m
    ensures back == d && out2 == out1
  {
  }

  /** An instruction and its inverse read limbs alike. */
  lemma {:induction false} InverseReads(op: Op, limbs: seq<u32>)
    ensures Value(op.Inverse(), limbs) == Value(op, limbs) && op.Inverse().Base() == op.Base()
    ensures op.Inverse().Chainable() == op.Chainable()
    ensures ValidLimbs(op.Inverse(), limbs) <==> ValidLimbs(op, limbs)
    decreases |limbs|
  {
    if |limbs| > 0 { InverseReads(op, limbs[1..]); }
  }
}
