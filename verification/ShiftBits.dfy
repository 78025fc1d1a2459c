/** Shifts and rotates told bit by bit (op_bit_logical.go): where each bit of the operand goes. The
    arithmetic meaning proved for the loops is shown to be this one. */
module ShiftBits {
  import opened Words
  import opened Bits
  import opened Status
  import opened Shift

  /** (x + 1) mod n from x mod n. */
  lemma NextAround(x: nat, n: nat)
    requires n > 0
    ensures (x + 1) % n == if x % n == n - 1 then 0 else x % n + 1
  {
    var q, r := x / n, x % n;
    assert x == n * q + r;
    if r == n - 1 {
      assert x + 1 == n * (q + 1);
      ModUnique(x + 1, n, q + 1, 0);
    } else {
      ModUnique(x + 1, n, q, r + 1);
    }
  }

  // ---- Rotation ----

  lemma RotLBit(u: nat, n: nat, k: nat)
    requires n > 0 && u < Pow2(n) && k < n
    ensures Bit(RotL(u, n), if k == n - 1 then 0 else k + 1) <==> Bit(u, k)
  {
    hide RotL, Pow2, Bit;
    var h := Pow2(n - 1);
    UnfoldPow2(n);
    RotLSplit(u, n);
    TopBit(u, n - 1);
    var low, top := if u < h then u else u - h, if u < h then 0 else 1;
    if k < n - 1 {
      LowBits(u, low, n - 1, k);
      BitBelow(low, top, k);
    } else {
      BitBelow(low, top, 0);
    }
  }

  /** Bits below the highest are those of what is left without it. */
  lemma LowBits(u: nat, low: nat, w: nat, k: nat)
    requires k < w && low < Pow2(w) && (u == low || u == low + Pow2(w))
    ensures Bit(low, k) <==> Bit(u, k)
  {
    hide Pow2, Bit;
    ModUnique(u, Pow2(w), if u == low then 0 else 1, low);
    BitOfRemainder(u, w, k);
  }

  lemma BitBelow(x: nat, b: nat, k: nat)
    requires b <= 1
    ensures Bit(2 * x + b, 0) <==> b == 1
    ensures Bit(2 * x + b, k + 1) <==> Bit(x, k)
  {
  }

  /** Rotating left by count takes bit k to bit k + count, around the ring. */
  lemma {:induction false} LeftTurns(u: nat, n: nat, count: nat, k: nat)
    requires n > 0 && u < Pow2(n) && k < n
    ensures Bit(RotLs(u, n, count), (k + count) % n) <==> Bit(u, k)
    decreases count
  {
    hide RotL, Pow2, Bit;
    UnfoldRotLs(u, n, count);
    hide RotLs;
    if count == 0 {
      ModUnique(k, n, 0, k);
    } else {
      LeftTurns(u, n, count - 1, k);
      OnRing(u, n, count - 1);
      NextAround(k + count - 1, n);
      RotLBit(RotLs(u, n, count - 1), n, (k + count - 1) % n);
    }
  }

  /** Rotating right by count takes bit k + count, around the ring, to bit k. */
  lemma RightTurns(u: nat, n: nat, count: nat, k: nat)
    requires n > 0 && u < Pow2(n) && k < n
    ensures Bit(RotRs(u, n, count), k) <==> Bit(u, (k + count) % n)
  {
    hide RotRs, RotLs, Pow2, Bit;
    OnRing(u, n, count);
    var r := RotRs(u, n, count);
    RotationsUndo(u, n, count);
    LeftTurns(r, n, count, k);
  }

  // ---- Shifting left ----

  /** Two numbers that differ by a multiple of 2^width look alike through the mask. */
  lemma SameMasked(v: nat, width: nat, count: nat)
    requires width > 0 && v < Pow2(width)
    ensures Masked(Scaled(SignedAt(v, width), count), width) == Masked(Scaled(v, count), width)
  {
    hide Pow2;
    var m, p := Pow2(width), Pow2(count);
    ModUnique(v, m, 0, v);
    ScaledTimes(v, count);
    ScaledTimes(SignedAt(v, width), count);
    hide Scaled;
    SameRemainder(v, m, p);
  }

  lemma SameRemainder(v: int, m: int, p: int)
    requires m > 0
    ensures (v - m) * p % m == v * p % m
  {
    Spread(v, m, p);
    var q, r := v * p / m, v * p % m;
    Spread(q, p, m);
    ModUnique((v - m) * p, m, q - p, r);
  }

  lemma Spread(x: int, m: int, p: int)
    ensures (x - m) * p == x * p - m * p && p * (x - m) == p * x - p * m && m * (x - p) == m * x - m * p
    ensures m * p == p * m
  {
  }

  lemma ScaledTimes(x: int, count: nat)
    ensures Scaled(x, count) == x * Pow2(count)
  {
  }

  /** Bit k of the low part of v * 2^count. */
  lemma LeftBit(v: nat, count: nat, width: nat, k: nat)
    requires k < width
    ensures Bit(Masked(Scaled(v, count), width), k) <==> count <= k && Bit(v, k - count)
  {
    hide Bit;
    ScaledBit(v, count, k);
    BitOfRemainder(v * Pow2(count), width, k);
  }

  /** The bit at the top of the low part, as the loops read it. */
  lemma TopBitIs(x: int, width: nat)
    requires width > 0
    ensures BitAt(x, width - 1) == 1 <==> Bit(Masked(x, width), width - 1)
  {
    LeftStep(x, width);
    BitIsParity(Masked(x, width), width - 1);
    hide Masked, Bit, Pow2;
  }

  /** The carry of a left shift: the bit that left the top last. */
  lemma LeftCarry(v: nat, count: nat, width: nat)
    requires width > 0 && count > 0 && v < Pow2(width)
    ensures BitAt(Scaled(v, count - 1), width - 1) == 1 <==> count <= width && Bit(v, width - count)
    ensures BitAt(Scaled(SignedAt(v, width), count - 1), width - 1) == BitAt(Scaled(v, count - 1), width - 1)
  {
    hide Masked, Scaled, Bit, Pow2, BitAt, SignedAt;
    TopBitIs(Scaled(v, count - 1), width);
    TopBitIs(Scaled(SignedAt(v, width), count - 1), width);
    SameMasked(v, width, count - 1);
    LeftBit(v, count - 1, width, width - 1);
  }

  // ---- Shifting right ----

  /** The lower of a bit number and the sign bit's. */
  function UpTo(k: nat, width: nat): nat
    requires width > 0
  {
    if k < width then k else width - 1
  }

  lemma {:induction false} SignedRightBit(t: int, count: nat, width: nat, k: nat)
    requires 1 <= width <= 32 && FitsAt(t, width) && k < width
    ensures FitsAt(Floored(t, count), width)
    ensures Bit(Masked(Floored(t, count), width), k) <==> Bit(Masked(t, width), UpTo(k + count, width))
    decreases count
  {
    hide Bit, Masked, Pow2, FitsAt, Floored;
    if count == 0 {
      FlooredStep(t, 0);
    } else {
      var s := Floored(t, count - 1);
      FlooredStep(t, count - 1);
      SignedRightBit(t, count - 1, width, if k + 1 < width then k + 1 else k);
      HalvedBit(s, width, k);
    }
  }

  /** One arithmetic step: every bit moves down and the sign stays. */
  lemma HalvedBit(s: int, width: nat, k: nat)
    requires 1 <= width <= 32 && FitsAt(s, width) && k < width
    ensures FitsAt(s / 2, width)
    ensures Bit(Masked(s / 2, width), k) <==> Bit(Masked(s, width), if k + 1 < width then k + 1 else k)
  {
    hide Masked, Pow2;
    AsrStepFloors(s, width);
    var x := Masked(s, width);
    SignIs(s, width);
    hide FitsAt;
    StepBit(x, s < 0, width, k);
    UnfoldPow2(width);
    if k + 1 == width && s >= 0 { NoHighBits(x / 2, width - 1, k); }
  }

  lemma SignIs(s: int, width: nat)
    requires width > 0 && FitsAt(s, width)
    ensures Bit(Masked(s, width), width - 1) <==> s < 0
    ensures s >= 0 ==> Masked(s, width) / 2 < Pow2(width - 1)
  {
    var h := Pow2(width - 1);
    Reduced(s, 2 * h);
    TopBit(Masked(s, width), width - 1);
    hide Bit;
  }

  lemma StepBit(x: u32, negative: bool, width: nat, k: nat)
    requires 1 <= width <= 32
    ensures Bit(AsrStep(x, negative, width), k) <==> Bit(x, k + 1) || (negative && k == width - 1)
  {
    OpBits(x / 2, Pow2(width - 1), k);
    Pow2Bit(width - 1, k);
    hide Or, Pow2;
  }

  lemma RightBit(v: nat, count: nat, k: nat)
    ensures Floored(v, count) >= 0
    ensures Bit(Floored(v, count), k) <==> Bit(v, count + k)
  {
    hide Bit, Pow2, Shr;
    ShrIsDiv(v, count);
    ShrBit(v, count, k);
  }

  lemma LowestBit(x: nat)
    ensures Bit(x, 0) <==> x % 2 == 1
  {
  }

  // ---- All eight operations ----

  /** Bit k of a value with X above its highest bit. */
  predicate RingBit(value: nat, x: bool, width: nat, k: nat) {
    if k == width then x else Bit(value, k)
  }

  /** Bit k of the n-bit ring has gone to bit k + count, or come from there. */
  predicate TurnedAt(left: bool, before: nat -> bool, after: nat -> bool, n: nat, count: nat, k: nat)
    requires n > 0
  {
    var other := (k + count) % n;
    if left then after(other) == before(k) else after(k) == before(other)
  }

  ghost predicate Turned(left: bool, before: nat -> bool, after: nat -> bool, n: nat, count: nat)
    requires n > 0
  {
    forall k :: 0 <= k < n ==> TurnedAt(left, before, after, n, count, k)
  }

  /** What a shift puts in bit k, and where the last bit shifted out came from. */
  predicate ShiftedBit(op: ShiftOp, left: bool, v: nat, count: nat, width: nat, k: nat)
    requires width > 0
  {
    if left then count <= k && Bit(v, k - count)
    else if op == Arithmetic then Bit(v, UpTo(k + count, width))
    else Bit(v, k + count)
  }

  predicate ShiftedOut(op: ShiftOp, left: bool, v: nat, count: nat, width: nat)
    requires width > 0 && count > 0
  {
    if left then count <= width && Bit(v, width - count)
    else if op == Arithmetic then Bit(v, UpTo(count - 1, width))
    else Bit(v, count - 1)
  }

  /** The result bit by bit and the last bit shifted out, for a count of at least one. */
  ghost predicate Moves(op: ShiftOp, left: bool, v: nat, count: nat, width: nat, x: bool, r: nat, f: ShiftFlags)
    requires width > 0 && count > 0
  {
    r < Pow2(width) &&
    if op == RotateExtend then
      var before, after := (k: nat) => RingBit(v, x, width, k), (k: nat) => RingBit(r, f.extendOut, width, k);
      Turned(left, before, after, width + 1, count)
    else if op == Rotate then
      var before, after := (k: nat) => Bit(v, k), (k: nat) => Bit(r, k);
      Turned(left, before, after, width, count) && (f.carryOut != 0 <==> Bit(r, if left then 0 else width - 1))
    else
      (forall k :: 0 <= k < width ==> (Bit(r, k) <==> ShiftedBit(op, left, v, count, width, k))) &&
      (f.carryOut != 0 <==> ShiftedOut(op, left, v, count, width))
  }

  /** The arithmetic meaning of an operation and its meaning bit by bit: the one implies the other. */
  lemma BitsMove(op: ShiftOp, left: bool, v: nat, count: nat, width: nat, x: bool, r: nat, f: ShiftFlags)
    requires 1 <= width <= 32 && count > 0 && v < Pow2(width) && Meaning(op, left, v, count, width, x, r, f)
    ensures Moves(op, left, v, count, width, x, r, f)
  {
    match op {
      case RotateExtend => RingMoves(left, v, count, width, x, r, f);
      case Rotate => RotateMoves(left, v, count, width, x, r, f);
      case _ => ShiftMoves(op, left, v, count, width, x, r, f);
    }
  }

  lemma RotateMoves(left: bool, v: nat, count: nat, width: nat, x: bool, r: nat, f: ShiftFlags)
    requires 1 <= width <= 32 && count > 0 && v < Pow2(width) && Meaning(Rotate, left, v, count, width, x, r, f)
    ensures Moves(Rotate, left, v, count, width, x, r, f)
  {
    hide Bit, Pow2, RotLs, RotRs, BitAt, Masked, Scaled, Floored, SignedAt, FitsAt, Ring;
    OnRing(v, width, count);
    var before, after := (k: nat) => Bit(v, k), (k: nat) => Bit(r, k);
    forall k | 0 <= k < width ensures TurnedAt(left, before, after, width, count, k) {
      if left { LeftTurns(v, width, count, k); } else { RightTurns(v, width, count, k); }
    }
    LowestBit(r);
    BitIsParity(r, width - 1);
    TopParity(r, width);
  }

  lemma TopParity(r: nat, width: nat)
    requires width > 0
    ensures BitAt(r, width - 1) == r / Pow2(width - 1) % 2
  {
  }

  lemma RingMoves(left: bool, v: nat, count: nat, width: nat, x: bool, r: nat, f: ShiftFlags)
    requires 1 <= width <= 32 && count > 0 && v < Pow2(width) && Meaning(RotateExtend, left, v, count, width, x, r, f)
    ensures Moves(RotateExtend, left, v, count, width, x, r, f)
  {
    hide Bit, Pow2, RotLs, RotRs, Ring, RingBit, BitAt, Masked, Scaled, Floored, SignedAt, FitsAt;
    var u := Ring(x, v, width);
    RingBound(x, v, width);
    var before, after := (k: nat) => RingBit(v, x, width, k), (k: nat) => RingBit(r, f.extendOut, width, k);
    var n := width + 1;
    forall k | 0 <= k < n ensures TurnedAt(left, before, after, n, count, k) {
      var j := (k + count) % (width + 1);
      RingBits(x, v, width, k);
      RingBits(x, v, width, j);
      RingBits(f.extendOut, r, width, k);
      RingBits(f.extendOut, r, width, j);
      if left { LeftTurns(u, width + 1, count, k); } else { RightTurns(u, width + 1, count, k); }
    }
  }

  lemma RingBits(x: bool, v: nat, width: nat, k: nat)
    requires v < Pow2(width) && k <= width
    ensures Bit(Ring(x, v, width), k) <==> RingBit(v, x, width, k)
  {
    hide Bit;
    var u := Ring(x, v, width);
    if k < width { LowBits(u, v, width, k); } else { TopBit(u, width); }
  }

  lemma ShiftMoves(op: ShiftOp, left: bool, v: nat, count: nat, width: nat, x: bool, r: nat, f: ShiftFlags)
    requires op == Arithmetic || op == Logical
    requires 1 <= width <= 32 && count > 0 && v < Pow2(width) && Meaning(op, left, v, count, width, x, r, f)
    ensures Moves(op, left, v, count, width, x, r, f)
  {
    if left {
      LeftMoves(op, v, count, width, x, r, f);
    } else if op == Arithmetic {
      ArithmeticRightMoves(v, count, width, x, r, f);
    } else {
      LogicalRightMoves(v, count, width, x, r, f);
    }
  }

  lemma LeftMoves(op: ShiftOp, v: nat, count: nat, width: nat, x: bool, r: nat, f: ShiftFlags)
    requires op == Arithmetic || op == Logical
    requires 1 <= width <= 32 && count > 0 && v < Pow2(width) && Meaning(op, true, v, count, width, x, r, f)
    ensures Moves(op, true, v, count, width, x, r, f)
  {
    hide Bit, Pow2, Masked, Scaled, BitAt, SignedAt, FitsAt;
    SameMasked(v, width, count);
    LeftCarry(v, count, width);
    forall k | 0 <= k < width ensures Bit(r, k) <==> ShiftedBit(op, true, v, count, width, k) {
      LeftBit(v, count, width, k);
    }
  }

  lemma LogicalRightMoves(v: nat, count: nat, width: nat, x: bool, r: nat, f: ShiftFlags)
    requires 1 <= width <= 32 && count > 0 && v < Pow2(width) && Meaning(Logical, false, v, count, width, x, r, f)
    ensures Moves(Logical, false, v, count, width, x, r, f)
  {
    hide Bit, Pow2, Floored;
    ResultFits(v, count, width);
    RightBit(v, count - 1, 0);
    LowestBit(Floored(v, count - 1));
    forall k | 0 <= k < width ensures Bit(r, k) <==> ShiftedBit(Logical, false, v, count, width, k) {
      RightBit(v, count, k);
    }
  }

  lemma ArithmeticRightMoves(v: nat, count: nat, width: nat, x: bool, r: nat, f: ShiftFlags)
    requires 1 <= width <= 32 && count > 0 && v < Pow2(width) && Meaning(Arithmetic, false, v, count, width, x, r, f)
    ensures Moves(Arithmetic, false, v, count, width, x, r, f)
  {
    hide Bit, Pow2, Floored, Masked, SignedAt, FitsAt;
    var t := SignedAt(v, width);
    SignedRange(v, width);
    SmallMasked(v, width);
    SignedRightBit(t, count - 1, width, 0);
    LowestBit(Masked(Floored(t, count - 1), width));
    MaskedParity(Floored(t, count - 1), width);
    forall k | 0 <= k < width ensures Bit(r, k) <==> ShiftedBit(Arithmetic, false, v, count, width, k) {
      SignedRightBit(t, count, width, k);
    }
  }

  lemma SmallMasked(v: nat, width: nat)
    requires v < Pow2(width)
    ensures Masked(v, width) == v
  {
    ModUnique(v, Pow2(width), 0, v);
  }

  lemma MaskedParity(x: int, width: nat)
    requires width > 0
    ensures Masked(x, width) % 2 == x % 2
  {
    var h := Pow2(width - 1);
    var q, r := x / (2 * h), x % (2 * h);
    assert x == (2 * h) * q + r;
    assert x == 2 * (h * q) + r;
  }

  // ---- On a register ----

  lemma KeepsSystem(sr: u16, result: nat, width: nat, f: ShiftFlags)
    requires width > 0
    ensures UpdateShiftRotateFlags(sr, result, width, f) / 0x20 == sr / 0x20
  {
    hide And, Masked, Pow2, Or16, AndNot16;
    var r := Masked(result, width);
    var cleared := AndNot16(sr, SR_ZERO + SR_NEGATIVE + SR_OVERFLOW);
    var sr1 := OrIf(cleared, SR_ZERO, r == 0);
    var sr2 := OrIf(sr1, SR_NEGATIVE, And(r, Pow2(width - 1)) != 0);
    var sr3 := if f.changeCarry then OrIf(AndNot16(sr2, SR_CARRY), SR_CARRY, f.carryOut != 0) else sr2;
    var sr4 := if f.changeExtend then OrIf(AndNot16(sr3, SR_EXTEND), SR_EXTEND, f.extendOut) else sr3;
    AboveFlags(sr, SR_ZERO + SR_NEGATIVE + SR_OVERFLOW);
    AboveFlags(cleared, SR_ZERO);
    AboveFlags(sr1, SR_NEGATIVE);
    AboveFlags(sr2, SR_CARRY);
    AboveFlags(AndNot16(sr2, SR_CARRY), SR_CARRY);
    AboveFlags(sr3, SR_EXTEND);
    AboveFlags(AndNot16(sr3, SR_EXTEND), SR_EXTEND);
    AboveFlags(sr4, SR_OVERFLOW);
  }

  /** What a shift or rotate of the low part v of a register makes of v and of the status word: N and Z
      describe the result; V is set by ASL alone, when the signed product does not fit; C is the last bit
      shifted out, X the same except that plain rotates and a count of zero keep it. */
  ghost predicate ShiftResult(op: ShiftOp, left: bool, v: nat, count: nat, size: Size, sr: u16, r: nat, sr': u16,
                              f: ShiftFlags)
  {
    var x := X(sr);
    && (Z(sr') <==> r == 0) && (N(sr') <==> Bit(r, size.Bits() - 1)) && sr' / 0x20 == sr / 0x20
    && if count == 0 then r == v && !V(sr') && X(sr') == x && (C(sr') <==> op == RotateExtend && x)
       else
         && Moves(op, left, v, count, size.Bits(), x, r, f)
         && (C(sr') <==> f.carryOut != 0) && X(sr') == (if op == Rotate then x else C(sr'))
         && (op == RotateExtend ==> X(sr') == f.extendOut)
         && (V(sr') <==> op == Arithmetic && left &&
                         !(-size.SignWeight() <= Signed(v, size) * Pow2(count) < size.SignWeight()))
  }

  lemma LowIsMasked(x: u32, size: Size)
    ensures Masked(x, size.Bits()) == Low(x, size) && Low(x, size) < Pow2(size.Bits())
    ensures SignedAt(Low(x, size), size.Bits()) == Signed(Low(x, size), size)
    ensures Pow2(size.Bits() - 1) == size.SignWeight()
  {
    Pow2Values();
    SignedCases(Low(x, size), size);
    assert Pow2(size.Bits()) == size.Modulus() && Pow2(size.Bits() - 1) == size.SignWeight();
    ModUnique(Low(x, size), size.Modulus(), 0, Low(x, size));
    hide Pow2;
  }

  /** What DoShiftRotate and the flag update leave is that. */
  lemma ShiftResults(op: ShiftOp, left: bool, operand: u32, count: nat, size: Size, sr: u16, r: nat, f: ShiftFlags)
    requires r < Pow2(size.Bits())
    requires var v := Masked(operand, size.Bits());
             if count == 0 then
               r == v && !f.changeExtend && !f.overflow && f.changeCarry &&
               (f.carryOut != 0 <==> op == RotateExtend && X(sr))
             else Meaning(op, left, v, count, size.Bits(), X(sr), r, f)
    ensures ShiftResult(op, left, Low(operand, size), count, size, sr, r,
                        UpdateShiftRotateFlags(sr, r, size.Bits(), f), f)
  {
    hide Masked, Low, Signed, SignedAt, Pow2, Bit, And, Scaled, UpdateShiftRotateFlags, Moves, Size.SignWeight;
    var width := size.Bits();
    LowIsMasked(operand, size);
    var v := Low(operand, size);
    KeepsSystem(sr, r, width, f);
    ShiftFlagsMeaning(sr, r, width, f);
    SmallMasked(r, width);
    UnfoldPow2(width);
    TopBit(r, width - 1);
    if count > 0 {
      BitsMove(op, left, v, count, width, X(sr), r, f);
      OverflowIs(op, left, v, count, size, X(sr), r, f);
    }
    hide Meaning;
  }

  lemma OverflowIs(op: ShiftOp, left: bool, v: nat, count: nat, size: Size, x: bool, r: nat, f: ShiftFlags)
    requires count > 0 && Meaning(op, left, v, count, size.Bits(), x, r, f)
    requires SignedAt(v, size.Bits()) == Signed(v, size) && Pow2(size.Bits() - 1) == size.SignWeight()
    ensures f.overflow <==> op == Arithmetic && left &&
                            !(-size.SignWeight() <= Signed(v, size) * Pow2(count) < size.SignWeight())
  {
    hide Masked, Signed, SignedAt, Pow2, Size.SignWeight, BitAt, Floored, RotLs, RotRs, Ring;
  }
}
