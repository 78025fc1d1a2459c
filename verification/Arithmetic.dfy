/** Addition and subtraction with condition codes (op_arithmetic.go) and the condition test that
    reads them (op_control_flow.go). Masks of the form 2^n - 1 are written as remainders. */
module Arithmetic {
  import opened Words
  import opened Bits
  import opened Status

  /** ^x on uint32. */
  function Not32(x: u32): u32 {
    Pow2Values();
    Not(x, 32)
  }

  function AddWithFlags(srcIn: u32, dstIn: u32, size: Size): (u32, u16) {
    var src, dst := Low(srcIn, size), Low(dstIn, size);
    var sign := size.SignWeight();
    var res := Low(Wrap32(src + dst), size);
    var z := OrIf(0, SR_ZERO, res == 0);
    var n := OrIf(z, SR_NEGATIVE, And(res, sign) != 0);
    var v := OrIf(n, SR_OVERFLOW, And(And(Not32(Xor32(dst, src)), Xor(res, dst)), sign) != 0);
    var c := OrIf(v, SR_CARRY + SR_EXTEND, And(Or(And(src, dst), And(Or(src, dst), Not32(res))), sign) != 0);
    (res, c)
  }

  function SubWithFlags(srcIn: u32, dstIn: u32, size: Size): (u32, u16) {
    var src, dst := Low(srcIn, size), Low(dstIn, size);
    var sign := size.SignWeight();
    var res := Low(Wrap32(dst - src), size);
    var z := OrIf(0, SR_ZERO, res == 0);
    var n := OrIf(z, SR_NEGATIVE, And(res, sign) != 0);
    var v := OrIf(n, SR_OVERFLOW, And(And(Xor(dst, src), Xor(dst, res)), sign) != 0);
    var c := OrIf(v, SR_CARRY + SR_EXTEND, src > dst);
    (res, c)
  }

  function Xor32(x: u32, y: u32): u32 {
    Pow2Values();
    WidthOps(x, y, 32);
    Xor(x, y)
  }

  /** The flag word assembled from four tests reads back as those tests. */
  lemma FlagsRead(z: bool, n: bool, v: bool, c: bool)
    ensures FlagsOf(OrIf(OrIf(OrIf(OrIf(0, SR_ZERO, z), SR_NEGATIVE, n), SR_OVERFLOW, v), SR_CARRY + SR_EXTEND, c)) ==
            Flags(c, n, z, v, c, false)
  {
    hide FlagsOf, Or16;
    var a := OrIf(0, SR_ZERO, z);
    var b := OrIf(a, SR_NEGATIVE, n);
    var d := OrIf(b, SR_OVERFLOW, v);
    MaskFlags();
    OrFlags(0, SR_ZERO);
    OrFlags(a, SR_NEGATIVE);
    OrFlags(b, SR_OVERFLOW);
    OrFlags(d, SR_CARRY + SR_EXTEND);
  }

  /** Testing the sign bit; for a number that fits the size it is the sign. */
  lemma SignBit(x: nat, size: Size)
    ensures And(x, size.SignWeight()) != 0 <==> Bit(x, size.Bits() - 1)
    ensures x < size.Modulus() ==> (Bit(x, size.Bits() - 1) <==> x >= size.SignWeight())
  {
    Pow2Values();
    AndPow2(x, size.Bits() - 1);
    if x < size.Modulus() { TopBit(x, size.Bits() - 1); }
    hide And, Bit;
  }

  predicate Fits(x: int, size: Size) {
    -size.SignWeight() <= x < size.SignWeight()
  }

  predicate Negative(x: int, size: Size) {
    x >= size.SignWeight()
  }

  /** The carry and overflow formulas of addition, reduced to the three sign bits. */
  lemma AddFormulas(s: u32, d: u32, res: u32, size: Size)
    requires s < size.Modulus() && d < size.Modulus() && res < size.Modulus()
    ensures And(And(Not32(Xor32(d, s)), Xor(res, d)), size.SignWeight()) != 0 <==>
            Negative(d, size) == Negative(s, size) && Negative(res, size) != Negative(d, size)
    ensures And(Or(And(s, d), And(Or(s, d), Not32(res))), size.SignWeight()) != 0 <==>
            (Negative(s, size) && Negative(d, size)) ||
            ((Negative(s, size) || Negative(d, size)) && !Negative(res, size))
  {
    hide And, Or, Xor, Bit, Not, Size.SignWeight;
    var top := size.Bits() - 1;
    Pow2Values();
    var over := And(Not32(Xor32(d, s)), Xor(res, d));
    var carry := Or(And(s, d), And(Or(s, d), Not32(res)));
    SignBit(s, size); SignBit(d, size); SignBit(res, size); SignBit(over, size); SignBit(carry, size);
    NotBit(Xor32(d, s), 32, top); NotBit(res, 32, top);
    OpBits(Not32(Xor32(d, s)), Xor(res, d), top); OpBits(d, s, top); OpBits(res, d, top);
    OpBits(And(s, d), And(Or(s, d), Not32(res)), top); OpBits(s, d, top); OpBits(Or(s, d), Not32(res), top);
  }

  lemma SubFormula(s: u32, d: u32, res: u32, size: Size)
    requires s < size.Modulus() && d < size.Modulus() && res < size.Modulus()
    ensures And(And(Xor(d, s), Xor(d, res)), size.SignWeight()) != 0 <==>
            Negative(d, size) != Negative(s, size) && Negative(d, size) != Negative(res, size)
  {
    hide And, Xor, Bit, Size.SignWeight;
    var top := size.Bits() - 1;
    SignBit(s, size); SignBit(d, size); SignBit(res, size); SignBit(And(Xor(d, s), Xor(d, res)), size);
    OpBits(Xor(d, s), Xor(d, res), top); OpBits(d, s, top); OpBits(d, res, top);
  }

  /** The same conditions by integer arithmetic. */
  lemma AddArithmetic(s: u32, d: u32, size: Size)
    requires s < size.Modulus() && d < size.Modulus()
    ensures var res := Low(Wrap32(s + d), size);
            var s', d', r' := Negative(s, size), Negative(d, size), Negative(res, size);
            res == Low(s + d, size) && 0 <= res < size.Modulus() && (r' <==> Signed(res, size) < 0) &&
            ((s' && d') || ((s' || d') && !r') <==> s + d >= size.Modulus()) &&
            (d' == s' && r' != d' <==> !Fits(Signed(s, size) + Signed(d, size), size))
  {
    hide Wrap32, Signed, Low, Size.Modulus, Size.SignWeight;
    WrapThenMod(s + d, size);
    ModCases(s + d, size);
    LowPart(s + d, size);
    SignedCases(s, size);
    SignedCases(d, size);
    SignedCases(Low(s + d, size), size);
  }

  lemma SubArithmetic(s: u32, d: u32, size: Size)
    requires s < size.Modulus() && d < size.Modulus()
    ensures var res := Low(Wrap32(d - s), size);
            var s', d', r' := Negative(s, size), Negative(d, size), Negative(res, size);
            res == Low(d - s, size) && 0 <= res < size.Modulus() && (res == 0 <==> d == s) &&
            (r' <==> Signed(res, size) < 0) &&
            (d' != s' && d' != r' <==> !Fits(Signed(d, size) - Signed(s, size), size)) &&
            (r' == !Fits(Signed(d, size) - Signed(s, size), size) <==> Signed(d, size) >= Signed(s, size))
  {
    hide Wrap32, Signed, Low, Size.Modulus, Size.SignWeight;
    WrapThenMod(d - s, size);
    ModCases(d - s, size);
    LowPart(d - s, size);
    SignedCases(s, size);
    SignedCases(d, size);
    SignedCases(Low(d - s, size), size);
  }

  /** The bit formulas of addition mean integer addition: carry, overflow, zero and sign are exact. */
  lemma AddMeaning(src: u32, dst: u32, size: Size)
    ensures var (res, sr) := AddWithFlags(src, dst, size);
            var s, d := Low(src, size), Low(dst, size);
            res == Low(s + d, size) &&
            (C(sr) <==> s + d >= size.Modulus()) && (X(sr) <==> C(sr)) &&
            (V(sr) <==> !Fits(Signed(s, size) + Signed(d, size), size)) &&
            (Z(sr) <==> res == 0) && (N(sr) <==> Signed(res, size) < 0)
  {
    hide And, Or, Xor, Not32, OrIf, Xor32, Wrap32, Signed, Low, Size.Modulus, Size.SignWeight, Fits;
    LowPart(src, size);
    LowPart(dst, size);
    var s, d := Low(src, size), Low(dst, size);
    var res := Low(Wrap32(s as int + d), size);
    var over := And(Not32(Xor32(d, s)), Xor(res, d));
    var carry := Or(And(s, d), And(Or(s, d), Not32(res)));
    FlagsRead(res == 0, And(res, size.SignWeight()) != 0, And(over, size.SignWeight()) != 0,
              And(carry, size.SignWeight()) != 0);
    SignBit(res, size);
    AddFormulas(s, d, res, size);
    AddArithmetic(s, d, size);
  }

  /** And those of subtraction, where the borrow is a comparison. */
  lemma SubMeaning(src: u32, dst: u32, size: Size)
    ensures var (res, sr) := SubWithFlags(src, dst, size);
            var s, d := Low(src, size), Low(dst, size);
            res == Low(d - s, size) &&
            (C(sr) <==> d < s) && (X(sr) <==> C(sr)) &&
            (V(sr) <==> !Fits(Signed(d, size) - Signed(s, size), size)) &&
            (Z(sr) <==> d == s) && (N(sr) <==> Signed(res, size) < 0)
  {
    hide And, Xor, OrIf, Wrap32, Signed, Low, Size.Modulus, Size.SignWeight, Fits;
    LowPart(src, size);
    LowPart(dst, size);
    var s, d := Low(src, size), Low(dst, size);
    var res := Low(Wrap32(d as int - s), size);
    var over := And(Xor(d, s), Xor(d, res));
    FlagsRead(res == 0, And(res, size.SignWeight()) != 0, And(over, size.SignWeight()) != 0, s > d);
    SignBit(res, size);
    SubFormula(s, d, res, size);
    SubArithmetic(s, d, size);
  }

  // ---- Condition codes ----

  /** conditionTrue, condition by condition. */
  predicate ConditionTrue(sr: u16, cond: nat) {
    match cond
    case 0x0 => true
    case 0x1 => false
    case 0x2 => And(sr, SR_CARRY + SR_ZERO) == 0
    case 0x3 => And(sr, SR_CARRY + SR_ZERO) != 0
    case 0x4 => And(sr, SR_CARRY) == 0
    case 0x5 => And(sr, SR_CARRY) != 0
    case 0x6 => And(sr, SR_ZERO) == 0
    case 0x7 => And(sr, SR_ZERO) != 0
    case 0x8 => And(sr, SR_OVERFLOW) == 0
    case 0x9 => And(sr, SR_OVERFLOW) != 0
    case 0xa => And(sr, SR_NEGATIVE) == 0
    case 0xb => And(sr, SR_NEGATIVE) != 0
    case 0xc => And(sr, SR_NEGATIVE) / 8 == And(sr, SR_OVERFLOW) / 2
    case 0xd => And(sr, SR_NEGATIVE) / 8 != And(sr, SR_OVERFLOW) / 2
    case 0xe => And(sr, SR_ZERO) == 0 && And(sr, SR_NEGATIVE) / 8 == And(sr, SR_OVERFLOW) / 2
    case 0xf => And(sr, SR_ZERO) != 0 || And(sr, SR_NEGATIVE) / 8 != And(sr, SR_OVERFLOW) / 2
    case _ => false
  }

  /** The word shifts and two-bit masks reduce to the four flags. */
  lemma ConditionFlags(sr: u16)
    ensures And(sr, SR_CARRY + SR_ZERO) == 0 <==> !C(sr) && !Z(sr)
    ensures And(sr, SR_NEGATIVE) / 8 == And(sr, SR_OVERFLOW) / 2 <==> N(sr) == V(sr)
  {
    Pow2Values();
    FlagBits(sr);
    AndPow2Value(sr, 3);
    AndPow2Value(sr, 1);
    var both := And(sr, 5);
    ZeroHasNoBit(0);
    ZeroHasNoBit(2);
    OpBits(sr, 5, 0);
    OpBits(sr, 5, 2);
    hide And;
    if !Bit(sr, 0) && !Bit(sr, 2) {
      forall k: nat ensures Bit(both, k) <==> Bit(0, k) {
        OpBits(sr, 5, k);
        FiveBits(k);
        ZeroHasNoBit(k);
      }
      SameBits(both, 0);
    }
  }

  lemma FiveBits(k: nat)
    ensures Bit(5, k) <==> k == 0 || k == 2
  {
    Pow2Values();
    if k > 0 { Pow2Bit(1, k - 1); }
  }

  /** The conditions as the tables of the processor manual give them. */
  lemma ConditionMeaning(sr: u16)
    ensures ConditionTrue(sr, 0x0) && !ConditionTrue(sr, 0x1)
    ensures ConditionTrue(sr, 0x2) <==> !C(sr) && !Z(sr)
    ensures ConditionTrue(sr, 0x3) <==> C(sr) || Z(sr)
    ensures ConditionTrue(sr, 0x4) <==> !C(sr)
    ensures ConditionTrue(sr, 0x5) <==> C(sr)
    ensures ConditionTrue(sr, 0x6) <==> !Z(sr)
    ensures ConditionTrue(sr, 0x7) <==> Z(sr)
    ensures ConditionTrue(sr, 0x8) <==> !V(sr)
    ensures ConditionTrue(sr, 0x9) <==> V(sr)
    ensures ConditionTrue(sr, 0xa) <==> !N(sr)
    ensures ConditionTrue(sr, 0xb) <==> N(sr)
    ensures ConditionTrue(sr, 0xc) <==> N(sr) == V(sr)
    ensures ConditionTrue(sr, 0xd) <==> N(sr) != V(sr)
    ensures ConditionTrue(sr, 0xe) <==> !Z(sr) && N(sr) == V(sr)
    ensures ConditionTrue(sr, 0xf) <==> Z(sr) || N(sr) != V(sr)
  {
    ConditionFlags(sr);
    hide And;
  }

  /** What CMP leaves in the status register, whatever it held before. */
  lemma CompareFlags(src: u32, dst: u32, size: Size, before: u16)
    ensures var s, d := Low(src, size), Low(dst, size);
            var sr := ReplaceFlags(before, MASK_NZVC, SubWithFlags(src, dst, size).1);
            (C(sr) <==> d < s) && (Z(sr) <==> d == s) &&
            (V(sr) <==> !Fits(Signed(d, size) - Signed(s, size), size)) &&
            (N(sr) == V(sr) <==> Signed(d, size) >= Signed(s, size)) &&
            (N(sr) <==> Signed(Low(d as int - s, size), size) < 0) && sr / 0x10 == before / 0x10
  {
    hide SubWithFlags, ReplaceFlags, And, Signed, Low, Size.Modulus, Size.SignWeight, Wrap32, Fits;
    var flags := SubWithFlags(src, dst, size).1;
    SubMeaning(src, dst, size);
    ReplacedFlags(before, flags);
    ReplacedExactly(before, flags);
    LowPart(src, size);
    LowPart(dst, size);
    SubArithmetic(Low(src, size), Low(dst, size), size);
    WrapThenMod(Low(dst, size) - Low(src, size), size);
  }

  /** A signed difference is zero exactly when the operands are equal. */
  lemma SignedEqual(s: nat, d: nat, size: Size)
    requires s < size.Modulus() && d < size.Modulus()
    ensures Signed(d, size) == Signed(s, size) <==> d == s
  {
    SignedCases(s, size);
    SignedCases(d, size);
  }

  /** CMP followed by a conditional: the conditions decide integer order at every size. */
  lemma CompareDecides(src: u32, dst: u32, size: Size, before: u16)
    ensures var s, d := Low(src, size), Low(dst, size);
            var signedS, signedD := Signed(s, size), Signed(d, size);
            var sr := ReplaceFlags(before, MASK_NZVC, SubWithFlags(src, dst, size).1);
            && (ConditionTrue(sr, 0x2) <==> d > s) && (ConditionTrue(sr, 0x3) <==> d <= s)
            && (ConditionTrue(sr, 0x4) <==> d >= s) && (ConditionTrue(sr, 0x5) <==> d < s)
            && (ConditionTrue(sr, 0x6) <==> d != s) && (ConditionTrue(sr, 0x7) <==> d == s)
            && (ConditionTrue(sr, 0x8) <==> Fits(signedD - signedS, size))
            && (ConditionTrue(sr, 0x9) <==> !Fits(signedD - signedS, size))
            && (ConditionTrue(sr, 0xa) <==> Signed(Low(d as int - s, size), size) >= 0)
            && (ConditionTrue(sr, 0xb) <==> Signed(Low(d as int - s, size), size) < 0)
            && (ConditionTrue(sr, 0xc) <==> signedD >= signedS) && (ConditionTrue(sr, 0xd) <==> signedD < signedS)
            && (ConditionTrue(sr, 0xe) <==> signedD > signedS) && (ConditionTrue(sr, 0xf) <==> signedD <= signedS)
  {
    hide SubWithFlags, ReplaceFlags, ConditionTrue, C, V, Z, N, X, Supervisor, Signed, Low, Size.Modulus,
         Size.SignWeight, Fits;
    CompareFlags(src, dst, size, before);
    ConditionMeaning(ReplaceFlags(before, MASK_NZVC, SubWithFlags(src, dst, size).1));
    LowPart(src, size);
    LowPart(dst, size);
    SignedEqual(Low(src, size), Low(dst, size), size);
  }
}
