/** Multi-precision steps (op_arithmetic.go): ADDX, SUBX, ABCD and SBCD on one limb. */
module Extend {
  import opened Words
  import opened Bits
  import opened Status
  import opened Arithmetic

  function AddWithExtend(src: u32, dst: u32, size: Size, extend: bool): (u32, u16) {
    var operand2 := Wrap32(Low(src, size) as int + ToInt(extend));
    var result := Wrap32(Low(dst, size) as int + operand2);
    var masked := Low(result, size);
    var v := And(And(Not32(Xor32(dst, operand2)), Xor(masked, dst)), size.SignWeight()) != 0;
    (masked, FlagWord(masked, size, v, AndNot(result, size.Modulus() - 1) != 0))
  }

  function SubWithExtend(src: u32, dst: u32, size: Size, extend: bool): (u32, u16) {
    var operand2 := Wrap32(Low(src, size) as int + ToInt(extend));
    var result := Wrap32(Low(dst, size) as int - operand2);
    var masked := Low(result, size);
    var v := And(And(Xor(dst, operand2), Xor(dst, masked)), size.SignWeight()) != 0;
    (masked, FlagWord(masked, size, v, Low(dst, size) < operand2))
  }

  /** Z, N, V and C|X, or-ed into an empty word one after the other. */
  function FlagWord(masked: u32, size: Size, v: bool, c: bool): u16 {
    OrIf(OrIf(OrIf(OrIf(0, SR_ZERO, masked == 0), SR_NEGATIVE, And(masked, size.SignWeight()) != 0), SR_OVERFLOW, v),
         SR_CARRY + SR_EXTEND, c)
  }

  /** updateExtendZeroFlag: Z can only be cleared by a step, never set. */
  function UpdateExtendZeroFlag(flags: u16, size: Size, result: u32, prevZero: bool): u16 {
    OrIf(AndNot16(flags, SR_ZERO), SR_ZERO, Low(result, size) == 0 && prevZero)
  }

  lemma ExtendZero(flags: u16, size: Size, result: u32, prevZero: bool)
    ensures FlagsOf(UpdateExtendZeroFlag(flags, size, result, prevZero)) ==
            FlagsOf(flags).(z := Low(result, size) == 0 && prevZero)
  {
    MaskFlags();
    AndNotFlags(flags, SR_ZERO);
    OrFlags(AndNot16(flags, SR_ZERO), SR_ZERO);
    hide FlagsOf, AndNot16, Or16;
  }

  /** Whether the folded operand is read as negative. */
  predicate FoldedNegative(s: u32, size: Size, extend: bool) {
    if extend && s == size.SignWeight() - 1 then true
    else if extend && s == size.Modulus() - 1 then false else Negative(s, size)
  }

  /** The second operand with X folded in keeps its sign, except that the largest positive turns negative. */
  lemma FoldedSign(s: u32, size: Size, extend: bool)
    requires s < size.Modulus()
    ensures Bit(Wrap32(s as int + ToInt(extend)), size.Bits() - 1) <==>
            FoldedNegative(s, size, extend)
  {
    hide Bit, And, Signed, Low;
    Pow2Values();
    var operand2 := Wrap32(s as int + ToInt(extend));
    SignedCases(s, size);
    if operand2 < size.Modulus() {
      SignBit(operand2, size);
    } else {
      Pow2Bit(size.Bits(), size.Bits() - 1);
    }
  }

  lemma SignOfLow(dst: u32, size: Size)
    ensures Bit(dst, size.Bits() - 1) <==> Negative(Low(dst, size), size)
  {
    Pow2Values();
    BitOfRemainder(dst, size.Bits(), size.Bits() - 1);
    SignBit(Low(dst, size), size);
    hide Bit, And;
  }

  /** The overflow formulas on the folded operand, reduced to signs. */
  lemma ExtendOverflow(dst: u32, operand2: u32, masked: u32, size: Size)
    requires masked < size.Modulus()
    ensures And(And(Not32(Xor32(dst, operand2)), Xor(masked, dst)), size.SignWeight()) != 0 <==>
            Negative(Low(dst, size), size) == Bit(operand2, size.Bits() - 1) &&
            Negative(masked, size) != Negative(Low(dst, size), size)
    ensures And(And(Xor(dst, operand2), Xor(dst, masked)), size.SignWeight()) != 0 <==>
            Negative(Low(dst, size), size) != Bit(operand2, size.Bits() - 1) &&
            Negative(masked, size) != Negative(Low(dst, size), size)
  {
    hide And, Or, Xor, Bit, Not, Size.SignWeight, Low;
    var top := size.Bits() - 1;
    Pow2Values();
    SignOfLow(dst, size);
    SignBit(masked, size);
    SignBit(And(Not32(Xor32(dst, operand2)), Xor(masked, dst)), size);
    SignBit(And(Xor(dst, operand2), Xor(dst, masked)), size);
    NotBit(Xor32(dst, operand2), 32, top);
    OpBits(Not32(Xor32(dst, operand2)), Xor(masked, dst), top);
    OpBits(Xor(dst, operand2), Xor(dst, masked), top);
    OpBits(dst, operand2, top);
    OpBits(masked, dst, top);
    OpBits(dst, masked, top);
  }

  lemma BeyondMask(result: u32, size: Size)
    ensures AndNot(result, size.Modulus() - 1) != 0 <==> result >= size.Modulus()
  {
    Pow2Values();
    AndNotMask(result, size.Bits());
    SmallResidue(result, size.Modulus());
    hide AndNot;
    match size { case Byte => case Word => case Long => }
  }

  lemma SmallResidue(x: nat, m: nat)
    requires m > 0
    ensures x - x % m != 0 <==> x >= m
  {
    if x < m { ModUnique(x, m, 0, x); }
  }

  lemma AddxArithmetic(s: u32, d: u32, size: Size, extend: bool)
    requires s < size.Modulus() && d < size.Modulus()
    ensures var e := ToInt(extend);
            var result := Wrap32(d as int + Wrap32(s as int + e));
            var masked := Low(result, size);
            masked == Low(d as int + s + e, size) &&
            (result >= size.Modulus() <==> size != Long && d as int + s + e >= size.Modulus()) &&
            (Negative(masked, size) <==> Signed(masked, size) < 0) &&
            ((Negative(d, size) == FoldedNegative(s, size, extend) && Negative(masked, size) != Negative(d, size) <==>
              !Fits(Signed(d, size) + Signed(s, size) + e, size)) <==> !(extend && s == size.SignWeight() - 1))
  {
    hide Signed, Low;
    var e := ToInt(extend);
    WrapTwice(d, s, e);
    WrapThenMod(d as int + s + e, size);
    hide Wrap32;
    ModCases(d as int + s + e, size);
    SignedCases(s, size);
    SignedCases(d, size);
    SignedCases(Low(d as int + s + e, size), size);
    LowPart(s, size);
    NarrowSum(s, d, size, extend);
    hide Size.Modulus, Size.SignWeight;
  }

  lemma WrapTwice(d: u32, s: u32, e: nat)
    ensures Wrap32(d as int + Wrap32(s as int + e)) == Wrap32(d as int + s + e)
    ensures Wrap32(d as int - Wrap32(s as int + e)) == Wrap32(d as int - s - e)
  {
    var q := (s as int + e) / 0x1_0000_0000;
    assert Wrap32(s as int + e) == s as int + e - 0x1_0000_0000 * q;
    hide Wrap32;
    WrapsDropped(d as int + s + e, -q);
    WrapsDropped(d as int - s - e, q);
  }

  lemma WrapsDropped(x: int, q: int)
    ensures Wrap32(x + 0x1_0000_0000 * q) == Wrap32(x)
  {
    ModUnique(x + 0x1_0000_0000 * q, 0x1_0000_0000, x / 0x1_0000_0000 + q, x % 0x1_0000_0000);
  }

  lemma NarrowSum(s: u32, d: u32, size: Size, extend: bool)
    requires s < size.Modulus() && d < size.Modulus()
    ensures Wrap32(d as int + s + ToInt(extend)) >= size.Modulus() <==>
            size != Long && d as int + s + ToInt(extend) >= size.Modulus()
    ensures d < Wrap32(s as int + ToInt(extend)) <==>
            d < s + ToInt(extend) && !(size == Long && extend && s == size.Modulus() - 1)
  {
  }

  lemma SubxArithmetic(s: u32, d: u32, size: Size, extend: bool)
    requires s < size.Modulus() && d < size.Modulus()
    ensures var e := ToInt(extend);
            var masked := Low(Wrap32(d as int - Wrap32(s as int + e)), size);
            masked == Low(d as int - s - e, size) &&
            (Negative(masked, size) <==> Signed(masked, size) < 0) &&
            ((Negative(d, size) != FoldedNegative(s, size, extend) && Negative(masked, size) != Negative(d, size) <==>
              !Fits(Signed(d, size) - Signed(s, size) - e, size)) <==> !(extend && s == size.SignWeight() - 1))
  {
    hide Signed, Low;
    var e := ToInt(extend);
    WrapTwice(d, s, e);
    WrapThenMod(d as int - s - e, size);
    hide Wrap32;
    ModCases(d as int - s - e, size);
    SignedCases(s, size);
    SignedCases(d, size);
    SignedCases(Low(d as int - s - e, size), size);
    LowPart(s, size);
    hide Size.Modulus, Size.SignWeight;
  }

  /** ADDX as integer arithmetic. Result, Z and N are always right. The carry is right except that
      it is never set at Long size; V is right except when X is added to the largest positive source. */
  lemma AddxMeaning(src: u32, dst: u32, size: Size, extend: bool)
    ensures var (res, sr) := AddWithExtend(src, dst, size, extend);
            var s, d, e := Low(src, size), Low(dst, size), ToInt(extend);
            res == Low(d as int + s + e, size) &&
            (Z(sr) <==> res == 0) && (N(sr) <==> Signed(res, size) < 0) && (X(sr) <==> C(sr)) &&
            (C(sr) <==> size != Long && d as int + s + e >= size.Modulus()) &&
            ((V(sr) <==> !Fits(Signed(d, size) + Signed(s, size) + e, size)) <==>
             !(extend && s == size.SignWeight() - 1))
  {
    hide And, AndNot, Xor, Xor32, Not32, OrIf, Signed, Low, Fits, Size.Modulus, Size.SignWeight, Bit, Wrap32;
    var s, d, e := Low(src, size), Low(dst, size), ToInt(extend);
    var operand2 := Wrap32(s as int + e);
    var result := Wrap32(d as int + operand2);
    var masked := Low(result, size);
    var v := And(And(Not32(Xor32(dst, operand2)), Xor(masked, dst)), size.SignWeight()) != 0;
    FlagsRead(masked == 0, And(masked, size.SignWeight()) != 0, v, AndNot(result, size.Modulus() - 1) != 0);
    SignBit(masked, size);
    BeyondMask(result, size);
    ExtendOverflow(dst, operand2, masked, size);
    FoldedSign(s, size, extend);
    AddxArithmetic(s, d, size, extend);
  }

  /** SUBX likewise. The borrow is right except at Long size when X is added to the largest source. */
  lemma SubxMeaning(src: u32, dst: u32, size: Size, extend: bool)
    ensures var (res, sr) := SubWithExtend(src, dst, size, extend);
            var s, d, e := Low(src, size), Low(dst, size), ToInt(extend);
            res == Low(d as int - s - e, size) &&
            (Z(sr) <==> res == 0) && (N(sr) <==> Signed(res, size) < 0) && (X(sr) <==> C(sr)) &&
            (C(sr) <==> d < s + e && !(size == Long && extend && s == size.Modulus() - 1)) &&
            ((V(sr) <==> !Fits(Signed(d, size) - Signed(s, size) - e, size)) <==>
             !(extend && s == size.SignWeight() - 1))
  {
    hide And, Xor, Xor32, OrIf, Signed, Low, Fits, Size.Modulus, Size.SignWeight, Bit, Wrap32;
    var s, d, e := Low(src, size), Low(dst, size), ToInt(extend);
    var operand2 := Wrap32(s as int + e);
    var masked := Low(Wrap32(d as int - operand2), size);
    var v := And(And(Xor(dst, operand2), Xor(dst, masked)), size.SignWeight()) != 0;
    FlagsRead(masked == 0, And(masked, size.SignWeight()) != 0, v, d < operand2);
    SignBit(masked, size);
    ExtendOverflow(dst, operand2, masked, size);
    FoldedSign(s, size, extend);
    NarrowSum(s, d, size, extend);
    SubxArithmetic(s, d, size, extend);
  }

  // ---- The deviations at concrete operands ----

  /** 0xffffffff + 1 at Long: the result is 0 and the carry is lost. */
  lemma LongCarryLost()
    ensures var (r, sr) := AddWithExtend(0xffff_ffff, 1, Long, false); r == 0 && Z(sr) && !C(sr) && !X(sr)
  {
    hide And, AddWithExtend, Signed;
    AddxMeaning(0xffff_ffff, 1, Long, false);
    SignedCases(0xffff_ffff, Long);
    SignedCases(1, Long);
    ModCases(0x1_0000_0000, Long);
  }

  /** 0 - 0xffffffff - 1 at Long: the borrow is lost. */
  lemma LongBorrowLost()
    ensures var (r, sr) := SubWithExtend(0xffff_ffff, 0, Long, true); r == 0 && !C(sr) && !X(sr)
  {
    hide And, SubWithExtend, Signed;
    SubxMeaning(0xffff_ffff, 0, Long, true);
    SignedCases(0xffff_ffff, Long);
    SignedCases(0, Long);
    ModCases(-0x1_0000_0000, Long);
  }

  /** 0 + 0x7f + 1 at Byte overflows to -128 with V clear; 0x80 + 0x7f + 1 is exactly 0 with V set. */
  lemma OverflowMistaken()
    ensures var (r, sr) := AddWithExtend(0x7f, 0, Byte, true); r == 0x80 && N(sr) && !V(sr)
    ensures var (r, sr) := AddWithExtend(0x7f, 0x80, Byte, true); r == 0 && V(sr)
  {
    hide And, AddWithExtend;
    AddxMeaning(0x7f, 0, Byte, true);
    AddxMeaning(0x7f, 0x80, Byte, true);
  }
}
