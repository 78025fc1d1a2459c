/** DIVU and DIVS (op_arithmetic.go): 32 by 16 bits to a 16-bit quotient and remainder. */
module Divide {
  import opened Words
  import opened Bits
  import opened Status
  import opened Arithmetic
  import Core

  function Abs(x: int): nat { if x < 0 then -x else x }

  /** The division that truncates towards zero, before any wrapping. */
  function Quotient(a: int, b: int): int
    requires b != 0
  {
    if (a < 0) == (b < 0) then Abs(a) / Abs(b) else -(Abs(a) / Abs(b))
  }

  function Remainder(a: int, b: int): int
    requires b != 0
  {
    if a < 0 then -(Abs(a) % Abs(b)) else Abs(a) % Abs(b)
  }

  /** q and r are quotient and remainder of a by b: the remainder is smaller than the divisor and
      has the dividend's sign unless it is zero. */
  predicate IsDivision(a: int, b: int, q: int, r: int) {
    a == q * b + r && Abs(r) < Abs(b) && (r == 0 || (r < 0 <==> a < 0))
  }

  lemma DivisionExists(a: int, b: int)
    requires b != 0
    ensures IsDivision(a, b, Quotient(a, b), Remainder(a, b))
  {
    hide Quotient, Remainder;
    UnfoldDivision(a, b);
    DivisionParts(a, b, Abs(a) / Abs(b), Abs(a) % Abs(b));
  }

  lemma DivisionParts(a: int, b: int, q: int, r: int)
    requires b != 0 && Abs(a) == Abs(b) * q + r && 0 <= r < Abs(b)
    ensures IsDivision(a, b, if (a < 0) == (b < 0) then q else -q, if a < 0 then -r else r)
  {
    SignsMove(q, Abs(b));
  }

  lemma UnfoldDivision(a: int, b: int)
    requires b != 0
    ensures Quotient(a, b) == if (a < 0) == (b < 0) then Abs(a) / Abs(b) else -(Abs(a) / Abs(b))
    ensures Remainder(a, b) == if a < 0 then -(Abs(a) % Abs(b)) else Abs(a) % Abs(b)
  {
  }

  lemma SignsMove(q: int, d: int)
    ensures (-q) * d == -(q * d) && q * (-d) == -(q * d) && (-q) * (-d) == q * d && d * q == q * d
  {
  }

  lemma ProductDifference(q: int, q': int, b: int)
    ensures b * (q - q') == q * b - q' * b && (-b) * (q - q') == q' * b - q * b
  {
  }

  lemma DivisionUnique(a: int, b: int, q: int, r: int, q': int, r': int)
    requires IsDivision(a, b, q, r) && IsDivision(a, b, q', r')
    ensures q == q' && r == r'
  {
    ProductDifference(q, q', b);
    if b > 0 { MulGap(b, q - q'); } else { MulGap(-b, q - q'); }
  }

  /** (remainder << 16) | quotient, both cut to 16 bits. */
  function Packed(quotient: int, remainder: int): u32 {
    Pow2Values();
    OrIsSum(Low(remainder, Word), Low(quotient, Word), 16);
    Or(Low(remainder, Word) * Pow2(16), Low(quotient, Word))
  }

  function QuotientFlags(quotient: int): u16 {
    OrIf(OrIf(0, SR_ZERO, quotient == 0), SR_NEGATIVE, And(Low(quotient, Word), 0x8000) != 0)
  }

  /** How both instructions end: overflow leaves the register alone. */
  function Concluded(register: u32, quotient: int, remainder: int, overflow: bool, sr: u16): (u32, u16) {
    if overflow then (register, ReplaceFlags(sr, MASK_NZVC, SR_OVERFLOW))
    else (Packed(quotient, remainder), ReplaceFlags(sr, MASK_NZVC, QuotientFlags(quotient)))
  }

  /** divu on register and status word, for a divisor other than zero. */
  function Unsigned(dividend: u32, divisor: u16, sr: u16): (u32, u16)
    requires divisor != 0
  {
    Concluded(dividend, dividend / divisor, dividend % divisor, dividend / divisor > 0xffff, sr)
  }

  /** divs: int32 division, which wraps for -2^31 by -1. */
  function SignedDivide(register: u32, operand: u16, sr: u16): (u32, u16)
    requires operand != 0
  {
    DivisorNotZero(operand);
    var divisor, dividend := Signed(operand, Word), Signed(register, Long);
    var quotient := Signed(Quotient(dividend, divisor), Long);
    Concluded(register, quotient, Remainder(dividend, divisor), quotient > 0x7fff || quotient < -0x8000, sr)
  }

  lemma DivisorNotZero(operand: u16)
    ensures Signed(operand, Word) == 0 <==> operand == 0
  {
  }

  lemma PackedParts(q: int, r: int)
    ensures Packed(q, r) == Low(r, Word) * 0x1_0000 + Low(q, Word)
    ensures Packed(q, r) / 0x1_0000 == Low(r, Word) && Low(Packed(q, r), Word) == Low(q, Word)
  {
    Pow2Values();
    OrIsSum(Low(r, Word), Low(q, Word), 16);
    hide Or, Pow2;
    ModUnique(Packed(q, r), 0x1_0000, Low(r, Word), Low(q, Word));
  }

  lemma QuotientFlagsRead(q: int)
    ensures FlagsOf(QuotientFlags(q)) == Flags(false, Low(q, Word) >= 0x8000, q == 0, false, false, false)
  {
    SignBit(Low(q, Word), Word);
    var z := OrIf(0, SR_ZERO, q == 0);
    MaskFlags();
    OrFlags(0, SR_ZERO);
    OrFlags(z, SR_NEGATIVE);
    hide FlagsOf, Or16, And, Low;
  }

  /** What is left behind, flag by flag. */
  lemma ConcludedMeaning(register: u32, q: int, r: int, overflow: bool, sr: u16)
    ensures var (d, sr') := Concluded(register, q, r, overflow, sr);
            if overflow then d == register && FlagsOf(sr') == Flags(X(sr), false, false, true, false, Supervisor(sr))
            else Low(d, Word) == Low(q, Word) && d / 0x1_0000 == Low(r, Word) &&
                 FlagsOf(sr') == Flags(X(sr), Low(q, Word) >= 0x8000, q == 0, false, false, Supervisor(sr))
  {
    hide Packed, QuotientFlags, ReplaceFlags, And, X, Supervisor, Low;
    PackedParts(q, r);
    QuotientFlagsRead(q);
    ReplacedFlags(sr, QuotientFlags(q));
    ReplacedFlags(sr, SR_OVERFLOW);
    MaskFlags();
  }

  /** DIVU: a quotient beyond 16 bits sets V and changes nothing; any other is packed below the
      remainder, with N and Z describing it. */
  lemma UnsignedMeaning(dividend: u32, divisor: u16, sr: u16, q: int, r: int)
    requires divisor != 0 && IsDivision(dividend, divisor, q, r)
    ensures var (d, sr') := Unsigned(dividend, divisor, sr);
            if q <= 0xffff then
              Low(d, Word) == q && d / 0x1_0000 == r &&
              FlagsOf(sr') == Flags(X(sr), q >= 0x8000, q == 0, false, false, Supervisor(sr))
            else d == dividend && FlagsOf(sr') == Flags(X(sr), false, false, true, false, Supervisor(sr))
  {
    hide Concluded, X, Supervisor, FlagsOf;
    UnsignedParts(dividend, divisor, q, r);
    ConcludedMeaning(dividend, q, r, q > 0xffff, sr);
  }

  lemma UnsignedParts(dividend: u32, divisor: u16, q: int, r: int)
    requires divisor != 0 && IsDivision(dividend, divisor, q, r)
    ensures dividend / divisor == q && dividend % divisor == r && q >= 0 && Low(r, Word) == r
    ensures q <= 0xffff ==> Low(q, Word) == q
  {
    ModUnique(dividend, divisor, q, r);
  }

  /** DIVS: the same on two's complement values; V exactly when the true quotient does not fit,
      -2^31 by -1 included. */
  lemma SignedMeaning(register: u32, operand: u16, sr: u16, q: int, r: int)
    requires operand != 0 && IsDivision(Signed(register, Long), Signed(operand, Word), q, r)
    ensures var (d, sr') := SignedDivide(register, operand, sr);
            if Fits(q, Word) then
              Signed(d, Word) == q && Signed(d / 0x1_0000, Word) == r &&
              FlagsOf(sr') == Flags(X(sr), q < 0, q == 0, false, false, Supervisor(sr))
            else d == register && FlagsOf(sr') == Flags(X(sr), false, false, true, false, Supervisor(sr))
  {
    hide Concluded, X, Supervisor, FlagsOf, Signed, Low, Quotient, Remainder, IsDivision;
    var a, b := Signed(register, Long), Signed(operand, Word);
    DivisorNotZero(operand);
    DivisionExists(a, b);
    DivisionUnique(a, b, q, r, Quotient(a, b), Remainder(a, b));
    QuotientBounded(a, b, q, r);
    var w := Signed(q, Long);
    WrappedQuotient(q);
    ConcludedMeaning(register, w, r, !Fits(w, Word), sr);
    if Fits(q, Word) {
      WordReads(q);
      WordReads(r);
      SignedOfLow(Concluded(register, w, r, false, sr).0, q, r);
    }
  }

  /** The quotient is no larger than the dividend, the remainder smaller than the divisor. */
  lemma QuotientBounded(a: int, b: int, q: int, r: int)
    requires IsDivision(a, b, q, r) && -0x8000_0000 <= a < 0x8000_0000 && b != 0 && -0x8000 <= b < 0x8000
    ensures -0x8000_0000 <= q <= 0x8000_0000 && Fits(r, Word)
  {
    if b > 0 { MulGap(b, q - 0x8000_0000); MulGap(b, q + 0x8000_0000); } else {
      MulGap(-b, q - 0x8000_0000);
      MulGap(-b, q + 0x8000_0000);
    }
  }

  /** int32 holds every quotient but 2^31, which wraps to a value that does not fit 16 bits either. */
  lemma WrappedQuotient(q: int)
    requires -0x8000_0000 <= q <= 0x8000_0000
    ensures Fits(Signed(q, Long), Word) <==> Fits(q, Word)
    ensures Fits(q, Word) ==> Signed(q, Long) == q
  {
  }

  lemma WordReads(x: int)
    requires Fits(x, Word)
    ensures Signed(Low(x, Word), Word) == x && (Low(x, Word) >= 0x8000 <==> x < 0)
  {
  }

  lemma SignedOfLow(d: u32, q: int, r: int)
    requires d / 0x1_0000 == Low(r, Word) && Low(d, Word) == Low(q, Word)
    ensures Signed(d, Word) == Signed(Low(q, Word), Word) && Signed(d / 0x1_0000, Word) == Signed(Low(r, Word), Word)
  {
  }

  /** DIVU or DIVS on Dn; the operand comes from the effective address. */
  function DivideStep(c: Core.State, reg: nat, operand: u16, signed: bool): (Core.State, Option<Fault>)
    requires reg < 8
  {
    if operand == 0 then Core.Exception(c, Core.XDIVBYZERO)
    else
      var (d, sr) := if signed then SignedDivide(c.regs.D[reg], operand, c.regs.SR)
                     else Unsigned(c.regs.D[reg], operand, c.regs.SR);
      (c.(regs := c.regs.(D := c.regs.D[reg := d], SR := sr)), None)
  }

  /** What DIVU and DIVS do to the machine, told by the true quotient and remainder: if the quotient
      fits 16 bits it is in the low half of Dn and the remainder in the high half, N and Z describe the
      quotient, V and C are clear; if not, V is set, N, Z and C are clear and Dn is kept. The rest of
      the status word and everything else in the machine are kept in both cases. */
  ghost predicate Divided(c: Core.State, d: Core.State, reg: nat, signed: bool, q: int, r: int)
    requires reg < 8
  {
    var now, sr := d.regs.D[reg], d.regs.SR;
    && d == c.(regs := c.regs.(D := d.regs.D, SR := sr))
    && (forall i :: 0 <= i < 8 && i != reg ==> d.regs.D[i] == c.regs.D[i])
    && sr / 0x10 == c.regs.SR / 0x10
    && if signed && -0x8000 <= q < 0x8000 then
         Signed(now, Word) == q && Signed(now / 0x1_0000, Word) == r &&
         (N(sr) <==> q < 0) && (Z(sr) <==> q == 0) && !V(sr) && !C(sr)
       else if !signed && q < 0x1_0000 then
         now % 0x1_0000 == q && now / 0x1_0000 == r &&
         (N(sr) <==> q >= 0x8000) && (Z(sr) <==> q == 0) && !V(sr) && !C(sr)
       else now == c.regs.D[reg] && !N(sr) && !Z(sr) && V(sr) && !C(sr)
  }

  lemma DivideStepMeaning(c: Core.State, reg: nat, operand: u16, signed: bool, q: int, r: int)
    requires reg < 8 && operand != 0
    requires if signed then IsDivision(Signed(c.regs.D[reg], Long), Signed(operand, Word), q, r)
             else IsDivision(c.regs.D[reg], operand, q, r)
    ensures DivideStep(c, reg, operand, signed).1.None?
    ensures Divided(c, DivideStep(c, reg, operand, signed).0, reg, signed, q, r)
  {
    hide N, Z, V, C, X, Supervisor, Signed, IsDivision, Unsigned, SignedDivide;
    DivisionKeepsSystem(c.regs.D[reg], operand, c.regs.SR);
    if signed {
      SignedMeaning(c.regs.D[reg], operand, c.regs.SR, q, r);
    } else {
      UnsignedMeaning(c.regs.D[reg], operand, c.regs.SR, q, r);
      UnsignedParts(c.regs.D[reg], operand, q, r);
    }
  }

  /** X and the system byte survive. */
  lemma DivisionKeepsSystem(register: u32, operand: u16, sr: u16)
    requires operand != 0
    ensures SignedDivide(register, operand, sr).1 / 0x10 == sr / 0x10
    ensures Unsigned(register, operand, sr).1 / 0x10 == sr / 0x10
  {
    hide Packed, QuotientFlags, ReplaceFlags, Signed, Quotient, Remainder;
    DivisorNotZero(operand);
    KeepsAbove(sr, SR_OVERFLOW);
    KeepsAbove(sr, QuotientFlags(Signed(Quotient(Signed(register, Long), Signed(operand, Word)), Long)));
    KeepsAbove(sr, QuotientFlags(register / operand));
  }

  lemma KeepsAbove(sr: u16, flags: u16)
    ensures ReplaceFlags(sr, MASK_NZVC, flags) / 0x10 == sr / 0x10
  {
    ReplacedExactly(sr, flags);
  }
}
