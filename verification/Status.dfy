/** The status register word: bit masks (cpu.go, ssr_helpers.go) and what they select. */
module Status {
  import opened Words
  import opened Bits

  const SR_CARRY: u16 := 0x0001
  const SR_OVERFLOW: u16 := 0x0002
  const SR_ZERO: u16 := 0x0004
  const SR_NEGATIVE: u16 := 0x0008
  const SR_EXTEND: u16 := 0x0010
  const SR_INTERRUPT_MASK: u16 := 0x0700
  const SR_SUPERVISOR: u16 := 0x2000
  const MASK_NZVC: u16 := 0x000f
  const MASK_NZVCX: u16 := 0x001f

  predicate C(sr: u16) { And(sr, SR_CARRY) != 0 }
  predicate V(sr: u16) { And(sr, SR_OVERFLOW) != 0 }
  predicate Z(sr: u16) { And(sr, SR_ZERO) != 0 }
  predicate N(sr: u16) { And(sr, SR_NEGATIVE) != 0 }
  predicate X(sr: u16) { And(sr, SR_EXTEND) != 0 }
  predicate Supervisor(sr: u16) { And(sr, SR_SUPERVISOR) != 0 }

  /** (sr & srInterruptMask) >> 8 */
  function Mask(sr: u16): nat { And(sr, SR_INTERRUPT_MASK) / 0x100 }

  lemma FlagBits(sr: u16)
    ensures C(sr) <==> Bit(sr, 0)
    ensures V(sr) <==> Bit(sr, 1)
    ensures Z(sr) <==> Bit(sr, 2)
    ensures N(sr) <==> Bit(sr, 3)
    ensures X(sr) <==> Bit(sr, 4)
    ensures Supervisor(sr) <==> Bit(sr, 13)
  {
    Pow2Values();
    AndPow2(sr, 0); AndPow2(sr, 1); AndPow2(sr, 2); AndPow2(sr, 3); AndPow2(sr, 4); AndPow2(sr, 13);
  }

  /** The named bits of a status word. */
  datatype Flags = Flags(x: bool, n: bool, z: bool, v: bool, c: bool, s: bool)

  function FlagsOf(sr: u16): Flags {
    Flags(X(sr), N(sr), Z(sr), V(sr), C(sr), Supervisor(sr))
  }

  /** `sr | m` on uint16. */
  function Or16(sr: u16, m: u16): u16 {
    Pow2Values();
    WidthOps(sr, m, 16);
    Or(sr, m)
  }

  /** `sr &^ m` on uint16. */
  function AndNot16(sr: u16, m: u16): u16 {
    Pow2Values();
    WidthOps(sr, m, 16);
    AndNot(sr, m)
  }

  /** `sr & m` on uint16. */
  function And16(sr: u16, m: u16): u16 {
    Pow2Values();
    WidthOps(sr, m, 16);
    And(sr, m)
  }

  /** `if set { sr |= m }` */
  function OrIf(sr: u16, m: u16, wanted: bool): u16 {
    if wanted then Or16(sr, m) else sr
  }

  /** replaceStatusFlags: (SR &^ mask) | (flags & mask). */
  function ReplaceFlags(sr: u16, mask: u16, flags: u16): u16 {
    Or16(AndNot16(sr, mask), And16(flags, mask))
  }

  lemma OrFlags(a: u16, b: u16)
    ensures var f, g := FlagsOf(a), FlagsOf(b);
            FlagsOf(Or16(a, b)) == Flags(f.x || g.x, f.n || g.n, f.z || g.z, f.v || g.v, f.c || g.c, f.s || g.s)
  {
    hide And, Bit, Or, AndNot, Xor;
    FlagBits(a); FlagBits(b); FlagBits(Or16(a, b));
    OpBits(a, b, 0); OpBits(a, b, 1); OpBits(a, b, 2); OpBits(a, b, 3); OpBits(a, b, 4); OpBits(a, b, 13);
  }

  lemma AndFlags(a: u16, b: u16)
    ensures var f, g := FlagsOf(a), FlagsOf(b);
            FlagsOf(And16(a, b)) == Flags(f.x && g.x, f.n && g.n, f.z && g.z, f.v && g.v, f.c && g.c, f.s && g.s)
  {
    hide And, Bit, Or, AndNot, Xor;
    FlagBits(a); FlagBits(b); FlagBits(And16(a, b));
    OpBits(a, b, 0); OpBits(a, b, 1); OpBits(a, b, 2); OpBits(a, b, 3); OpBits(a, b, 4); OpBits(a, b, 13);
  }

  lemma AndNotFlags(a: u16, b: u16)
    ensures var f, g := FlagsOf(a), FlagsOf(b);
            FlagsOf(AndNot16(a, b)) ==
              Flags(f.x && !g.x, f.n && !g.n, f.z && !g.z, f.v && !g.v, f.c && !g.c, f.s && !g.s)
  {
    hide And, Bit, Or, AndNot, Xor;
    FlagBits(a); FlagBits(b); FlagBits(AndNot16(a, b));
    OpBits(a, b, 0); OpBits(a, b, 1); OpBits(a, b, 2); OpBits(a, b, 3); OpBits(a, b, 4); OpBits(a, b, 13);
  }

  /** Replacing flags takes the low four or five bits from the new word and keeps all others. */
  lemma ReplacedExactly(sr: u16, flags: u16)
    ensures ReplaceFlags(sr, MASK_NZVC, flags) == sr / 0x10 * 0x10 + flags % 0x10
    ensures ReplaceFlags(sr, MASK_NZVCX, flags) == sr / 0x20 * 0x20 + flags % 0x20
  {
    hide And, AndNot, Or;
    Pow2Values();
    assert Pow2(5) == 0x20;
    OrOfParts(sr, flags, 4);
    OrOfParts(sr, flags, 5);
  }

  /** Setting and clearing condition codes leaves the bits above them alone. */
  lemma AboveFlags(sr: u16, m: u16)
    requires m < 0x20
    ensures Or16(sr, m) / 0x20 == sr / 0x20 && AndNot16(sr, m) / 0x20 == sr / 0x20
  {
    hide And, Or, AndNot;
    assert Pow2(5) == 0x20;
    ShiftOps(sr, m, 5);
    ShrIsDiv(sr, 5);
    ShrIsDiv(m, 5);
    ShrIsDiv(Or(sr, m), 5);
    ShrIsDiv(AndNot(sr, m), 5);
    OrZero(sr / 0x20);
    AndNotZero(sr / 0x20);
  }

  lemma AndNotZero(x: nat)
    ensures AndNot(x, 0) == x
  {
    AndZero(x);
    AndSplit(x, 0);
  }

  /** Told by the named flags. */
  lemma ReplacedFlags(sr: u16, flags: u16)
    ensures FlagsOf(ReplaceFlags(sr, MASK_NZVC, flags)) == FlagsOf(flags).(x := X(sr), s := Supervisor(sr))
    ensures FlagsOf(ReplaceFlags(sr, MASK_NZVCX, flags)) == FlagsOf(flags).(s := Supervisor(sr))
  {
    MaskFlags();
    ReplacedBits(sr, MASK_NZVC, flags);
    ReplacedBits(sr, MASK_NZVCX, flags);
    hide And, ReplaceFlags;
  }

  lemma ReplacedBits(sr: u16, mask: u16, flags: u16)
    ensures var f, g, m := FlagsOf(sr), FlagsOf(flags), FlagsOf(mask);
            FlagsOf(ReplaceFlags(sr, mask, flags)) ==
            Flags(if m.x then g.x else f.x, if m.n then g.n else f.n, if m.z then g.z else f.z,
                  if m.v then g.v else f.v, if m.c then g.c else f.c, if m.s then g.s else f.s)
  {
    hide FlagsOf, And16, Or16, AndNot16;
    AndNotFlags(sr, mask);
    AndFlags(flags, mask);
    OrFlags(AndNot16(sr, mask), And16(flags, mask));
  }

  /** Writing C or X: clear it, then or it back in when wanted. */
  lemma WrittenFlag(sr: u16, b: bool)
    ensures FlagsOf(OrIf(AndNot16(sr, SR_CARRY), SR_CARRY, b)) == FlagsOf(sr).(c := b)
    ensures FlagsOf(OrIf(AndNot16(sr, SR_EXTEND), SR_EXTEND, b)) == FlagsOf(sr).(x := b)
  {
    hide FlagsOf, And16, Or16, AndNot16, C, V, Z, N, X, Supervisor;
    MaskFlags();
    AndNotFlags(sr, SR_CARRY);
    OrFlags(AndNot16(sr, SR_CARRY), SR_CARRY);
    AndNotFlags(sr, SR_EXTEND);
    OrFlags(AndNot16(sr, SR_EXTEND), SR_EXTEND);
  }

  lemma AddedFlag(sr: u16, b: bool)
    ensures FlagsOf(OrIf(sr, SR_OVERFLOW, b)) == FlagsOf(sr).(v := FlagsOf(sr).v || b)
    ensures FlagsOf(OrIf(sr, SR_NEGATIVE, b)) == FlagsOf(sr).(n := FlagsOf(sr).n || b)
    ensures FlagsOf(OrIf(sr, SR_ZERO, b)) == FlagsOf(sr).(z := FlagsOf(sr).z || b)
  {
    hide FlagsOf, And16, Or16, AndNot16, C, V, Z, N, X, Supervisor;
    MaskFlags();
    OrFlags(sr, SR_OVERFLOW);
    OrFlags(sr, SR_NEGATIVE);
    OrFlags(sr, SR_ZERO);
  }

  lemma MaskFlags()
    ensures FlagsOf(MASK_NZVC) == Flags(false, true, true, true, true, false)
    ensures FlagsOf(MASK_NZVCX) == Flags(true, true, true, true, true, false)
    ensures FlagsOf(0) == Flags(false, false, false, false, false, false)
    ensures FlagsOf(SR_ZERO) == Flags(false, false, true, false, false, false)
    ensures FlagsOf(SR_NEGATIVE) == Flags(false, true, false, false, false, false)
    ensures FlagsOf(SR_OVERFLOW) == Flags(false, false, false, true, false, false)
    ensures FlagsOf(SR_CARRY) == Flags(false, false, false, false, true, false)
    ensures FlagsOf(SR_EXTEND) == Flags(true, false, false, false, false, false)
    ensures FlagsOf(SR_CARRY + SR_EXTEND) == Flags(true, false, false, false, true, false)
    ensures FlagsOf(SR_SUPERVISOR) == Flags(false, false, false, false, false, true)
  {
    hide And;
    FlagBits(MASK_NZVC); FlagBits(MASK_NZVCX); FlagBits(0);
    FlagBits(SR_ZERO); FlagBits(SR_NEGATIVE); FlagBits(SR_OVERFLOW); FlagBits(SR_CARRY); FlagBits(SR_EXTEND);
    FlagBits(SR_CARRY + SR_EXTEND); FlagBits(SR_SUPERVISOR);
  }

  /** sr >> 8, the system byte. */
  function High(sr: u16): nat { Shr(sr, 8) }

  /** The interrupt mask is a number from 0 to 7. */
  lemma MaskBits(sr: u16)
    ensures Mask(sr) == And(High(sr), 7) == High(sr) % 8
  {
    Pow2Values();
    ShiftOps(sr, 0x0700, 8);
    assert Shr(0x0700, 8) == 7;
    AndMask(High(sr), 3);
  }

  /** The interrupt mask is the number in bits 8 to 10. */
  lemma MaskIs(sr: u16)
    ensures Mask(sr) == sr / 0x100 % 8
  {
    MaskBits(sr);
    ShrIsDiv(sr, 8);
    Pow2Values();
    hide Mask, And;
  }

  /** Exception entry sets the supervisor bit and keeps the mask. */
  lemma ExceptionSR(sr: u16)
    ensures Supervisor(Or16(sr, SR_SUPERVISOR)) && Mask(Or16(sr, SR_SUPERVISOR)) == Mask(sr)
  {
    var r := Or16(sr, SR_SUPERVISOR);
    OrFlags(sr, SR_SUPERVISOR);
    MaskFlags();
    MaskBits(r);
    MaskBits(sr);
    ShiftOps(sr, 0x2000, 8);
    assert Shr(0x2000, 8) == 0x20;
    LowBitsOfOr(High(sr), 0x20);
  }

  /** Bit by bit: the supervisor bit is set, every other bit is kept. */
  lemma SupervisorAdded(sr: u16, k: nat)
    ensures Bit(Or16(sr, SR_SUPERVISOR), k) <==> k == 13 || Bit(sr, k)
  {
    hide And, Or, AndNot, Bit;
    Pow2Values();
    OpBits(sr, 0x2000, k);
    Pow2Bit(13, k);
  }

  /** Or-ing a multiple of 8 keeps the low three bits; or-ing onto a multiple of 8 sets them. */
  lemma LowBitsOfOr(x: nat, y: nat)
    ensures y % 8 == 0 ==> Or(x, y) % 8 == x % 8
    ensures x % 8 == 0 ==> Or(x, y) % 8 == y % 8
  {
    if y % 8 == 0 { OrHalves(x, y, 3); }
    if x % 8 == 0 { OrCommutes(x, y); OrHalves(y, x, 3); }
  }

  lemma {:induction false} OrHalves(x: nat, y: nat, k: nat)
    requires y % Pow2(k) == 0
    ensures Or(x, y) % Pow2(k) == x % Pow2(k)
    decreases k
  {
    if k > 0 {
      HalfMod(x, Pow2(k - 1));
      HalfMod(y, Pow2(k - 1));
      HalfMod(Or(x, y), Pow2(k - 1));
      OrHalves(x / 2, y / 2, k - 1);
    }
  }

  /** The SR an accepted interrupt installs. */
  function InterruptSR(sr: u16, level: nat): u16
    requires level <= 7
  {
    Or16(Or16(AndNot16(sr, SR_INTERRUPT_MASK), SR_SUPERVISOR), level * 0x100)
  }

  /** It is supervisor state masked at the accepted level. */
  lemma InterruptSRMask(sr: u16, level: nat)
    requires level <= 7
    ensures Supervisor(InterruptSR(sr, level)) && Mask(InterruptSR(sr, level)) == level
  {
    var r := InterruptSR(sr, level);
    var cleared := AndNot16(sr, SR_INTERRUPT_MASK);
    OrFlags(cleared, SR_SUPERVISOR);
    OrFlags(Or16(cleared, SR_SUPERVISOR), level * 0x100);
    MaskFlags();
    MaskBits(r);
    InterruptHigh(sr, level);
  }

  /** Bit by bit: the level in bits 8 to 10, the supervisor bit set, every other bit kept. */
  lemma InterruptBit(sr: u16, level: nat, k: nat)
    requires level <= 7
    ensures Bit(InterruptSR(sr, level), k) <==>
            k == 13 || (if 8 <= k < 11 then Bit(level, k - 8) else Bit(sr, k))
  {
    hide And, Or, AndNot, Bit;
    Pow2Values();
    OpBits(sr, 0x0700, k);
    OpBits(AndNot(sr, 0x0700), 0x2000, k);
    OpBits(Or(AndNot(sr, 0x0700), 0x2000), level * 0x100, k);
    Pow2Bit(13, k);
    ScaledBit(7, 8, k);
    ScaledBit(level, 8, k);
    if k >= 8 { LowOnes(3, k - 8); }
    if k >= 11 { NoHighBits(level, 3, k - 8); }
  }

  lemma InterruptHigh(sr: nat, level: nat)
    requires level <= 7
    ensures Shr(Or(Or(AndNot(sr, 0x0700), 0x2000), level * 0x100), 8) % 8 == level
  {
    ShiftedConstants(level);
    ShiftOps(sr, 0x0700, 8);
    ShiftOps(AndNot(sr, 0x0700), 0x2000, 8);
    ShiftOps(Or(AndNot(sr, 0x0700), 0x2000), level * 0x100, 8);
    LevelBits(Shr(sr, 8), level);
  }

  lemma LevelBits(x: nat, level: nat)
    requires level <= 7
    ensures Or(Or(AndNot(x, 7), 0x20), level) % 8 == level
  {
    hide And, AndNot, Or, Bit;
    var cleared := AndNot(x, 7);
    assert cleared % 8 == 0 by {
      AndSplit(x, 7);
      assert And(x, 7) == x % 8 by { Pow2Values(); AndMask(x, 3); }
    }
    SetLevel(cleared, level);
  }

  lemma SetLevel(cleared: nat, level: nat)
    requires cleared % 8 == 0 && level <= 7
    ensures Or(Or(cleared, 0x20), level) % 8 == level
  {
    LowBitsOfOr(cleared, 0x20);
    var supervisor := Or(cleared, 0x20);
    LowBitsOfOr(supervisor, level);
  }

  lemma ShiftedConstants(level: nat)
    ensures Shr(0x0700, 8) == 7 && Shr(0x2000, 8) == 0x20 && Shr(level * 0x100, 8) == level
  {
    Pow2Values();
    ShrIsDiv(level * 0x100, 8);
  }
}
