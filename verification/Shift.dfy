/** Shifts and rotates (op_bit_logical.go): the bit-by-bit loops and the closed-form rotates. */
module Shift {
  import opened Words
  import opened Bits
  import opened Status

  datatype ShiftFlags = ShiftFlags(carryOut: nat, changeCarry: bool, extendOut: bool, changeExtend: bool,
                                   overflow: bool)

  // ---- Arithmetic of powers of two ----

  lemma Doubled(x: int, m: nat)
    requires m > 0
    ensures (2 * (x % m)) % m == (2 * x) % m
  {
    var q, r := x / m, x % m;
    var q2, r2 := 2 * r / m, 2 * r % m;
    assert 2 * x == m * (2 * q + q2) + r2 by { assert x == m * q + r; assert 2 * r == m * q2 + r2; }
    ModUnique(2 * x, m, 2 * q + q2, r2);
  }

  lemma HalvedFloor(x: int, p: nat)
    requires p > 0
    ensures x / p / 2 == x / (2 * p)
  {
    var q, r := x / p, x % p;
    var q2, b := q / 2, q % 2;
    assert x == (2 * p) * q2 + (p * b + r) by { assert x == p * q + r; assert q == 2 * q2 + b; }
    assert 0 <= p * b + r < 2 * p;
    ModUnique(x, 2 * p, q2, p * b + r);
  }

  /** The top bit of the low part. */
  lemma TopOfLow(x: int, h: nat)
    requires h > 0
    ensures (x % (2 * h)) / h == (x / h) % 2
  {
    var q, r := x / h, x % h;
    assert x == h * q + r;
    TopOfLowParts(x, h, q / 2, q % 2, r);
  }

  lemma TopOfLowParts(x: int, h: nat, q: int, b: int, r: nat)
    requires r < h && 0 <= b <= 1 && x == h * (2 * q + b) + r
    ensures (x % (2 * h)) / h == b && x / h == 2 * q + b
  {
    assert x == (2 * h) * q + (h * b + r);
    ModUnique(x, 2 * h, q, h * b + r);
    ModUnique(h * b + r, h, b, r);
    ModUnique(x, h, 2 * q + b, r);
  }

  lemma Reduced(x: int, m: int)
    requires m > 0 && -m <= x < 2 * m
    ensures x % m == if x < 0 then x + m else if x < m then x else x - m
  {
    ModUnique(x, m, if x < 0 then -1 else if x < m then 0 else 1, if x < 0 then x + m else if x < m then x else x - m);
  }

  // ---- The operations of one loop iteration ----

  /** x & uint32((1 << width) - 1) */
  function Masked(x: int, width: nat): (r: nat)
    ensures r < Pow2(width)
  {
    x % Pow2(width)
  }

  /** (x >> k) & 1 */
  function BitAt(x: int, k: nat): (b: nat)
    ensures b <= 1
  {
    x / Pow2(k) % 2
  }

  /** x * 2^count */
  function Scaled(x: int, count: nat): int {
    x * Pow2(count)
  }

  /** floor(x / 2^count) */
  function Floored(x: int, count: nat): int {
    x / Pow2(count)
  }

  /** Two's complement reading of the low bits. */
  function SignedAt(x: int, width: nat): int
    requires width > 0
  {
    if Masked(x, width) >= Pow2(width - 1) then Masked(x, width) - Pow2(width) else Masked(x, width)
  }

  predicate FitsAt(x: int, width: nat)
    requires width > 0
  {
    -(Pow2(width - 1) as int) <= x < Pow2(width - 1)
  }

  /** Shifting left by one commutes with masking. */
  lemma LeftStep(x: int, width: nat)
    requires width > 0
    ensures Masked(2 * Masked(x, width), width) == Masked(2 * x, width)
    ensures BitAt(Masked(x, width), width - 1) == BitAt(x, width - 1)
  {
    Doubled(x, Pow2(width));
    TopOfLow(x, Pow2(width - 1));
    var top := Masked(x, width) / Pow2(width - 1);
    assert 0 <= top < 2;
  }

  lemma ScaledStep(x: int, i: nat)
    ensures Scaled(x, 0) == x && Scaled(x, i + 1) == 2 * Scaled(x, i)
  {
  }

  lemma FlooredStep(x: int, i: nat)
    ensures Floored(x, 0) == x && Floored(x, i + 1) == Floored(x, i) / 2
  {
    HalvedFloor(x, Pow2(i));
  }

  /** A masked number fits a uint32. */
  lemma MaskedFits(width: nat)
    requires 1 <= width <= 32
    ensures Pow2(width) == 2 * Pow2(width - 1) && Pow2(width) <= 0x1_0000_0000
  {
    Pow2Values();
    Pow2Monotone(width, 32);
  }

  lemma {:induction false} Pow2Monotone(a: nat, b: nat)
    requires a <= b
    ensures Pow2(a) <= Pow2(b)
    decreases b
  {
    if a < b { Pow2Monotone(a, b - 1); }
  }

  lemma MaskedTwice(x: int, width: nat)
    ensures Masked(Masked(x, width), width) == Masked(x, width)
  {
    Reduced(Masked(x, width), Pow2(width));
  }

  // ---- The loops ----

  /** Logical left shift: multiplication; the carry is the last bit that left the top. */
  method Lsl(valueIn: u32, count: nat, width: nat) returns (value: u32, flags: ShiftFlags)
    requires 1 <= width <= 32
    ensures value == Masked(Scaled(Masked(valueIn, width), count), width)
    ensures flags.carryOut == if count == 0 then 0 else BitAt(Scaled(Masked(valueIn, width), count - 1), width - 1)
    ensures flags == ShiftFlags(flags.carryOut, true, flags.carryOut != 0, true, false)
  {
    MaskedFits(width);
    MaskedTwice(valueIn, width);
    hide Scaled, BitAt, Pow2, Masked;
    ghost var v := Masked(valueIn, width);
    value := Masked(valueIn, width);
    ScaledStep(v, 0);
    var carry := 0;
    for i := 0 to count
      invariant value == Masked(Scaled(v, i), width)
      invariant carry == if i == 0 then 0 else BitAt(Scaled(v, i - 1), width - 1)
    {
      ScaledStep(v, i);
      LeftStep(Scaled(v, i), width);
      carry := BitAt(value, width - 1);
      value := Masked(value * 2, width);
    }
    flags := ShiftFlags(carry, true, carry != 0, true, false);
  }

  /** Doubling a two's complement number: it leaves the range exactly when the top bit changes. */
  lemma SignChange(t: int, width: nat)
    requires width > 0 && FitsAt(t, width)
    ensures SignedAt(t, width) == t
    ensures (BitAt(t, width - 1) == BitAt(2 * t, width - 1)) <==> FitsAt(2 * t, width)
  {
    var h := Pow2(width - 1);
    Reduced(t, 2 * h);
    Reduced(2 * t, 2 * h);
    SignBitAt(t, width);
    SignBitAt(2 * t, width);
    hide BitAt;
  }

  lemma SignBitAt(x: int, width: nat)
    requires width > 0
    ensures BitAt(x, width - 1) == 1 <==> Masked(x, width) >= Pow2(width - 1)
  {
    LeftStep(x, width);
    var h, r := Pow2(width - 1), Masked(x, width);
    ModUnique(r, h, if r < h then 0 else 1, if r < h then r else r - h);
  }

  /** Out of range stays out of range. */
  lemma StaysOut(t: int, width: nat)
    requires width > 0
    ensures !FitsAt(t, width) ==> !FitsAt(2 * t, width)
  {
  }

  /** Arithmetic left shift: V is set exactly when the signed product does not fit the width. */
  method Asl(valueIn: u32, count: nat, width: nat) returns (value: u32, flags: ShiftFlags)
    requires 1 <= width <= 32
    ensures value == Masked(Scaled(SignedAt(valueIn, width), count), width)
    ensures flags.carryOut == if count == 0 then 0 else BitAt(Scaled(SignedAt(valueIn, width), count - 1), width - 1)
    ensures flags.overflow <==> !FitsAt(Scaled(SignedAt(valueIn, width), count), width)
    ensures flags == ShiftFlags(flags.carryOut, true, flags.carryOut != 0, true, flags.overflow)
  {
    MaskedFits(width);
    ghost var t := SignedAt(valueIn, width);
    SignedRange(valueIn, width);
    hide Scaled, BitAt, Pow2, Masked, SignedAt, FitsAt;
    value := Masked(valueIn, width);
    ScaledStep(t, 0);
    var carry := 0;
    var overflow := false;
    for i := 0 to count
      invariant value == Masked(Scaled(t, i), width)
      invariant carry == if i == 0 then 0 else BitAt(Scaled(t, i - 1), width - 1)
      invariant overflow <==> !FitsAt(Scaled(t, i), width)
    {
      ScaledStep(t, i);
      LeftStep(Scaled(t, i), width);
      LeftStep(2 * Scaled(t, i), width);
      carry := BitAt(value, width - 1);
      value := Masked(value * 2, width);
      var newMsb := BitAt(value, width - 1);
      StaysOut(Scaled(t, i), width);
      if !overflow { SignChange(Scaled(t, i), width); }
      if carry != newMsb {
        overflow := true;
      }
    }
    flags := ShiftFlags(carry, true, carry != 0, true, overflow);
  }

  lemma SignedRange(x: int, width: nat)
    requires width > 0
    ensures FitsAt(SignedAt(x, width), width) && Masked(SignedAt(x, width), width) == Masked(x, width)
  {
    var m: int, r: int := Pow2(width), Masked(x, width);
    Reduced(r, m);
    Reduced(r - m, m);
  }

  /** Logical right shift: division; the carry is the last bit that left the bottom. */
  method Lsr(valueIn: u32, count: nat, width: nat) returns (value: u32, flags: ShiftFlags)
    requires 1 <= width <= 32
    ensures value == Floored(Masked(valueIn, width), count)
    ensures flags.carryOut == if count == 0 then 0 else Floored(Masked(valueIn, width), count - 1) % 2
    ensures flags == ShiftFlags(flags.carryOut, true, flags.carryOut != 0, true, false)
  {
    MaskedFits(width);
    hide Floored, Pow2, Masked;
    ghost var v := Masked(valueIn, width);
    value := Masked(valueIn, width);
    FlooredStep(v, 0);
    var carry := 0;
    for i := 0 to count
      invariant value == Floored(v, i)
      invariant carry == if i == 0 then 0 else Floored(v, i - 1) % 2
    {
      FlooredStep(v, i);
      carry := value % 2;
      value := value / 2;
    }
    flags := ShiftFlags(carry, true, carry != 0, true, false);
  }

  /** One arithmetic right step on the bit pattern: shift, then or the sign back in. */
  function AsrStep(value: u32, negative: bool, width: nat): nat
    requires 1 <= width <= 32
  {
    if negative then Or(value / 2, Pow2(width - 1)) else value / 2
  }

  /** It is floor division by two of the number the pattern stands for. */
  lemma AsrStepFloors(t: int, width: nat)
    requires 1 <= width <= 32 && FitsAt(t, width)
    ensures Masked(t, width) < 0x1_0000_0000
    ensures AsrStep(Masked(t, width), t < 0, width) == Masked(t / 2, width)
    ensures Masked(t, width) % 2 == t % 2 && FitsAt(t / 2, width) && (t / 2 < 0 <==> t < 0)
  {
    MaskedFits(width);
    var h := Pow2(width - 1);
    Reduced(t, 2 * h);
    Reduced(t / 2, 2 * h);
    if t < 0 {
      assert Masked(t, width) == t + 2 * h && (t + 2 * h) / 2 == t / 2 + h;
      var low := t / 2 + h;
      OrCommutes(low, h);
      assert 1 * h == h;
      OrIsSum(1, low, width - 1);
    }
  }

  /** Arithmetic right shift: floor division of the signed value. */
  method Asr(valueIn: u32, count: nat, width: nat) returns (value: u32, flags: ShiftFlags)
    requires 1 <= width <= 32
    ensures value == Masked(Floored(SignedAt(valueIn, width), count), width)
    ensures flags.carryOut == if count == 0 then 0 else Floored(SignedAt(valueIn, width), count - 1) % 2
    ensures flags == ShiftFlags(flags.carryOut, true, flags.carryOut != 0, true, false)
  {
    MaskedFits(width);
    ghost var t := SignedAt(valueIn, width);
    SignedRange(valueIn, width);
    SignBitAt(valueIn, width);
    MaskedTwice(valueIn, width);
    LeftStep(valueIn, width);
    var negative := BitAt(Masked(valueIn, width), width - 1) == 1;
    assert negative <==> t < 0;
    hide Floored, Pow2, Masked, BitAt, AsrStep, SignedAt, FitsAt;
    value := Masked(valueIn, width);
    FlooredStep(t, 0);
    var carry := 0;
    for i := 0 to count
      invariant value == Masked(Floored(t, i), width)
      invariant FitsAt(Floored(t, i), width) && (Floored(t, i) < 0 <==> negative)
      invariant carry == if i == 0 then 0 else Floored(t, i - 1) % 2
    {
      FlooredStep(t, i);
      AsrStepFloors(Floored(t, i), width);
      carry := value % 2;
      value := AsrStep(value, negative, width);
    }
    flags := ShiftFlags(carry, true, carry != 0, true, false);
  }

  // ---- Rotation of an n-bit ring ----

  function RotL(u: nat, n: nat): nat
    requires n > 0
  {
    Masked(2 * u, n) + u / Pow2(n - 1)
  }

  function RotR(u: nat, n: nat): nat
    requires n > 0
  {
    u / 2 + u % 2 * Pow2(n - 1)
  }

  /** One-bit rotations stay on the ring and undo each other. */
  lemma RotStep(u: nat, n: nat)
    requires n > 0 && u < Pow2(n)
    ensures RotL(u, n) < Pow2(n) && RotR(u, n) < Pow2(n)
    ensures RotR(RotL(u, n), n) == u && RotL(RotR(u, n), n) == u
  {
    assert Pow2(n) == 2 * Pow2(n - 1);
    hide RotL, RotR, Pow2, Masked;
    var h: nat := Pow2(n - 1);
    RotLSplit(u, n);
    RotRSplit(u, n);
    var l, r := RotL(u, n), RotR(u, n);
    RotRSplit(l, n);
    assert l / 2 == (if u < h then u else u - h) && l % 2 == (if u < h then 0 else 1);
    assert r == (if u % 2 == 1 then u / 2 + h else u / 2) && u / 2 < h;
    RotLSplit(r, n);
  }

  lemma RotRSplit(u: nat, n: nat)
    requires n > 0
    ensures RotR(u, n) == u / 2 + if u % 2 == 1 then Pow2(n - 1) else 0
  {
  }

  lemma RotLSplit(u: nat, n: nat)
    requires n > 0 && u < Pow2(n)
    ensures RotL(u, n) == if u < Pow2(n - 1) then 2 * u else 2 * u - Pow2(n) + 1
  {
    var h := Pow2(n - 1);
    var top := if u < h then 0 else 1;
    ModUnique(u, h, top, u - h * top);
    ModUnique(2 * u, 2 * h, top, 2 * u - 2 * h * top);
  }

  function RotLs(u: nat, n: nat, k: nat): nat
    requires n > 0
  {
    if k == 0 then u else RotL(RotLs(u, n, k - 1), n)
  }

  function RotRs(u: nat, n: nat, k: nat): nat
    requires n > 0
  {
    if k == 0 then u else RotR(RotRs(u, n, k - 1), n)
  }

  lemma {:induction false} OnRing(u: nat, n: nat, k: nat)
    requires n > 0 && u < Pow2(n)
    ensures RotLs(u, n, k) < Pow2(n) && RotRs(u, n, k) < Pow2(n)
  {
    if k > 0 {
      OnRing(u, n, k - 1);
      RotStep(RotLs(u, n, k - 1), n);
      RotStep(RotRs(u, n, k - 1), n);
    }
  }

  lemma {:induction false} RotInner(u: nat, n: nat, k: nat)
    requires n > 0
    ensures RotLs(RotL(u, n), n, k) == RotLs(u, n, k + 1)
    ensures RotRs(RotR(u, n), n, k) == RotRs(u, n, k + 1)
  {
    if k > 0 { RotInner(u, n, k - 1); }
  }

  /** Rotating back undoes rotating, for any count and ring. */
  lemma {:induction false} RotationsUndo(u: nat, n: nat, k: nat)
    requires n > 0 && u < Pow2(n)
    ensures RotRs(RotLs(u, n, k), n, k) == u && RotLs(RotRs(u, n, k), n, k) == u
  {
    if k > 0 {
      hide RotL, RotR, Pow2;
      var left, right := RotLs(u, n, k - 1), RotRs(u, n, k - 1);
      assert RotLs(u, n, k) == RotL(left, n) && RotRs(u, n, k) == RotR(right, n);
      hide RotLs, RotRs;
      OnRing(u, n, k - 1);
      RotStep(left, n);
      RotStep(right, n);
      RotInner(RotL(left, n), n, k - 1);
      RotInner(RotR(right, n), n, k - 1);
      RotationsUndo(u, n, k - 1);
    }
  }

  lemma {:induction false} Pow2Add(a: nat, b: nat)
    ensures Pow2(a + b) == Pow2(a) * Pow2(b)
    decreases a
  {
    if a > 0 { Pow2Add(a - 1, b); }
  }

  /** The closed form: rotating left by k swaps the high k bits with the low n - k bits. */
  lemma {:induction false} RotLsSwaps(high: nat, low: nat, n: nat, k: nat)
    requires 0 < n && k <= n && high < Pow2(k) && low < Pow2(n - k)
    ensures Scaled(high, n - k) + low < Pow2(n)
    ensures RotLs(Scaled(high, n - k) + low, n, k) == Scaled(low, k) + high
    decreases k
  {
    hide RotL, RotLs, Pow2, Scaled;
    JoinBound(high, low, n, k);
    UnfoldRotLs(Scaled(high, n - k) + low, n, k);
    UnfoldPow2(k);
    if k == 0 {
      ScaledStep(low, 0);
      ScaledUnits(n);
    } else {
      var h, b, a := high / 2, high % 2, n - k;
      UnfoldPow2(1);
      SwapParts(h, b, low, a, k);
      JoinBound(b, low, a + 1, 1);
      RotLsSwaps(h, Scaled(b, a) + low, n, k - 1);
      SwapStep(h, b, low, n, k);
      assert Scaled(high, a) + low == Scaled(h, n - (k - 1)) + (Scaled(b, a) + low);
    }
  }

  lemma UnfoldRotLs(u: nat, n: nat, k: nat)
    requires n > 0
    ensures RotLs(u, n, k) == if k == 0 then u else RotL(RotLs(u, n, k - 1), n)
  {
  }

  lemma UnfoldPow2(k: nat)
    ensures Pow2(0) == 1 && (k > 0 ==> Pow2(k) == 2 * Pow2(k - 1))
  {
  }

  lemma SwapStep(h: nat, b: nat, low: nat, n: nat, k: nat)
    requires 1 <= k <= n && b <= 1 && h < Pow2(k - 1) && low < Pow2(n - k)
    ensures 0 <= Scaled(b, n - k) && 0 <= Scaled(Scaled(b, n - k) + low, k - 1)
    ensures RotL(Scaled(Scaled(b, n - k) + low, k - 1) + h, n) == Scaled(low, k) + 2 * h + b
  {
    hide RotL, Scaled;
    assert Pow2(n) == 2 * Pow2(n - 1) && Pow2(1) == 2;
    hide Pow2;
    SwapParts(h, b, low, n - k, k);
    JoinBound(b, low, n - k + 1, 1);
    JoinBound(low, h, n - 1, n - k);
    assert n - k + k - 1 == n - 1;
    var u := Scaled(Scaled(b, n - k) + low, k - 1) + h;
    assert u == (if b == 0 then 0 else Pow2(n - 1)) + (Scaled(low, k - 1) + h);
    RotLSplit(u, n);
  }

  /** The bit that moves from the high part to the low part in one step. */
  lemma SwapParts(h: nat, b: nat, low: nat, a: nat, k: nat)
    requires b <= 1 && k >= 1
    ensures Scaled(2 * h + b, a) == Scaled(h, a + 1) + Scaled(b, a)
    ensures Scaled(Scaled(b, a) + low, k - 1) == (if b == 0 then 0 else Pow2(a + k - 1)) + Scaled(low, k - 1)
    ensures Scaled(low, k) == 2 * Scaled(low, k - 1)
  {
    ScaledStep(h, a);
    ScaledSum(2 * h, b, a);
    ScaledSum(h, h, a);
    ScaledUnits(a + k - 1);
    ScaledSum(Scaled(b, a), low, k - 1);
    ScaledTwice(b, a, k - 1);
    ScaledStep(low, k - 1);
    hide Scaled, Pow2;
  }

  lemma JoinBound(high: nat, low: nat, n: nat, k: nat)
    requires k <= n && high < Pow2(k) && low < Pow2(n - k)
    ensures 0 <= Scaled(high, n - k) && Scaled(high, n - k) + low < Pow2(n)
  {
    Pow2Add(k, n - k);
    hide Pow2;
    ProductBound(high, low, Pow2(k), Pow2(n - k));
  }

  lemma ProductBound(high: nat, low: nat, k: nat, p: nat)
    requires high < k && low < p
    ensures 0 <= high * p && high * p + low < k * p
  {
    assert (k - high - 1) * p >= 0;
    assert (k - high - 1) * p == k * p - high * p - p;
  }

  lemma QuotientBound(u: nat, k: nat, p: nat)
    requires p > 0 && u < k * p
    ensures 0 <= u / p < k
  {
    assert u == p * (u / p) + u % p;
    ProductMonotone(p, k, u / p);
  }

  lemma ProductMonotone(p: int, k: int, q: int)
    requires p >= 0
    ensures q >= k ==> p * q >= k * p
    ensures q <= -1 ==> p * q <= -p
  {
    if q >= k { assert p * (q - k) >= 0; }
    if q <= -1 { assert p * (-1 - q) >= 0; }
  }

  lemma ScaledUnits(k: nat)
    ensures Scaled(0, k) == 0 && Scaled(1, k) == Pow2(k)
  {
  }

  lemma ScaledSum(a: int, b: int, k: nat)
    ensures Scaled(a + b, k) == Scaled(a, k) + Scaled(b, k)
  {
  }

  lemma ScaledTwice(a: int, i: nat, j: nat)
    ensures Scaled(Scaled(a, i), j) == Scaled(a, i + j)
  {
    Pow2Add(i, j);
    assert a * Pow2(i) * Pow2(j) == a * (Pow2(i) * Pow2(j));
  }

  /** Every number splits at any bit. */
  lemma SplitAt(u: nat, n: nat, k: nat)
    requires k <= n && u < Pow2(n)
    ensures Floored(u, n - k) < Pow2(k) && Floored(u, n - k) >= 0
    ensures u == Scaled(Floored(u, n - k), n - k) + Masked(u, n - k)
  {
    hide Floored, Masked, Scaled, Pow2;
    FlooredBound(u, n, k);
    DivisionAt(u, n - k);
    ScaledIs(Floored(u, n - k), n - k);
  }

  lemma FlooredBound(u: nat, n: nat, k: nat)
    requires k <= n && u < Pow2(n)
    ensures 0 <= Floored(u, n - k) < Pow2(k)
  {
    hide Pow2;
    Pow2Add(k, n - k);
    QuotientBound(u, Pow2(k), Pow2(n - k));
  }

  lemma ScaledIs(x: int, k: nat)
    ensures Scaled(x, k) == Pow2(k) * x
  {
  }

  lemma RotLsClosed(u: nat, n: nat, k: nat)
    requires 0 < n && k <= n && u < Pow2(n)
    ensures Floored(u, n - k) >= 0
    ensures RotLs(u, n, k) == Scaled(Masked(u, n - k), k) + Floored(u, n - k)
  {
    SplitAt(u, n, k);
    RotLsSwaps(Floored(u, n - k), Masked(u, n - k), n, k);
  }

  lemma {:induction false} RotLsSum(u: nat, n: nat, i: nat, j: nat)
    requires n > 0
    ensures RotLs(RotLs(u, n, i), n, j) == RotLs(u, n, i + j)
    decreases j
  {
    if j > 0 { RotLsSum(u, n, i, j - 1); }
  }

  /** A full turn is the identity, so counts matter only modulo the width of the ring. */
  lemma FullTurn(u: nat, n: nat)
    requires n > 0 && u < Pow2(n)
    ensures RotLs(u, n, n) == u
  {
    RotLsClosed(u, n, n);
    ScaledStep(Masked(u, 0), n);
    FlooredStep(u, 0);
    assert Masked(u, 0) == 0;
  }

  lemma TurnsRemoved(k: nat, n: nat)
    requires n > 0
    ensures k % n == if k >= n then (k - n) % n else k
  {
    if k >= n {
      var q, r := (k - n) / n, (k - n) % n;
      assert k == n * (q + 1) + r by { assert k - n == n * q + r; }
      ModUnique(k, n, q + 1, r);
    } else {
      ModUnique(k, n, 0, k);
    }
  }

  lemma {:induction false} LeftPeriod(u: nat, n: nat, k: nat)
    requires n > 0 && u < Pow2(n)
    ensures RotLs(u, n, k) == RotLs(u, n, k % n)
    decreases k
  {
    if k >= n {
      hide RotLs, Pow2;
      RotLsSum(u, n, n, k - n);
      FullTurn(u, n);
      LeftPeriod(u, n, k - n);
      TurnsRemoved(k, n);
    } else {
      TurnsRemoved(k, n);
    }
  }

  /** Rotating right by k is rotating left by n - k, for counts up to a full turn. */
  lemma RightIsLeft(u: nat, n: nat, k: nat)
    requires n > 0 && u < Pow2(n) && k <= n
    ensures RotRs(u, n, k) == RotLs(u, n, n - k)
  {
    var x := RotLs(u, n, n - k);
    OnRing(u, n, n - k);
    RotLsSum(u, n, n - k, k);
    FullTurn(u, n);
    RotationsUndo(x, n, k);
  }

  lemma {:induction false} RotRsSum(u: nat, n: nat, i: nat, j: nat)
    requires n > 0
    ensures RotRs(RotRs(u, n, i), n, j) == RotRs(u, n, i + j)
    decreases j
  {
    if j > 0 { RotRsSum(u, n, i, j - 1); }
  }

  lemma {:induction false} RightPeriod(u: nat, n: nat, k: nat)
    requires n > 0 && u < Pow2(n)
    ensures RotRs(u, n, k) == RotRs(u, n, k % n)
    decreases k
  {
    if k >= n {
      assert RotLs(u, n, 0) == u;
      hide RotRs, RotLs, Pow2;
      RotRsSum(u, n, n, k - n);
      RightIsLeft(u, n, n);
      RightPeriod(u, n, k - n);
      TurnsRemoved(k, n);
    } else {
      TurnsRemoved(k, n);
    }
  }

  // ---- Closed-form rotates ----

  /** rol: ((value << shift) | (value >> (width - shift))) & mask, carry from the old value. */
  function Rol(valueIn: u32, count: nat, width: nat): (nat, ShiftFlags)
    requires 1 <= width <= 32
  {
    var value := Masked(valueIn, width);
    var shift := count % width;
    if shift == 0 then (value, ShiftFlags(value % 2, true, false, false, false))
    else
      var carry := BitAt(value, width - shift);
      (Masked(Or(LeftWord(value, shift), RightWord(value, width - shift)), width),
       ShiftFlags(carry, true, false, false, false))
  }

  function Ror(valueIn: u32, count: nat, width: nat): (nat, ShiftFlags)
    requires 1 <= width <= 32
  {
    var value := Masked(valueIn, width);
    var shift := count % width;
    if shift == 0 then (value, ShiftFlags(BitAt(value, width - 1), true, false, false, false))
    else
      var carry := BitAt(value, shift - 1);
      (Masked(Or(RightWord(value, shift), LeftWord(value, width - shift)), width),
       ShiftFlags(carry, true, false, false, false))
  }

  /** value << k on uint32 */
  function LeftWord(value: nat, k: nat): nat { Masked(Scaled(value, k), 32) }

  /** value >> k */
  function RightWord(value: nat, k: nat): nat { Shr(value, k) }

  /** The disjoint halves or-ed together and masked. */
  lemma SwapByOr(v: nat, width: nat, k: nat)
    requires 1 <= width <= 32 && k <= width && v < Pow2(width)
    ensures Masked(Or(LeftWord(v, k), RightWord(v, width - k)), width) == RotLs(v, width, k)
  {
    hide Or, RotLs, Pow2, Scaled, Masked, Floored, LeftWord, RightWord;
    var high, low := Floored(v, width - k), Masked(v, width - k);
    SplitAt(v, width, k);
    RightWordIs(v, width - k);
    RotLsClosed(v, width, k);
    LeftWordSplits(v, k);
    ScaledOr(Masked(v, 32 - k), high, k);
    JoinBound(low, high, width, width - k);
    SameLow(v, high, low, width, k);
  }

  lemma RightWordIs(v: nat, k: nat)
    ensures RightWord(v, k) == Floored(v, k)
  {
    ShrIsDiv(v, k);
  }

  lemma ScaledOr(high: nat, low: nat, k: nat)
    requires low < Pow2(k)
    ensures 0 <= Scaled(high, k) && Or(Scaled(high, k), low) == Scaled(high, k) + low
  {
    OrIsSum(high, low, k);
    hide Or, Pow2;
  }

  /** Shifting a word left loses the bits above 32 - k. */
  lemma LeftWordSplits(v: nat, k: nat)
    requires k <= 32
    ensures LeftWord(v, k) == Scaled(Masked(v, 32 - k), k)
  {
    Pow2Add(32 - k, k);
    DivisionAt(v, 32 - k);
    MaskedFits(32);
    hide Pow2, Masked, Floored;
    var p, r, q := Pow2(k), Masked(v, 32 - k), Floored(v, 32 - k);
    Expand(Pow2(32 - k), q, r, p);
    ProductBound(r, 0, Pow2(32 - k), p);
    MaskedUnique(v * p, 32, q, r * p);
  }

  lemma DivisionAt(v: int, k: nat)
    ensures v == Pow2(k) * Floored(v, k) + Masked(v, k)
  {
  }

  lemma Expand(a: int, q: int, r: int, p: int)
    ensures (a * q + r) * p == (a * p) * q + r * p
  {
    assert (a * q) * p == (a * p) * q;
  }

  lemma Collect(m: int, s: int, t: int, high: int)
    ensures m * (high - s * t) == m * high - (m * s) * t
  {
    assert m * (s * t) == (m * s) * t;
  }

  lemma SameLow(v: nat, high: nat, low: nat, width: nat, k: nat)
    requires 1 <= width <= 32 && k <= width && v == Scaled(high, width - k) + low
    requires 0 <= Scaled(low, k) && Scaled(low, k) + high < Pow2(width)
    ensures Masked(Scaled(Masked(v, 32 - k), k) + high, width) == Scaled(low, k) + high
  {
    DivisionAt(v, 32 - k);
    hide Pow2, Masked, Scaled, Floored;
    SameLowParts(high, low, width, k, Floored(v, 32 - k), Masked(v, 32 - k));
  }

  lemma SameLowParts(high: nat, low: nat, width: nat, k: nat, t: int, r: int)
    requires 1 <= width <= 32 && k <= width && Scaled(high, width - k) + low == Pow2(32 - k) * t + r
    requires 0 <= Scaled(low, k) && Scaled(low, k) + high < Pow2(width)
    ensures Masked(Scaled(r, k) + high, width) == Scaled(low, k) + high
  {
    hide Pow2, Masked;
    Pow2Add(32 - k, k);
    Pow2Add(width, 32 - width);
    Pow2Add(width - k, k);
    var m, s, p := Pow2(width), Pow2(32 - width), Pow2(k);
    assert Scaled(high, width - k) == Pow2(width - k) * high;
    Expand(Pow2(width - k), high, low, p);
    Expand(Pow2(32 - k), t, r, p);
    Collect(m, s, t, high);
    MaskedUnique(Scaled(r, k) + high, width, high - s * t, Scaled(low, k) + high);
  }

  lemma MaskedUnique(x: int, width: nat, q: int, r: nat)
    requires r < Pow2(width) && x == Pow2(width) * q + r
    ensures Masked(x, width) == r
  {
    ModUnique(x, Pow2(width), q, r);
  }

  /** The closed form of ROL is the count-fold one-bit rotation; carry is the result's lowest bit. */
  lemma RolRotates(valueIn: u32, count: nat, width: nat)
    requires 1 <= width <= 32
    ensures var (r, flags) := Rol(valueIn, count, width);
            r == RotLs(Masked(valueIn, width), width, count) && r < Pow2(width) &&
            flags == ShiftFlags(r % 2, true, false, false, false)
  {
    var v, k := Masked(valueIn, width), count % width;
    LeftPeriod(v, width, count);
    OnRing(v, width, count);
    if k > 0 { RolAt(v, width, k); }
  }

  lemma RolAt(v: nat, width: nat, k: nat)
    requires 1 <= width <= 32 && 0 < k < width && v < Pow2(width)
    ensures Masked(Or(LeftWord(v, k), RightWord(v, width - k)), width) == RotLs(v, width, k)
    ensures RotLs(v, width, k) % 2 == BitAt(v, width - k)
  {
    hide Scaled, RotLs, Masked, Or, Pow2, LeftWord, RightWord;
    SwapByOr(v, width, k);
    RotLsClosed(v, width, k);
    ScaledStep(Masked(v, width - k), k - 1);
  }

  /** Likewise ROR; carry is the result's highest bit. */
  lemma RorRotates(valueIn: u32, count: nat, width: nat)
    requires 1 <= width <= 32
    ensures var (r, flags) := Ror(valueIn, count, width);
            r == RotRs(Masked(valueIn, width), width, count) && r < Pow2(width) &&
            flags == ShiftFlags(BitAt(r, width - 1), true, false, false, false)
  {
    hide Masked, BitAt, RotRs, LeftWord, RightWord, Or, Pow2;
    var v, k := Masked(valueIn, width), count % width;
    MaskedFits(width);
    RightPeriod(v, width, count);
    OnRing(v, width, count);
    if k > 0 { RorAt(v, width, k); } else { NoTurn(v, width); }
  }

  lemma NoTurn(v: nat, width: nat)
    requires width > 0
    ensures RotRs(v, width, 0) == v && RotLs(v, width, 0) == v
  {
  }

  lemma RorAt(v: nat, width: nat, k: nat)
    requires 1 <= width <= 32 && 0 < k < width && v < Pow2(width)
    ensures Masked(Or(RightWord(v, k), LeftWord(v, width - k)), width) == RotRs(v, width, k)
    ensures BitAt(RotRs(v, width, k), width - 1) == BitAt(v, k - 1)
  {
    hide Scaled, RotLs, RotRs, Masked, Or, Pow2, LeftWord, RightWord, BitAt, Floored;
    SwapByOr(v, width, width - k);
    OrCommutes(RightWord(v, k), LeftWord(v, width - k));
    RightIsLeft(v, width, k);
    RotLsClosed(v, width, width - k);
    TopOfSwap(v, width, k);
  }

  /** The highest bit after the swap is bit k - 1 of the value. */
  lemma TopOfSwap(v: nat, width: nat, k: nat)
    requires 0 < k < width && v < Pow2(width)
    ensures BitAt(Scaled(Masked(v, k), width - k) + Floored(v, k), width - 1) == BitAt(v, k - 1)
  {
    hide Pow2, Masked, Floored, Scaled, BitAt;
    SplitAt(v, width, width - k);
    LeftStep(v, k);
    LowGoesUp(Masked(v, k), Floored(v, k), width, k);
  }

  lemma LowGoesUp(low: nat, high: nat, width: nat, k: nat)
    requires 0 < k < width && low < Pow2(k) && high < Pow2(width - k)
    ensures BitAt(Scaled(low, width - k) + high, width - 1) == BitAt(low, k - 1)
  {
    UnfoldPow2(k);
    Pow2Add(k - 1, width - k);
    hide Pow2;
    TopOfPair(low, high, Pow2(k - 1), Pow2(width - k));
  }

  /** Shifting low past high, the highest bit of low becomes the highest bit of the pair. */
  lemma TopOfPair(low: nat, high: nat, h: nat, p: nat)
    requires h > 0 && p > 0 && low < 2 * h && high < p
    ensures h * p > 0 && (low * p + high) / (h * p) == low / h
  {
    var top, rest := low / h, low % h;
    ProductBound(rest, high, h, p);
    Expand(h, top, rest, p);
    assert low == h * top + rest;
    ModUnique(low * p + high, h * p, top, rest * p + high);
  }

  // ---- Rotation through X ----

  /** The (width + 1)-bit word made of X and the value. */
  function Ring(x: bool, value: nat, width: nat): nat {
    Weight(x, width) + value
  }

  lemma RingBound(x: bool, value: nat, width: nat)
    requires value < Pow2(width)
    ensures Ring(x, value, width) < Pow2(width + 1)
  {
  }

  /** (1 << k) if b, else 0 */
  function Weight(b: bool, k: nat): nat {
    if b then Pow2(k) else 0
  }

  /** ((value << 1) | carry) & mask: the top bit is lost and the carry comes in below. */
  lemma ShiftedIn(value: nat, carry: nat, top: bool, width: nat)
    requires 1 <= width <= 32 && carry <= 1
    requires 0 <= value - Weight(top, width - 1) < Pow2(width - 1)
    ensures Masked(Or(LeftWord(value, 1), carry), width) == 2 * value - Weight(top, width) + carry
  {
    hide Or, LeftWord, Pow2, Masked, Floored, Scaled, Weight;
    LeftByOne(value, carry);
    DivisionAt(value, 31);
    ShiftedInParts(value, carry, top, width, Floored(value, 31), Masked(value, 31));
  }

  lemma LeftByOne(value: nat, carry: nat)
    requires carry <= 1
    ensures Or(LeftWord(value, 1), carry) == 2 * Masked(value, 31) + carry
  {
    hide Or, LeftWord, Masked;
    LeftWordSplits(value, 1);
    OrIsSum(Masked(value, 31), carry, 1);
    UnfoldPow2(1);
  }

  lemma ShiftedInParts(value: nat, carry: nat, top: bool, width: nat, t: int, r: nat)
    requires 1 <= width <= 32 && carry <= 1 && value == Pow2(31) * t + r
    requires 0 <= value - Weight(top, width - 1) < Pow2(width - 1)
    ensures Masked(2 * r + carry, width) == 2 * value - Weight(top, width) + carry
  {
    hide Pow2, Masked;
    UnfoldPow2(width);
    UnfoldPow2(32);
    Pow2Add(width, 32 - width);
    var m, s, b := Pow2(width), Pow2(32 - width), ToInt(top);
    Collect(m, s, t, b);
    assert m * b == Weight(top, width);
    assert Pow2(32) * t == 2 * (Pow2(31) * t);
    MaskedUnique(2 * r + carry, width, b - s * t, 2 * value - Weight(top, width) + carry);
  }

  lemma TopBitAt(value: nat, width: nat)
    requires width > 0 && value < Pow2(width)
    ensures BitAt(value, width - 1) == if value < Pow2(width - 1) then 0 else 1
  {
    var h: nat := Pow2(width - 1);
    var top := if value < h then 0 else 1;
    ModUnique(value, h, top, value - h * top);
  }

  /** One ROXL step, with the top bit moving to X, is one rotation of the ring. */
  lemma RoxlStep(x: bool, value: nat, width: nat)
    requires 1 <= width <= 32 && value < Pow2(width)
    ensures Masked(Or(LeftWord(value, 1), ToInt(x)), width) < Pow2(width)
    ensures Ring(BitAt(value, width - 1) != 0, Masked(Or(LeftWord(value, 1), ToInt(x)), width), width) ==
            RotL(Ring(x, value, width), width + 1)
  {
    hide Or, LeftWord, RotL, Pow2, Masked, BitAt;
    var top := value >= Pow2(width - 1);
    UnfoldPow2(width);
    TopBitAt(value, width);
    ShiftedIn(value, ToInt(x), top, width);
    RingTurns(x, value, width);
    hide Weight;
  }

  lemma RingTurns(x: bool, value: nat, width: nat)
    requires value < Pow2(width)
    ensures RotL(Ring(x, value, width), width + 1) == 2 * value + ToInt(x)
  {
    UnfoldPow2(width + 1);
    hide RotL, Pow2;
    RotLSplit(Ring(x, value, width), width + 1);
  }

  /** (value >> 1) | (carry << (width - 1)), with the lowest bit moving to X. */
  lemma RoxrStep(x: bool, value: nat, width: nat)
    requires 1 <= width <= 32 && value < Pow2(width)
    ensures Or(value / 2, ToInt(x) * Pow2(width - 1)) < Pow2(width)
    ensures Ring(value % 2 != 0, Or(value / 2, ToInt(x) * Pow2(width - 1)), width) ==
              RotR(Ring(x, value, width), width + 1)
  {
    hide Or, RotR, Pow2;
    UnfoldPow2(width);
    OrCommutes(value / 2, ToInt(x) * Pow2(width - 1));
    OrIsSum(ToInt(x), value / 2, width - 1);
    RotRSplit(Ring(x, value, width), width + 1);
    HalfRing(x, value, width, Pow2(width - 1));
  }

  lemma HalfRing(x: bool, value: nat, width: nat, p: nat)
    requires width > 0 && p == Pow2(width - 1) && Pow2(width) == 2 * p
    ensures Ring(x, value, width) / 2 == ToInt(x) * p + value / 2 && Ring(x, value, width) % 2 == value % 2
    ensures ToInt(x) * p == if x then p else 0
  {
    hide Pow2;
  }

  /** ROXL reduced modulo width + 1 equals the unreduced rotation of X and value. */
  method Roxl(valueIn: u32, count: nat, width: nat, extendIn: bool) returns (value: nat, flags: ShiftFlags)
    requires 1 <= width <= 32
    ensures value < Pow2(width)
    ensures Ring(flags.extendOut, value, width) ==
              RotLs(Ring(extendIn, Masked(valueIn, width), width), width + 1, count)
    ensures flags == ShiftFlags(ToInt(flags.extendOut), true, flags.extendOut, true, false)
  {
    hide Masked, Or, LeftWord, Ring, RotL, RotLs, BitAt, Pow2;
    value := Masked(valueIn, width);
    var extend := extendIn;
    var shift := count % (width + 1);
    ghost var u := Ring(extend, value, width);
    RingBound(extend, value, width);
    LeftPeriod(u, width + 1, count);
    UnfoldRotLs(u, width + 1, 0);
    for i := 0 to shift
      invariant value < Pow2(width) && Ring(extend, value, width) == RotLs(u, width + 1, i)
    {
      RoxlStep(extend, value, width);
      UnfoldRotLs(u, width + 1, i + 1);
      var carry := ToInt(extend);
      extend := BitAt(value, width - 1) != 0;
      value := Masked(Or(LeftWord(value, 1), carry), width);
    }
    flags := ShiftFlags(ToInt(extend), true, extend, true, false);
  }

  lemma UnfoldRotRs(u: nat, n: nat, k: nat)
    requires n > 0
    ensures RotRs(u, n, k) == if k == 0 then u else RotR(RotRs(u, n, k - 1), n)
  {
  }

  method Roxr(valueIn: u32, count: nat, width: nat, extendIn: bool) returns (value: nat, flags: ShiftFlags)
    requires 1 <= width <= 32
    ensures value < Pow2(width)
    ensures Ring(flags.extendOut, value, width) ==
              RotRs(Ring(extendIn, Masked(valueIn, width), width), width + 1, count)
    ensures flags == ShiftFlags(ToInt(flags.extendOut), true, flags.extendOut, true, false)
  {
    hide Masked, Or, Ring, RotR, RotRs, Pow2;
    value := Masked(valueIn, width);
    var extend := extendIn;
    var shift := count % (width + 1);
    ghost var u := Ring(extend, value, width);
    RingBound(extend, value, width);
    RightPeriod(u, width + 1, count);
    UnfoldRotRs(u, width + 1, 0);
    for i := 0 to shift
      invariant value < Pow2(width) && Ring(extend, value, width) == RotRs(u, width + 1, i)
    {
      RoxrStep(extend, value, width);
      UnfoldRotRs(u, width + 1, i + 1);
      var carry := ToInt(extend);
      extend := value % 2 != 0;
      value := Or(value / 2, carry * Pow2(width - 1));
    }
    flags := ShiftFlags(ToInt(extend), true, extend, true, false);
  }

  // ---- Dispatch and flags ----

  datatype ShiftOp = Arithmetic | Logical | RotateExtend | Rotate

  /** What a shift or rotate by at least one means: the result, the carry and V. */
  ghost predicate Meaning(op: ShiftOp, left: bool, v: nat, count: nat, width: nat, x: bool, r: nat, f: ShiftFlags)
    requires 1 <= width <= 32 && count > 0
  {
    && f.changeCarry && (op != Rotate ==> f.changeExtend && f.extendOut == (f.carryOut != 0))
    && (op == Rotate ==> !f.changeExtend) && (f.overflow ==> op == Arithmetic && left)
    && match op
       case Arithmetic =>
         var t := SignedAt(v, width);
         if left then
           r == Masked(Scaled(t, count), width) && f.carryOut == BitAt(Scaled(t, count - 1), width - 1) &&
           (f.overflow <==> !FitsAt(Scaled(t, count), width))
         else r == Masked(Floored(t, count), width) && f.carryOut == Floored(t, count - 1) % 2
       case Logical =>
         if left then r == Masked(Scaled(v, count), width) && f.carryOut == BitAt(Scaled(v, count - 1), width - 1)
         else r == Floored(v, count) && f.carryOut == Floored(v, count - 1) % 2
       case RotateExtend =>
         var u := Ring(x, v, width);
         r < Pow2(width) &&
         Ring(f.extendOut, r, width) == if left then RotLs(u, width + 1, count) else RotRs(u, width + 1, count)
       case Rotate =>
         r == (if left then RotLs(v, width, count) else RotRs(v, width, count)) &&
         f.carryOut == if left then r % 2 else BitAt(r, width - 1)
  }

  /** doShiftRotate. A count of zero leaves the value and X alone, and C is X for the X rotates. */
  method DoShiftRotate(valueIn: u32, count: nat, width: nat, op: ShiftOp, left: bool, extend: bool)
    returns (result: nat, flags: ShiftFlags)
    requires 1 <= width <= 32
    ensures count == 0 ==>
              (result == Masked(valueIn, width) &&
               flags == ShiftFlags(if op == RotateExtend then ToInt(extend) else 0, true, extend, false, false))
    ensures count > 0 ==> Meaning(op, left, Masked(valueIn, width), count, width, extend, result, flags)
    ensures result < Pow2(width)
  {
    MaskedFits(width);
    MaskedTwice(valueIn, width);
    ResultFits(Masked(valueIn, width), count, width);
    hide Masked, Scaled, Floored, BitAt, RotLs, RotRs, Ring, Pow2, SignedAt, FitsAt, Rol, Ror;
    var value := Masked(valueIn, width);
    if count == 0 {
      return value, ShiftFlags(if op == RotateExtend then ToInt(extend) else 0, true, extend, false, false);
    }
    match op {
      case Arithmetic =>
        if left { result, flags := Asl(value, count, width); } else { result, flags := Asr(value, count, width); }
      case Logical =>
        if left { result, flags := Lsl(value, count, width); } else { result, flags := Lsr(value, count, width); }
      case RotateExtend =>
        if left {
          result, flags := Roxl(value, count, width, extend);
        } else {
          result, flags := Roxr(value, count, width, extend);
        }
      case Rotate =>
        if left {
          RolRotates(value, count, width);
          var r := Rol(value, count, width);
          result, flags := r.0, r.1;
        } else {
          RorRotates(value, count, width);
          var r := Ror(value, count, width);
          result, flags := r.0, r.1;
        }
    }
  }

  lemma ResultFits(v: nat, count: nat, width: nat)
    requires v < Pow2(width)
    ensures 0 <= Floored(v, count) < Pow2(width)
  {
    var p := Pow2(count);
    QuotientBound(v, Pow2(width), p) by {
      assert Pow2(width) * (p - 1) >= 0;
      assert Pow2(width) * p == Pow2(width) * (p - 1) + Pow2(width);
    }
  }

  /** updateShiftRotateFlags */
  function UpdateShiftRotateFlags(sr: u16, result: nat, width: nat, f: ShiftFlags): u16
    requires width > 0
  {
    var r := Masked(result, width);
    var sr1 := OrIf(AndNot16(sr, SR_ZERO + SR_NEGATIVE + SR_OVERFLOW), SR_ZERO, r == 0);
    var sr2 := OrIf(sr1, SR_NEGATIVE, And(r, Pow2(width - 1)) != 0);
    var sr3 := if f.changeCarry then OrIf(AndNot16(sr2, SR_CARRY), SR_CARRY, f.carryOut != 0) else sr2;
    var sr4 := if f.changeExtend then OrIf(AndNot16(sr3, SR_EXTEND), SR_EXTEND, f.extendOut) else sr3;
    OrIf(sr4, SR_OVERFLOW, f.overflow)
  }

  /** The condition codes after a shift: N and Z describe the result, V the sign changes of ASL,
      C and X the bit shifted out where they change at all. */
  lemma ShiftFlagsMeaning(sr: u16, result: nat, width: nat, f: ShiftFlags)
    requires width > 0
    ensures FlagsOf(UpdateShiftRotateFlags(sr, result, width, f)) ==
            Flags(if f.changeExtend then f.extendOut else FlagsOf(sr).x, Masked(result, width) >= Pow2(width - 1),
                  Masked(result, width) == 0, f.overflow,
                  if f.changeCarry then f.carryOut != 0 else FlagsOf(sr).c, FlagsOf(sr).s)
  {
    hide And, Masked, Pow2, Bit, FlagsOf, OrIf, AndNot16;
    var r := Masked(result, width);
    UnfoldPow2(width);
    AndPow2(r, width - 1);
    TopBit(r, width - 1);
    var cleared := AndNot16(sr, SR_ZERO + SR_NEGATIVE + SR_OVERFLOW);
    ClearedNZV(sr);
    AddedFlag(cleared, r == 0);
    var sr1 := OrIf(cleared, SR_ZERO, r == 0);
    AddedFlag(sr1, r >= Pow2(width - 1));
    var sr2 := OrIf(sr1, SR_NEGATIVE, r >= Pow2(width - 1));
    WrittenFlag(sr2, f.carryOut != 0);
    var sr3 := if f.changeCarry then OrIf(AndNot16(sr2, SR_CARRY), SR_CARRY, f.carryOut != 0) else sr2;
    WrittenFlag(sr3, f.extendOut);
    var sr4 := if f.changeExtend then OrIf(AndNot16(sr3, SR_EXTEND), SR_EXTEND, f.extendOut) else sr3;
    AddedFlag(sr4, f.overflow);
  }

  lemma ClearedNZV(sr: u16)
    ensures FlagsOf(AndNot16(sr, SR_ZERO + SR_NEGATIVE + SR_OVERFLOW)) ==
            FlagsOf(sr).(n := false, z := false, v := false)
  {
    hide And;
    FlagBits(SR_ZERO + SR_NEGATIVE + SR_OVERFLOW);
    AndNotFlags(sr, SR_ZERO + SR_NEGATIVE + SR_OVERFLOW);
  }
}
