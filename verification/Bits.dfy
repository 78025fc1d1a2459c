/** Bitwise operators on naturals, each specified bit by bit, and the facts that
    tie them to integer arithmetic. */
module Bits {
  import opened Words

  function Pow2(k: nat): (p: nat)
    ensures p >= 1
  {
    if k == 0 then 1 else 2 * Pow2(k - 1)
  }

  /** Bit k of x. */
  predicate Bit(x: nat, k: nat)
    decreases k
  {
    if k == 0 then x % 2 == 1 else Bit(x / 2, k - 1)
  }

  function And(x: nat, y: nat): nat
    decreases x
  {
    if x == 0 then 0 else 2 * And(x / 2, y / 2) + (if x % 2 == 1 && y % 2 == 1 then 1 else 0)
  }

  function Or(x: nat, y: nat): nat
    decreases x + y
  {
    if x == 0 && y == 0 then 0 else 2 * Or(x / 2, y / 2) + (if x % 2 == 1 || y % 2 == 1 then 1 else 0)
  }

  function Xor(x: nat, y: nat): nat
    decreases x + y
  {
    if x == 0 && y == 0 then 0 else 2 * Xor(x / 2, y / 2) + (if x % 2 != y % 2 then 1 else 0)
  }

  /** x &^ y */
  function AndNot(x: nat, y: nat): nat
    decreases x
  {
    if x == 0 then 0 else 2 * AndNot(x / 2, y / 2) + (if x % 2 == 1 && y % 2 == 0 then 1 else 0)
  }

  /** Halving and parity commute with the operators. */
  lemma HalfOps(x: nat, y: nat)
    ensures And(x, y) / 2 == And(x / 2, y / 2) && (And(x, y) % 2 == 1 <==> x % 2 == 1 && y % 2 == 1)
    ensures Or(x, y) / 2 == Or(x / 2, y / 2) && (Or(x, y) % 2 == 1 <==> x % 2 == 1 || y % 2 == 1)
    ensures Xor(x, y) / 2 == Xor(x / 2, y / 2) && (Xor(x, y) % 2 == 1 <==> x % 2 != y % 2)
    ensures AndNot(x, y) / 2 == AndNot(x / 2, y / 2) && (AndNot(x, y) % 2 == 1 <==> x % 2 == 1 && y % 2 == 0)
  {
  }

  /** Each operator acts on every bit by itself. */
  lemma {:induction false} OpBits(x: nat, y: nat, k: nat)
    ensures Bit(And(x, y), k) <==> Bit(x, k) && Bit(y, k)
    ensures Bit(Or(x, y), k) <==> Bit(x, k) || Bit(y, k)
    ensures Bit(Xor(x, y), k) <==> Bit(x, k) != Bit(y, k)
    ensures Bit(AndNot(x, y), k) <==> Bit(x, k) && !Bit(y, k)
    decreases k
  {
    hide And, Or, Xor, AndNot;
    HalfOps(x, y);
    if k > 0 { OpBits(x / 2, y / 2, k - 1); }
  }

  lemma {:induction false} ZeroHasNoBit(k: nat)
    ensures !Bit(0, k)
    decreases k
  {
    if k > 0 { ZeroHasNoBit(k - 1); }
  }

  /** A number is determined by its bits. */
  lemma {:induction false} SameBits(x: nat, y: nat)
    requires forall k: nat :: Bit(x, k) <==> Bit(y, k)
    ensures x == y
    decreases x + y
  {
    if x != y {
      assert Bit(x, 0) <==> Bit(y, 0);
      forall k: nat ensures Bit(x / 2, k) <==> Bit(y / 2, k) {
        assert Bit(x, k + 1) <==> Bit(y, k + 1);
      }
      SameBits(x / 2, y / 2);
    }
  }

  /** A power of two has exactly one bit. */
  lemma {:induction false} Pow2Bit(j: nat, k: nat)
    ensures Bit(Pow2(j), k) <==> j == k
    decreases k
  {
    if j > 0 {
      assert Pow2(j) % 2 == 0 && Pow2(j) / 2 == Pow2(j - 1);
      if k > 0 { Pow2Bit(j - 1, k - 1); }
    } else if k > 0 {
      ZeroHasNoBit(k - 1);
    }
  }

  /** The value a single-bit mask selects. */
  lemma {:induction false} AndPow2Value(x: nat, k: nat)
    ensures And(x, Pow2(k)) == if Bit(x, k) then Pow2(k) else 0
  {
    var r := if Bit(x, k) then Pow2(k) else 0;
    forall j: nat ensures Bit(And(x, Pow2(k)), j) <==> Bit(r, j) {
      OpBits(x, Pow2(k), j);
      Pow2Bit(k, j);
      ZeroHasNoBit(j);
    }
    SameBits(And(x, Pow2(k)), r);
  }

  /** Testing with a single-bit mask. */
  lemma {:induction false} AndPow2(x: nat, k: nat)
    ensures And(x, Pow2(k)) != 0 <==> Bit(x, k)
  {
    AndPow2Value(x, k);
  }

  /** Numbers below 2^w have no bit at or above w. */
  lemma {:induction false} NoHighBits(x: nat, w: nat, k: nat)
    requires x < Pow2(w) && w <= k
    ensures !Bit(x, k)
    decreases w
  {
    if w == 0 { ZeroHasNoBit(k); } else { NoHighBits(x / 2, w - 1, k - 1); }
  }

  /** Conversely, a number without bits at or above w is below 2^w. */
  lemma {:induction false} BoundedByBits(x: nat, w: nat)
    requires forall k: nat :: w <= k ==> !Bit(x, k)
    ensures x < Pow2(w)
    decreases w
  {
    if w == 0 {
      forall k: nat ensures Bit(x, k) <==> Bit(0, k) { ZeroHasNoBit(k); }
      SameBits(x, 0);
    } else {
      forall k: nat | w - 1 <= k ensures !Bit(x / 2, k) { assert !Bit(x, k + 1); }
      BoundedByBits(x / 2, w - 1);
    }
  }

  /** Or of a multiple of 2^k with a number below 2^k is addition. */
  lemma {:induction false} OrIsSum(high: nat, low: nat, k: nat)
    requires low < Pow2(k)
    ensures Or(high * Pow2(k), low) == high * Pow2(k) + low
    decreases k
  {
    if k == 0 {
      OrZero(high);
    } else {
      var p := Pow2(k - 1);
      assert high * Pow2(k) == 2 * (high * p);
      OrIsSum(high, low / 2, k - 1);
    }
  }

  lemma {:induction false} OrZero(x: nat)
    ensures Or(x, 0) == x
  {
    if x != 0 { OrZero(x / 2); }
  }

  lemma {:induction false} OrCommutes(x: nat, y: nat)
    ensures Or(x, y) == Or(y, x)
    decreases x + y
  {
    if x != 0 || y != 0 { OrCommutes(x / 2, y / 2); }
  }

  /** Masking with 2^k - 1 is the remainder by 2^k. */
  lemma {:induction false} AndMask(x: nat, k: nat)
    ensures And(x, Pow2(k) - 1) == x % Pow2(k)
    decreases k
  {
    if k == 0 {
      AndZero(x);
    } else if x != 0 {
      var p := Pow2(k - 1);
      assert (Pow2(k) - 1) % 2 == 1 && (Pow2(k) - 1) / 2 == p - 1;
      AndMask(x / 2, k - 1);
      HalfMod(x, p);
    }
  }

  /** And and AndNot split a number into the selected and the other bits. */
  lemma {:induction false} AndSplit(x: nat, y: nat)
    ensures And(x, y) + AndNot(x, y) == x
    decreases x
  {
    if x != 0 { AndSplit(x / 2, y / 2); }
  }

  lemma {:induction false} AndZero(x: nat)
    ensures And(x, 0) == 0
  {
    if x != 0 { AndZero(x / 2); }
  }

  lemma HalfMod(x: nat, p: nat)
    requires p > 0
    ensures x % (2 * p) == 2 * ((x / 2) % p) + x % 2
  {
    var q, r := (x / 2) / p, (x / 2) % p;
    assert x == (2 * p) * q + (2 * r + x % 2) by {
      assert x / 2 == p * q + r;
    }
    ModUnique(x, 2 * p, q, 2 * r + x % 2);
  }

  /** x >> k */
  function Shr(x: nat, k: nat): (r: nat)
    decreases k
  {
    if k == 0 then x else Shr(x / 2, k - 1)
  }

  lemma {:induction false} ShrIsDiv(x: nat, k: nat)
    ensures Shr(x, k) == x / Pow2(k)
    decreases k
  {
    if k > 0 {
      DivTwice(x, k);
      ShrIsDiv(x / 2, k - 1);
    }
  }

  lemma DivTwice(x: nat, k: nat)
    requires k > 0
    ensures x / Pow2(k) == x / 2 / Pow2(k - 1)
  {
    var p := Pow2(k - 1);
    var q, r := x / 2 / p, x / 2 % p;
    assert x == (2 * p) * q + (2 * r + x % 2) by { assert x / 2 == p * q + r; }
    ModUnique(x, 2 * p, q, 2 * r + x % 2);
  }

  /** Dropping the low k bits commutes with And, Or and AndNot. */
  lemma {:induction false} ShiftOps(x: nat, y: nat, k: nat)
    ensures Shr(And(x, y), k) == And(Shr(x, k), Shr(y, k))
    ensures Shr(Or(x, y), k) == Or(Shr(x, k), Shr(y, k))
    ensures Shr(AndNot(x, y), k) == AndNot(Shr(x, k), Shr(y, k))
    decreases k
  {
    hide And, Or, Xor, AndNot;
    HalfOps(x, y);
    if k > 0 { ShiftOps(x / 2, y / 2, k - 1); }
  }

  lemma Pow2Values()
    ensures Pow2(0) == 1 && Pow2(1) == 2 && Pow2(2) == 4 && Pow2(3) == 8 && Pow2(4) == 16 && Pow2(7) == 0x80
    ensures Pow2(8) == 0x100 && Pow2(13) == 0x2000 && Pow2(15) == 0x8000 && Pow2(16) == 0x1_0000
    ensures Pow2(31) == 0x8000_0000 && Pow2(32) == 0x1_0000_0000
  {
    assert Pow2(20) == 0x10_0000 && Pow2(24) == 0x100_0000 && Pow2(28) == 0x1000_0000;
  }

  /** Results stay within the width of the operands. */
  lemma WidthOps(x: nat, y: nat, w: nat)
    requires x < Pow2(w) && y < Pow2(w)
    ensures And(x, y) < Pow2(w) && Or(x, y) < Pow2(w) && Xor(x, y) < Pow2(w) && AndNot(x, y) < Pow2(w)
  {
    forall k: nat | w <= k
      ensures !Bit(And(x, y), k) && !Bit(Or(x, y), k) && !Bit(Xor(x, y), k) && !Bit(AndNot(x, y), k)
    {
      NoHighBits(x, w, k);
      NoHighBits(y, w, k);
      OpBits(x, y, k);
    }
    BoundedByBits(And(x, y), w);
    BoundedByBits(Or(x, y), w);
    BoundedByBits(Xor(x, y), w);
    BoundedByBits(AndNot(x, y), w);
  }

  /** ^x on w bits. */
  function Not(x: nat, w: nat): (r: nat)
    requires x < Pow2(w)
  {
    Pow2(w) - 1 - x
  }

  lemma {:induction false} NotBit(x: nat, w: nat, k: nat)
    requires x < Pow2(w) && k < w
    ensures Bit(Not(x, w), k) <==> !Bit(x, k)
    decreases k
  {
    if k > 0 {
      assert Not(x, w) / 2 == Not(x / 2, w - 1);
      NotBit(x / 2, w - 1, k - 1);
    }
  }

  /** The top bit of a (k+1)-bit number. */
  lemma {:induction false} TopBit(x: nat, k: nat)
    requires x < 2 * Pow2(k)
    ensures Bit(x, k) <==> x >= Pow2(k)
    decreases k
  {
    if k > 0 { TopBit(x / 2, k - 1); }
  }

  /** Bit k is the parity of the number shifted right by k. */
  lemma {:induction false} BitIsParity(x: nat, k: nat)
    ensures Bit(x, k) <==> (x / Pow2(k)) % 2 == 1
    decreases k
  {
    if k > 0 {
      DivTwice(x, k);
      BitIsParity(x / 2, k - 1);
    }
  }

  /** Clearing the low w bits leaves something exactly when the number does not fit w bits. */
  lemma AndNotMask(x: nat, w: nat)
    ensures AndNot(x, Pow2(w) - 1) == x - x % Pow2(w)
  {
    AndSplit(x, Pow2(w) - 1);
    AndMask(x, w);
  }

  /** The low w bits survive a reduction modulo 2^w. */
  lemma {:induction false} BitOfRemainder(x: nat, w: nat, k: nat)
    requires k < w
    ensures Bit(x % Pow2(w), k) <==> Bit(x, k)
    decreases k
  {
    HalfMod(x, Pow2(w - 1));
    var r := x % Pow2(w);
    assert r % 2 == x % 2 && r / 2 == x / 2 % Pow2(w - 1);
    if k > 0 { BitOfRemainder(x / 2, w - 1, k - 1); }
  }

  /** 2^n - 1 has exactly the bits below n. */
  lemma {:induction false} LowOnes(n: nat, k: nat)
    ensures Bit(Pow2(n) - 1, k) <==> k < n
    decreases n
  {
    if n == 0 {
      ZeroHasNoBit(k);
    } else {
      assert (Pow2(n) - 1) % 2 == 1 && (Pow2(n) - 1) / 2 == Pow2(n - 1) - 1;
      if k > 0 { LowOnes(n - 1, k - 1); }
    }
  }

  /** Multiplying by 2^j moves every bit up by j. */
  lemma {:induction false} ScaledBit(x: nat, j: nat, k: nat)
    ensures x * Pow2(j) >= 0
    ensures Bit(x * Pow2(j), k) <==> j <= k && Bit(x, k - j)
    decreases j
  {
    if j > 0 {
      assert x * Pow2(j) == 2 * (x * Pow2(j - 1));
      ScaledBit(x, j - 1, if k > 0 then k - 1 else 0);
    }
  }

  /** Shifting right by j moves every bit down by j. */
  lemma {:induction false} ShrBit(x: nat, j: nat, k: nat)
    ensures Bit(Shr(x, j), k) <==> Bit(x, j + k)
    decreases j
  {
    if j > 0 { ShrBit(x / 2, j - 1, k); }
  }

  /** Or-ing y in adds the bits of y that are missing. */
  lemma {:induction false} OrSplit(x: nat, y: nat)
    ensures Or(x, y) == AndNot(x, y) + y
    decreases x + y
  {
    if x != 0 || y != 0 { OrSplit(x / 2, y / 2); }
  }

  /** Setting one bit. */
  lemma OrPow2(x: nat, k: nat)
    ensures Or(x, Pow2(k)) == if Bit(x, k) then x else x + Pow2(k)
  {
    hide And, Or, AndNot, Bit;
    OrSplit(x, Pow2(k));
    AndSplit(x, Pow2(k));
    AndPow2Value(x, k);
  }

  /** Replacing the low w bits of one number by those of another. */
  lemma OrOfParts(x: nat, y: nat, w: nat)
    ensures Or(AndNot(x, Pow2(w) - 1), And(y, Pow2(w) - 1)) == x - x % Pow2(w) + y % Pow2(w)
  {
    AndNotMask(x, w);
    AndMask(y, w);
    OrIsSum(x / Pow2(w), y % Pow2(w), w);
    hide And, AndNot, Or, Pow2;
    WholePart(x, Pow2(w));
  }

  lemma WholePart(x: nat, m: nat)
    requires m > 0
    ensures x / m * m == x - x % m
  {
  }
}
