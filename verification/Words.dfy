/** Bounded machine words, operand sizes and error values shared by every component. */
module Words {

  type u8 = x: int | 0 <= x < 0x100
  type u16 = x: int | 0 <= x < 0x1_0000
  type u24 = x: int | 0 <= x < 0x100_0000
  type u32 = x: int | 0 <= x < 0x1_0000_0000
  type u64 = x: int | 0 <= x < 0x1_0000_0000_0000_0000

  /** The address bus of the 68000 has 24 lines: `address & 0xffffff`. */
  function Address24(address: int): (a: u24) {
    address % 0x100_0000
  }

  /** uint32 wrap-around. */
  function Wrap32(x: int): (w: u32) {
    x % 0x1_0000_0000
  }

  /** uint64 wrap-around. */
  function Wrap64(x: int): (w: u64) {
    x % 0x1_0000_0000_0000_0000
  }

  /** 1 for a set bit, as boolToUint32 and b2i have it. */
  function ToInt(b: bool): (n: nat)
    ensures n <= 1
  {
    if b then 1 else 0
  }

  datatype Option<+T> = None | Some(value: T)

  /** The error values a memory transaction can produce. */
  datatype Fault = BusError(address: u32) | AddressError(address: u32) | InvalidVector(vector: u32)

  datatype Result<+T> = Ok(value: T) | Err(fault: Fault)

  datatype Size = Byte | Word | Long {
    function Bytes(): nat {
      match this case Byte => 1 case Word => 2 case Long => 4
    }

    function Bits(): nat {
      match this case Byte => 8 case Word => 16 case Long => 32
    }

    /** 2^Bits(): one more than the size's mask. */
    function Modulus(): int {
      match this case Byte => 0x100 case Word => 0x1_0000 case Long => 0x1_0000_0000
    }

    /** The weight of the sign bit. */
    function SignWeight(): (w: int)
      ensures w >= 0x80
    {
      match this case Byte => 0x80 case Word => 0x8000 case Long => 0x8000_0000
    }
  }

  /** x & size.mask() */
  function Low(x: int, size: Size): (r: u32)
    ensures r < size.Modulus()
  {
    x % size.Modulus()
  }

  /** Two's complement reading of the low `size` bits. */
  function Signed(x: int, size: Size): (v: int)
    ensures -size.SignWeight() <= v < size.SignWeight()
  {
    var low := x % size.Modulus();
    if low >= size.SignWeight() then low - size.Modulus() else low
  }

  /** Reduction of a sum or difference of two words, without a division. */
  lemma ModCases(x: int, size: Size)
    requires -size.Modulus() <= x < 2 * size.Modulus()
    ensures Low(x, size) ==
            if x < 0 then x + size.Modulus() else if x < size.Modulus() then x else x - size.Modulus()
  {
    match size {
      case Byte => assert x % 0x100 == if x < 0 then x + 0x100 else if x < 0x100 then x else x - 0x100;
      case Word => assert x % 0x1_0000 == if x < 0 then x + 0x1_0000 else if x < 0x1_0000 then x else x - 0x1_0000;
      case Long =>
        assert x % 0x1_0000_0000 ==
               if x < 0 then x + 0x1_0000_0000 else if x < 0x1_0000_0000 then x else x - 0x1_0000_0000;
    }
  }

  lemma SignedCases(x: nat, size: Size)
    requires x < size.Modulus()
    ensures Low(x, size) == x
    ensures Signed(x, size) == if x >= size.SignWeight() then x - size.Modulus() else x
    ensures size.Modulus() == 2 * size.SignWeight()
  {
    ModCases(x, size);
  }

  /** Quotient and remainder are determined by the division equation. */
  lemma ModUnique(x: int, m: int, q: int, r: int)
    requires m > 0 && 0 <= r < m && x == m * q + r
    ensures x / m == q && x % m == r
  {
    var q', r' := x / m, x % m;
    assert m * (q - q') == r' - r by { assert x == m * q' + r'; }
    MulGap(m, q - q');
  }

  /** A multiple of m that is not zero is at least m away from zero. */
  lemma MulGap(m: int, d: int)
    requires m > 0
    ensures d >= 1 ==> m * d >= m
    ensures d <= -1 ==> m * d <= -m
  {
    if d >= 1 { assert m * (d - 1) >= 0; } else if d <= -1 { assert m * (-1 - d) >= 0; }
  }

  lemma WrapThenByte(x: int)
    ensures Wrap32(x) % 0x100 == x % 0x100
  {
    var q, r := x / 0x1_0000_0000, Wrap32(x);
    assert x == 0x1_0000_0000 * q + r && r == 0x100 * (r / 0x100) + r % 0x100;
    ModUnique(x, 0x100, 0x100_0000 * q + r / 0x100, r % 0x100);
  }

  lemma WrapThenWord(x: int)
    ensures Wrap32(x) % 0x1_0000 == x % 0x1_0000
  {
    var q, r := x / 0x1_0000_0000, Wrap32(x);
    assert x == 0x1_0000_0000 * q + r && r == 0x1_0000 * (r / 0x1_0000) + r % 0x1_0000;
    ModUnique(x, 0x1_0000, 0x1_0000 * q + r / 0x1_0000, r % 0x1_0000);
  }

  /** Wrapping to 32 bits first does not change a remainder by a smaller size. */
  lemma WrapThenMod(x: int, size: Size)
    ensures Low(Wrap32(x), size) == Low(x, size)
  {
    match size {
      case Byte => WrapThenByte(x);
      case Word => WrapThenWord(x);
      case Long =>
    }
  }

  lemma LowPart(x: int, size: Size)
    ensures 0 <= Low(x, size) < size.Modulus() && size.SignWeight() >= 0x80 && size.Modulus() == 2 * size.SignWeight()
    ensures size.Modulus() <= 0x1_0000_0000
  {
  }
}
