/** The flat RAM device (memory.go) and the byte image it stands for. */
module Memory {
  import opened Words

  /** Big-endian word at index i. */
  function Load16(bytes: seq<u8>, i: nat): (v: u16)
    requires i + 2 <= |bytes|
  {
    (bytes[i] as int) * 0x100 + bytes[i + 1]
  }

  /** Big-endian value of the `s` bytes at index i. */
  function Load(bytes: seq<u8>, i: nat, s: Size): (v: u32)
    requires i + s.Bytes() <= |bytes|
  {
    match s
    case Byte => bytes[i]
    case Word => Load16(bytes, i)
    case Long => (Load16(bytes, i) as int) * 0x1_0000 + Load16(bytes, i + 2)
  }

  function Store16(bytes: seq<u8>, i: nat, v: int): (r: seq<u8>)
    requires i + 2 <= |bytes|
    ensures |r| == |bytes|
  {
    bytes[i := v / 0x100 % 0x100][i + 1 := v % 0x100]
  }

  /** The bytes after the low `s` bytes of v are stored big-endian at index i. */
  function Store(bytes: seq<u8>, i: nat, s: Size, v: u32): (r: seq<u8>)
    requires i + s.Bytes() <= |bytes|
    ensures |r| == |bytes|
  {
    match s
    case Byte => bytes[i := v % 0x100]
    case Word => Store16(bytes, i, v)
    case Long => Store16(Store16(bytes, i, v / 0x1_0000), i + 2, v)
  }

  /** Big-endian: the first byte is the most significant one. */
  lemma BigEndian(bytes: seq<u8>, i: nat, s: Size)
    requires i + s.Bytes() <= |bytes|
    ensures var v := Load(bytes, i, s);
            v < s.Modulus() && bytes[i + s.Bytes() - 1] == v % 0x100 && bytes[i] == v / (s.Modulus() / 0x100) &&
            (s == Long ==> bytes[i + 1] == v / 0x1_0000 % 0x100 && bytes[i + 2] == v / 0x100 % 0x100)
  {
    match s {
      case Byte =>
      case Word => PairSplits(bytes[i], bytes[i + 1]);
      case Long => QuadSplits(bytes[i], bytes[i + 1], bytes[i + 2], bytes[i + 3]);
    }
  }

  lemma PairSplits(a: int, b: u8)
    ensures (a * 0x100 + b) / 0x100 == a && (a * 0x100 + b) % 0x100 == b
  {
    ModUnique(a * 0x100 + b, 0x100, a, b);
  }

  lemma QuadSplits(a: u8, b: u8, c: u8, d: u8)
    ensures var v := (a as int * 0x100 + b) * 0x1_0000 + (c as int * 0x100 + d);
            v < 0x1_0000_0000 && v % 0x100 == d && v / 0x100 % 0x100 == c && v / 0x1_0000 % 0x100 == b &&
            v / 0x100_0000 == a
  {
    var ab, cd := a as int * 0x100 + b, c as int * 0x100 + d;
    PairSplits(a, b);
    PairSplits(ab, c);
    PairSplits(ab * 0x100 + c, d);
    ModUnique(ab * 0x1_0000 + cd, 0x1_0000, ab, cd);
    ModUnique(ab * 0x1_0000 + cd, 0x100_0000, a, b as int * 0x1_0000 + cd);
  }

  /** What was stored is loaded back, cut to the size; every other byte keeps its value. */
  lemma StoreLoad(bytes: seq<u8>, i: nat, s: Size, v: u32)
    requires i + s.Bytes() <= |bytes|
    ensures Load(Store(bytes, i, s, v), i, s) == v % s.Modulus()
    ensures forall k :: 0 <= k < |bytes| && (k < i || i + s.Bytes() <= k) ==> Store(bytes, i, s, v)[k] == bytes[k]
  {
    if s == Word {
      StoreLoad16(bytes, i, v);
    } else if s == Long {
      var half := Store16(bytes, i, v / 0x1_0000);
      StoreLoad16(bytes, i, v / 0x1_0000);
      StoreLoad16(half, i + 2, v);
      assert Load16(Store16(half, i + 2, v), i) == Load16(half, i);
    }
  }

  lemma StoreLoad16(bytes: seq<u8>, i: nat, v: int)
    requires i + 2 <= |bytes|
    ensures Load16(Store16(bytes, i, v), i) == v % 0x1_0000
    ensures forall k :: 0 <= k < |bytes| && (k < i || i + 2 <= k) ==> Store16(bytes, i, v)[k] == bytes[k]
  {
    assert v % 0x1_0000 == (v / 0x100 % 0x100) * 0x100 + v % 0x100;
  }

  /** Loading depends on the loaded bytes only. */
  lemma LoadFrame(b: seq<u8>, c: seq<u8>, i: nat, s: Size)
    requires i + s.Bytes() <= |b| && i + s.Bytes() <= |c|
    requires forall k :: i <= k < i + s.Bytes() ==> b[k] == c[k]
    ensures Load(b, i, s) == Load(c, i, s)
  {
  }

  /** A block of bytes mapped at `offset`. Lengths and sums wrap as uint32 values do. */
  datatype Image = Image(offset: u32, bytes: seq<u8>) {

    predicate Contains(a: u32) {
      offset <= a < Wrap32(offset + |bytes|)
    }

    predicate InRange(s: Size, a: u32) {
      a >= offset && Wrap32(a + s.Bytes() - 1) < Wrap32(offset + |bytes|)
    }

    /** The end of the block is a uint32, so no sum wraps. */
    predicate Unwrapped() {
      offset + |bytes| < 0x1_0000_0000
    }

    /** The whole block lies inside the 24-bit address space. */
    predicate Inside24() {
      offset + |bytes| <= 0x100_0000
    }

    /** The range check passes only what the slice can answer; otherwise the source would panic. */
    predicate Safe(s: Size, a: u32) {
      InRange(s, a) ==> a - offset + s.Bytes() <= |bytes|
    }

    function Read(s: Size, a: u32): Result<u32>
      requires Safe(s, a)
    {
      if InRange(s, a) then Ok(Load(bytes, a - offset, s)) else Err(BusError(a))
    }

    function Write(s: Size, a: u32, v: u32): (r: (Image, Option<Fault>))
      requires Safe(s, a)
      ensures r.0.offset == offset && |r.0.bytes| == |bytes|
    {
      if InRange(s, a) then (Image(offset, Store(bytes, a - offset, s, v)), None) else (this, Some(BusError(a)))
    }
  }

  /** Exactly which accesses are safe: all but those that run over 2^32 and come round to below the
      end of the RAM. The bus passes 24-bit addresses, so all of its accesses are. */
  lemma SafeExactly(m: Image, s: Size, a: u32)
    requires m.offset + |m.bytes| < 0x1_0000_0000
    ensures m.Safe(s, a) <==>
            !(m.offset <= a && 0x1_0000_0000 < a + s.Bytes() <= 0x1_0000_0000 + m.offset + |m.bytes|)
  {
  }

  class RAM {
    const offset: u32
    const mem: array<u8>

    constructor (offset: u32, size: u32)
      ensures this.offset == offset && fresh(mem)
      ensures mem[..] == seq(size, _ => 0)
    {
      this.offset := offset;
      this.mem := new u8[size](_ => 0);
    }

    ghost function View(): Image
      reads mem
    {
      Image(offset, mem[..])
    }

    predicate Contains(address: u32)
      ensures Contains(address) <==> offset <= address < Wrap32(offset + mem.Length)
    {
      address >= offset && address < Wrap32(offset + mem.Length)
    }

    function AddressRange(): (u32, u32) {
      if mem.Length == 0 then (offset, offset) else (offset, Wrap32(offset + mem.Length - 1))
    }

    method Read(s: Size, address: u32) returns (r: Result<u32>)
      requires View().Safe(s, address)
      ensures r == View().Read(s, address)
    {
      var end := Wrap32(address + s.Bytes() - 1);
      if !(address >= offset && end < Wrap32(offset + mem.Length)) {
        return Err(BusError(address));
      }
      var idx := address - offset;
      match s {
        case Byte => return Ok(mem[idx]);
        case Word => return Ok((mem[idx] as int) * 0x100 + mem[idx + 1]);
        case Long =>
          return Ok((mem[idx] as int) * 0x100_0000 + (mem[idx + 1] as int) * 0x1_0000 +
                    (mem[idx + 2] as int) * 0x100 + mem[idx + 3]);
      }
    }

    method Write(s: Size, address: u32, value: u32) returns (fault: Option<Fault>)
      requires View().Safe(s, address)
      modifies mem
      ensures (View(), fault) == old(View()).Write(s, address, value)
    {
      var end := Wrap32(address + s.Bytes() - 1);
      if !(address >= offset && end < Wrap32(offset + mem.Length)) {
        return Some(BusError(address));
      }
      var idx := address - offset;
      match s {
        case Byte =>
          mem[idx] := value % 0x100;
        case Word =>
          mem[idx] := value / 0x100 % 0x100;
          mem[idx + 1] := value % 0x100;
        case Long =>
          mem[idx] := value / 0x100_0000 % 0x100;
          mem[idx + 1] := value / 0x1_0000 % 0x100;
          mem[idx + 2] := value / 0x100 % 0x100;
          mem[idx + 3] := value % 0x100;
      }
      return None;
    }
  }
}
