/** Bus devices (bus.go, memory.go): what each kind covers, and what one bus cycle does to it. */
module Devices {
  import opened Words
  import opened Memory

  /** RAM, a device wrapped by MapDevice, or user code known only by its answers. */
  datatype Device =
    | RamDevice(ram: RAM)
    | MappedDevice(start: u32, end: u32, inner: Device)
    | External(contains: u32 -> bool, range: Option<(u32, u32)>, states: Option<(Size, u32) -> u32>,
               load: (Size, u32) -> Result<u32>, refuse: (Size, u32, u32) -> Option<Fault>)
  {
    predicate Contains(address: u32) {
      match this
      case RamDevice(ram) => ram.Contains(address)
      case MappedDevice(start, end, _) => start <= Address24(address) <= end
      case External(contains, _, _, _, _) => contains(address)
    }

    /** AddressRangeDevice, where implemented. */
    function AddressRange(): Option<(u32, u32)> {
      match this
      case RamDevice(ram) => Some(ram.AddressRange())
      case MappedDevice(start, end, _) => Some((start, end))
      case External(_, range, _, _, _) => range
    }

    /** WaitStateDevice, where implemented; MapDevice forwards the one of the device it wraps. */
    function WaitStates(): Option<(Size, u32) -> u32> {
      match this
      case RamDevice(_) => None
      case MappedDevice(_, _, inner) => inner.WaitStates()
      case External(_, _, states, _, _) => states
    }

    predicate ContainsAccess(size: Size, address: u32) {
      var a := Address24(address);
      Contains(a) && match this
                     case MappedDevice(_, end, _) => a + size.Bytes() - 1 <= end
                     case _ => true
    }

    /** The RAM behind the device, if its storage is part of the model. */
    function Backing(): Option<RAM> {
      match this
      case RamDevice(ram) => Some(ram)
      case MappedDevice(_, _, inner) => inner.Backing()
      case External(_, _, _, _, _) => None
    }

    ghost function Storage(): set<array<u8>> {
      match Backing() case Some(ram) => {ram.mem} case None => {}
    }

    /** What a read cycle answers. */
    ghost function Loaded(size: Size, address: u24): Result<u32>
      reads Storage()
    {
      match this
      case RamDevice(ram) => ram.View().Read(size, address)
      case MappedDevice(_, _, inner) =>
        if ContainsAccess(size, address) then inner.Loaded(size, address) else Err(BusError(address))
      case External(_, _, _, load, _) => load(size, address)
    }

    /** What a write cycle answers: no fault, or the fault raised. */
    function StoreFault(size: Size, address: u24, value: u32): Option<Fault> {
      match this
      case RamDevice(ram) =>
        if ram.Contains(address) && Wrap32(address + size.Bytes() - 1) < Wrap32(ram.offset + ram.mem.Length)
        then None else Some(BusError(address))
      case MappedDevice(_, _, inner) =>
        if ContainsAccess(size, address) then inner.StoreFault(size, address, value) else Some(BusError(address))
      case External(_, _, _, _, refuse) => refuse(size, address, value)
    }

    /** What a write cycle makes of the bytes held by array m. */
    ghost function Stored(m: array<u8>, bytes: seq<u8>, size: Size, address: u24, value: u32): (r: seq<u8>)
      requires |bytes| == m.Length
      ensures |r| == |bytes|
    {
      match this
      case RamDevice(ram) =>
        if ram.mem == m then Image(ram.offset, bytes).Write(size, address, value).0.bytes else bytes
      case MappedDevice(_, _, inner) =>
        if ContainsAccess(size, address) then inner.Stored(m, bytes, size, address, value) else bytes
      case External(_, _, _, _, _) => bytes
    }

    method Read(size: Size, address: u24) returns (r: Result<u32>)
      ensures r == Loaded(size, address)
    {
      match this {
        case RamDevice(ram) =>
          r := ram.Read(size, address);
        case MappedDevice(_, _, inner) =>
          if !ContainsAccess(size, address) {
            return Err(BusError(address));
          }
          r := inner.Read(size, address);
        case External(_, _, _, load, _) =>
          r := load(size, address);
      }
    }

    method Write(size: Size, address: u24, value: u32) returns (fault: Option<Fault>)
      modifies Storage()
      ensures fault == StoreFault(size, address, value)
      ensures forall m: array<u8> :: allocated(m) && old(allocated(m)) ==>
                m[..] == Stored(m, old(m[..]), size, address, value)
    {
      match this {
        case RamDevice(ram) =>
          fault := ram.Write(size, address, value);
        case MappedDevice(_, _, inner) =>
          if !ContainsAccess(size, address) {
            return Some(BusError(address));
          }
          fault := inner.Write(size, address, value);
        case External(_, _, _, _, refuse) =>
          fault := refuse(size, address, value);
      }
    }

    /** The device can be placed in the page map and the page map then agrees with Contains. */
    ghost predicate Consistent() {
      var r := MaskedRange(this);
      r.Some? && forall a: u24 :: Contains(a) <==> r.value.0 <= a <= r.value.1
    }
  }

  /** Storage reached from a device that exists does exist (needed to frame reads of it). */
  lemma StorageAllocated(d: Device)
    ensures forall m :: m in d.Storage() ==> allocated(m)
  {
    match d {
      case RamDevice(ram) => assert allocated(ram) && allocated(ram.mem) && d.Storage() == {ram.mem};
      case MappedDevice(_, _, inner) => StorageAllocated(inner); assert d.Storage() == inner.Storage();
      case External(_, _, _, _, _) => assert d.Storage() == {};
    }
  }

  function MapDevice(start: u32, end: u32, device: Device): Device {
    MappedDevice(Address24(start), Address24(end), device)
  }

  /** The 24-bit range under which the bus indexes a device; none when it is unranged or inverted. */
  function MaskedRange(d: Device): (r: Option<(u24, u24)>)
    ensures r.Some? ==> r.value.0 <= r.value.1
  {
    match d.AddressRange()
    case None => None
    case Some((start, end)) =>
      if Address24(end) < Address24(start) then None else Some((Address24(start), Address24(end)))
  }

  /** Exactly which RAMs the page map describes truthfully. The last disjunct is a RAM whose
      end wraps onto the last address of the 24-bit space. */
  lemma RamConsistent(ram: RAM)
    requires ram.mem.Length < 0x1_0000_0000
    ensures RamDevice(ram).Consistent() <==>
            var end := ram.offset + ram.mem.Length;
            0 < ram.mem.Length && ram.offset < 0x100_0000 && end < 0x1_0000_0000 &&
            (end <= 0x100_0000 || end % 0x100_0000 == 0)
  {
    hide Address24, Wrap32;
    var d := RamDevice(ram);
    var end24 := Address24(ram.AddressRange().1);
    RangeNumbers(ram.offset, ram.mem.Length);
    if d.Consistent() {
      assert d.Contains(Address24(ram.offset)) && d.Contains(end24);
      var beyond: u24 := if end24 < 0xff_ffff then end24 + 1 else end24;
      assert d.Contains(beyond) <==> ram.offset <= beyond < Wrap32(ram.offset + ram.mem.Length);
    }
  }

  lemma RangeNumbers(offset: u32, length: nat)
    requires length < 0x1_0000_0000
    ensures Address24(offset) <= offset && (offset < 0x100_0000 ==> Address24(offset) == offset)
    ensures var end := offset + length;
            Wrap32(end) == (if end < 0x1_0000_0000 then end else end - 0x1_0000_0000) &&
            (0 < end < 0x1_0000_0000 ==>
              var end24 := Address24(Wrap32(end - 1));
              (end <= 0x100_0000 ==> end24 == end - 1) &&
              (end > 0x100_0000 ==> end24 + 1 < end && (end24 == 0xff_ffff <==> end % 0x100_0000 == 0)))
  {
  }

  /** A mapped window is always consistent, unless it is inverted. */
  lemma MappedConsistent(start: u32, end: u32, device: Device)
    ensures MapDevice(start, end, device).Consistent() <==> Address24(start) <= Address24(end)
  {
  }

  /** A window hands an access on exactly when every byte of it lies in the window; otherwise it answers
      with a bus error itself and writes nothing. */
  lemma WindowExactly(start: u32, end: u32, inner: Device, s: Size, a: u24, v: u32, m: array<u8>, bytes: seq<u8>)
    requires |bytes| == m.Length
    ensures var d := MapDevice(start, end, inner);
            if forall k :: 0 <= k < s.Bytes() ==> Address24(start) <= ByteAt(a, k) <= Address24(end) then
              d.Loaded(s, a) == inner.Loaded(s, a) && d.StoreFault(s, a, v) == inner.StoreFault(s, a, v) &&
              d.Stored(m, bytes, s, a, v) == inner.Stored(m, bytes, s, a, v)
            else
              d.Loaded(s, a) == Err(BusError(a)) && d.StoreFault(s, a, v) == Some(BusError(a)) &&
              d.Stored(m, bytes, s, a, v) == bytes
  {
    hide Image.Read, Image.Write;
    assert ByteAt(a, 0) == a && ByteAt(a, s.Bytes() - 1) == a + s.Bytes() - 1;
    StorageAllocated(inner);
  }

  /** A window covers the masked range it was given and is, for wait states and storage, the device it
      wraps. */
  lemma WindowDescribed(start: u32, end: u32, inner: Device, a: u32)
    ensures var d := MapDevice(start, end, inner);
            (d.Contains(a) <==> Address24(start) <= Address24(a) <= Address24(end)) &&
            d.AddressRange() == Some((Address24(start) as u32, Address24(end) as u32)) &&
            d.WaitStates() == inner.WaitStates() && d.Storage() == inner.Storage()
  {
  }

  /** The address of byte k of an access. */
  function ByteAt(a: u24, k: int): int { a + k }

  /** The bus indexes a device under the address a exactly when its range, masked to 24 bits, holds a; an
      inverted range holds nothing. */
  lemma IndexedExactly(d: Device, a: u24)
    ensures (MaskedRange(d).Some? && MaskedRange(d).value.0 <= a <= MaskedRange(d).value.1) <==>
            d.AddressRange().Some? && Address24(d.AddressRange().value.0) <= a <= Address24(d.AddressRange().value.1)
  {
  }
}
