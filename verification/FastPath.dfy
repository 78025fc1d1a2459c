/** The CPU's shortcut around the bus for a lone RAM without wait states (cpu.go), against
    the word-by-word bus access it replaces. */
module FastPath {
  import opened Words
  import opened Memory
  import opened Devices
  import opened BusDecoder

  // ---- The bus with a single RAM, on the byte image ----

  function LoneCycleLoad(m: Image, s: Size, a: u24): Result<u32> {
    if m.Contains(a) then m.Read(s, a) else Err(BusError(a))
  }

  function LoneCycleStore(m: Image, s: Size, a: u24, v: u32): (r: (Image, Option<Fault>))
    ensures r.0.offset == m.offset && |r.0.bytes| == |m.bytes|
  {
    if m.Contains(a) then m.Write(s, a, v) else (m, Some(BusError(a)))
  }

  function LoneLoad(m: Image, s: Size, a: u24): Result<u32> {
    if Misaligned(s, a) then Err(AddressError(a))
    else if s == Long then
      match LoneCycleLoad(m, Word, a)
      case Err(f) => Err(f)
      case Ok(high) =>
        match LoneCycleLoad(m, Word, Address24(a + 2))
        case Err(f) => Err(f)
        case Ok(low) => Ok(JoinWords(high, low))
    else LoneCycleLoad(m, s, a)
  }

  function LoneStore(m: Image, s: Size, a: u24, v: u32): (r: (Image, Option<Fault>))
    ensures r.0.offset == m.offset && |r.0.bytes| == |m.bytes|
  {
    if Misaligned(s, a) then (m, Some(AddressError(a)))
    else if s == Long then
      var (first, fault) := LoneCycleStore(m, Word, a, v / 0x1_0000);
      if fault.Some? then (first, fault) else LoneCycleStore(first, Word, Address24(a + 2), v)
    else LoneCycleStore(m, s, a, v)
  }

  /** On a bus whose only device is a RAM, an access is determined by the RAM's image. */
  lemma LoneBus(ram: RAM, s: Size, a: u24, v: u32)
    ensures BusLoad([RamDevice(ram)], s, a) == LoneLoad(ram.View(), s, a)
    ensures BusStoreFault([RamDevice(ram)], s, a, v) == LoneStore(ram.View(), s, a, v).1
    ensures BusStore([RamDevice(ram)], ram.mem, ram.mem[..], s, a, v) == LoneStore(ram.View(), s, a, v).0.bytes
  {
    var devs := [RamDevice(ram)];
    var high := v / 0x1_0000;
    LoneBusCycle(ram, ram.mem[..], Word, a, high);
    LoneBusCycle(ram, LoneCycleStore(ram.View(), Word, a, high).0.bytes, Word, Address24(a + 2), v);
    LoneBusCycle(ram, ram.mem[..], s, a, v);
    hide CycleStore, CycleLoad, CycleFault, LoneCycleStore, LoneCycleLoad, JoinWords;
  }

  lemma LoneBusCycle(ram: RAM, bytes: seq<u8>, s: Size, a: u24, v: u32)
    requires |bytes| == ram.mem.Length
    ensures CycleStore([RamDevice(ram)], ram.mem, bytes, s, a, v) ==
            LoneCycleStore(Image(ram.offset, bytes), s, a, v).0.bytes
    ensures CycleFault([RamDevice(ram)], s, a, v) == LoneCycleStore(Image(ram.offset, bytes), s, a, v).1
    ensures CycleLoad([RamDevice(ram)], s, a) == LoneCycleLoad(ram.View(), s, a)
  {
    var devs := [RamDevice(ram)];
    assert devs[0] == RamDevice(ram);
    assert Decode(devs, a) == if ram.Contains(a) then Some(0) else None;
  }

  // ---- The shortcut ----

  /** fastRAMRead: all four bytes of a long at once. */
  function FastLoad(m: Image, s: Size, a: u24): Result<u32> {
    var len := Wrap32(|m.bytes|);
    if a < m.offset then Err(BusError(a))
    else
      var idx := a - m.offset;
      match s
      case Byte => if idx >= len then Err(BusError(a)) else Ok(Load(m.bytes, idx, Byte))
      case Word =>
        if a % 2 == 1 then Err(AddressError(a))
        else if idx + 1 >= len then Err(BusError(a))
        else Ok(Load(m.bytes, idx, Word))
      case Long =>
        if a % 2 == 1 then Err(AddressError(a))
        else if idx + 1 >= len then Err(BusError(a))
        else if idx + 3 >= len then Err(BusError(Address24(a + 2)))
        else Ok(Load(m.bytes, idx, Long))
  }

  /** fastRAMWrite: a long whose second word is out of range keeps its first word. */
  function FastStore(m: Image, s: Size, a: u24, v: u32): (r: (Image, Option<Fault>))
    ensures r.0.offset == m.offset && |r.0.bytes| == |m.bytes|
  {
    var len := Wrap32(|m.bytes|);
    if a < m.offset then (m, Some(BusError(a)))
    else
      var idx := a - m.offset;
      match s
      case Byte => if idx >= len then (m, Some(BusError(a))) else (Image(m.offset, Store(m.bytes, idx, Byte, v)), None)
      case Word =>
        if a % 2 == 1 then (m, Some(AddressError(a)))
        else if idx + 1 >= len then (m, Some(BusError(a)))
        else (Image(m.offset, Store(m.bytes, idx, Word, v)), None)
      case Long =>
        if a % 2 == 1 then (m, Some(AddressError(a)))
        else if idx + 1 >= len then (m, Some(BusError(a)))
        else if idx + 3 >= len then
          (Image(m.offset, Store(m.bytes, idx, Word, v / 0x1_0000)), Some(BusError(Address24(a + 2))))
        else (Image(m.offset, Store(m.bytes, idx, Long, v)), None)
  }

  /** readProgramFastWord/Long: the alignment test comes first here. */
  function FastFetch(m: Image, s: Size, a: u24): Result<u32>
    requires s != Byte
  {
    if a % 2 == 1 then Err(AddressError(a)) else FastLoad(m, s, a)
  }

  /** An odd word or long below the RAM: the shortcut reports a bus error, the bus an address error. */
  predicate OddBelow(m: Image, s: Size, a: u24) {
    Misaligned(s, a) && a < m.offset
  }

  /** A long at the last word of the address space: for its second word the bus wraps to address 0,
      the shortcut goes on to 0x1000000. Only when the RAM holds neither do both fail alike. */
  predicate WrapsAround(m: Image, s: Size, a: u24) {
    && s == Long && a == 0xff_fffe && m.offset <= a && a + 2 <= m.offset + |m.bytes|
    && (m.offset == 0 || a + 4 <= m.offset + |m.bytes|)
  }

  /** The RAM reaches beyond the 24-bit space from address 0 and holds w at both places. */
  predicate Mirrors(m: Image, w: int) {
    m.offset == 0 && |m.bytes| >= 0x100_0002 && Load16(m.bytes, 0) == w && Load16(m.bytes, 0x100_0000) == w
  }

  /** Nothing wraps as long as the end of the RAM is a uint32. */
  lemma NoWrap(m: Image, s: Size, a: u24)
    requires m.Unwrapped()
    ensures m.Contains(a) <==> m.offset <= a < m.offset + |m.bytes|
    ensures m.InRange(s, a) <==> m.offset <= a && a + s.Bytes() <= m.offset + |m.bytes|
  {
  }

  /** One cycle of the bus: byte or aligned word. */
  lemma LoneCycle(m: Image, s: Size, a: u24, v: u32)
    requires m.Unwrapped()
    ensures LoneCycleLoad(m, s, a) ==
            if m.offset <= a && a + s.Bytes() <= m.offset + |m.bytes| then Ok(Load(m.bytes, a - m.offset, s))
            else Err(BusError(a))
    ensures LoneCycleStore(m, s, a, v) ==
            if m.offset <= a && a + s.Bytes() <= m.offset + |m.bytes|
            then (Image(m.offset, Store(m.bytes, a - m.offset, s, v)), None) else (m, Some(BusError(a)))
  {
    NoWrap(m, s, a);
  }

  lemma JoinedWords(high: u16, low: u16)
    ensures JoinWords(high, low) == (high as int) * 0x1_0000 + low
  {
  }

  /** The two word cycles of an aligned long, case by case. */
  lemma LoneLong(m: Image, a: u24)
    requires m.Unwrapped() && a % 2 == 0
    ensures LoneLoad(m, Long, a) ==
            if a < m.offset || m.offset + |m.bytes| < a + 2 then Err(BusError(a))
            else if a == 0xff_fffe then
              if m.offset == 0 then Ok(JoinWords(Load16(m.bytes, a), Load16(m.bytes, 0))) else Err(BusError(0))
            else if m.offset + |m.bytes| < a + 4 then Err(BusError(a + 2))
            else Ok(JoinWords(Load16(m.bytes, a - m.offset), Load16(m.bytes, a + 2 - m.offset)))
  {
    hide LoneCycleLoad, LoneCycleStore, Load16, JoinWords, Store;
    LoneCycle(m, Word, a, 0);
    LoneCycle(m, Word, Address24(a + 2), 0);
  }

  lemma FastLong(m: Image, a: u24)
    requires m.Unwrapped() && a % 2 == 0
    ensures FastLoad(m, Long, a) ==
            if a < m.offset || m.offset + |m.bytes| < a + 2 then Err(BusError(a))
            else if m.offset + |m.bytes| < a + 4 then Err(BusError(Address24(a + 2)))
            else Ok(JoinWords(Load16(m.bytes, a - m.offset), Load16(m.bytes, a + 2 - m.offset)))
  {
    if m.offset <= a && a + 4 <= m.offset + |m.bytes| {
      JoinedWords(Load16(m.bytes, a - m.offset), Load16(m.bytes, a + 2 - m.offset));
    }
    hide Load16, JoinWords;
  }

  lemma FastLongRefines(m: Image, a: u24)
    requires m.Unwrapped() && a % 2 == 0
    ensures FastLoad(m, Long, a) == LoneLoad(m, Long, a) <==>
            (WrapsAround(m, Long, a) ==> m.offset == 0 && Mirrors(m, Load16(m.bytes, 0)))
  {
    LoneLong(m, a);
    FastLong(m, a);
    hide LoneLoad, FastLoad, Load16;
    if m.offset == 0 && a == 0xff_fffe && a + 4 <= |m.bytes| {
      JoinedWords(Load16(m.bytes, a), Load16(m.bytes, 0));
      JoinedWords(Load16(m.bytes, a), Load16(m.bytes, 0x100_0000));
    }
    hide JoinWords;
  }

  /** The shortcut refines a bus read: same value, same error, same error address. The exceptions are
      an odd access below the RAM, and a long over the end of the space whose second word differs. */
  lemma FastLoadRefines(m: Image, s: Size, a: u24)
    requires m.Unwrapped()
    ensures FastLoad(m, s, a) == LoneLoad(m, s, a) <==>
            !OddBelow(m, s, a) && (WrapsAround(m, s, a) ==> m.offset == 0 && Mirrors(m, Load16(m.bytes, 0)))
  {
    if s == Long && a % 2 == 0 {
      FastLongRefines(m, a);
    } else {
      LoneCycle(m, s, a, 0);
      hide LoneCycleLoad, Load;
    }
  }

  /** The same for writes, the memory left behind included; over the end of the space the two agree
      only where both places already hold what is written. */
  lemma FastStoreRefines(m: Image, s: Size, a: u24, v: u32)
    requires m.Unwrapped()
    ensures FastStore(m, s, a, v) == LoneStore(m, s, a, v) <==>
            !OddBelow(m, s, a) && (WrapsAround(m, s, a) ==> Mirrors(m, v % 0x1_0000))
  {
    if s == Long && a % 2 == 0 {
      FastLongStoreRefines(m, a, v);
    } else {
      LoneCycle(m, s, a, v);
      hide LoneCycleStore, Store;
    }
  }

  /** The shortcut's aligned long write, case by case. */
  lemma FastLongStore(m: Image, a: u24, v: u32)
    requires m.Unwrapped() && a % 2 == 0
    ensures FastStore(m, Long, a, v) ==
            if a < m.offset || m.offset + |m.bytes| < a + 2 then (m, Some(BusError(a)))
            else
              var first := Image(m.offset, Store16(m.bytes, a - m.offset, v / 0x1_0000));
              if m.offset + |m.bytes| < a + 4 then (first, Some(BusError(Address24(a + 2))))
              else (Image(m.offset, Store16(first.bytes, a + 2 - m.offset, v)), None)
  {
    hide Store16;
  }

  lemma FastLongStoreRefines(m: Image, a: u24, v: u32)
    requires m.Unwrapped() && a % 2 == 0
    ensures FastStore(m, Long, a, v) == LoneStore(m, Long, a, v) <==>
            (WrapsAround(m, Long, a) ==> Mirrors(m, v % 0x1_0000))
  {
    hide LoneStore, FastStore, Store16, Load16;
    LoneLongStore(m, a, v);
    FastLongStore(m, a, v);
    if m.offset == 0 && a == 0xff_fffe && a + 4 <= |m.bytes| {
      StoredAround(m.bytes, v);
    }
  }

  /** The second word of a long at the last word of the space, stored at address 0 or beyond the space. */
  lemma StoredAround(bytes: seq<u8>, v: u32)
    requires |bytes| >= 0x100_0002
    ensures var first := Store16(bytes, 0xff_fffe, v / 0x1_0000);
            Store16(first, 0x100_0000, v) == Store16(first, 0, v) <==>
            Load16(bytes, 0) == v % 0x1_0000 && Load16(bytes, 0x100_0000) == v % 0x1_0000
  {
    var first := Store16(bytes, 0xff_fffe, v / 0x1_0000);
    StoreLoad16(bytes, 0xff_fffe, v / 0x1_0000);
    assert Load16(first, 0) == Load16(bytes, 0) && Load16(first, 0x100_0000) == Load16(bytes, 0x100_0000);
    hide Store16, Load16;
    StoredElsewhere(first, 0, 0x100_0000, v);
  }

  /** The same word stored at two places gives the same bytes only if it was there already. */
  lemma StoredElsewhere(bytes: seq<u8>, i: nat, j: nat, v: int)
    requires i + 2 <= j && j + 2 <= |bytes|
    ensures Store16(bytes, j, v) == Store16(bytes, i, v) <==>
            Load16(bytes, i) == v % 0x1_0000 && Load16(bytes, j) == v % 0x1_0000
  {
    StoreLoad16(bytes, i, v);
    StoreLoad16(bytes, j, v);
    StoredAgain(bytes, i, v);
    StoredAgain(bytes, j, v);
    assert Load16(Store16(bytes, j, v), i) == Load16(bytes, i);
    assert Load16(Store16(bytes, i, v), j) == Load16(bytes, j);
    hide Load16, Store16;
  }

  lemma StoredAgain(bytes: seq<u8>, i: nat, v: int)
    requires i + 2 <= |bytes|
    ensures Load16(bytes, i) == v % 0x1_0000 ==> Store16(bytes, i, v) == bytes
  {
    assert v % 0x1_0000 == (v / 0x100 % 0x100) * 0x100 + v % 0x100;
  }

  /** The two word cycles of an aligned long write, case by case. */
  lemma LoneLongStore(m: Image, a: u24, v: u32)
    requires m.Unwrapped() && a % 2 == 0
    ensures LoneStore(m, Long, a, v) ==
            if a < m.offset || m.offset + |m.bytes| < a + 2 then (m, Some(BusError(a)))
            else
              var first := Image(m.offset, Store16(m.bytes, a - m.offset, v / 0x1_0000));
              if a == 0xff_fffe then
                if m.offset == 0 then (Image(0, Store16(first.bytes, 0, v)), None) else (first, Some(BusError(0)))
              else if m.offset + |m.bytes| < a + 4 then (first, Some(BusError(a + 2)))
              else (Image(m.offset, Store16(first.bytes, a + 2 - m.offset, v)), None)
  {
    LoneCycle(m, Word, a, v / 0x1_0000);
    LoneCycle(LoneCycleStore(m, Word, a, v / 0x1_0000).0, Word, Address24(a + 2), v);
    hide LoneCycleStore, Store16;
  }

  /** Instruction fetches test alignment first and so lose one of the exceptions. */
  lemma FastFetchRefines(m: Image, s: Size, a: u24)
    requires m.Unwrapped() && s != Byte
    ensures FastFetch(m, s, a) == LoneLoad(m, s, a) <==>
            (WrapsAround(m, s, a) ==> m.offset == 0 && Mirrors(m, Load16(m.bytes, 0)))
  {
    FastLoadRefines(m, s, a);
    hide LoneCycleLoad, Load;
  }

  /** fastRAM is set only where the bus would charge nothing, so the shortcut skips no wait state. */
  lemma FastPathIsFree(bus: Bus, s: Size, a: u24, failed: bool)
    requires bus.Valid() && bus.fastRAM.Some?
    ensures bus.devices == [RamDevice(bus.fastRAM.value)]
    ensures AccessStates(bus.devices, bus.waitStates, s, a, failed) == []
  {
    assert bus.devices[0].WaitStates().None?;
  }

  /** A word read at address 1 below a RAM at 0x1000: a bus error on the shortcut, an address error on the bus. */
  lemma OddWordBelow(bytes: seq<u8>)
    requires |bytes| == 0x1000
    ensures var m := Image(0x1000, bytes);
            FastLoad(m, Word, 1) == Err(BusError(1)) && LoneLoad(m, Word, 1) == Err(AddressError(1))
  {
  }

  /** A long read at the last word of a RAM filling all 16 MB: a bus error at 0 on the shortcut, the
      first word of the RAM as low half on the bus. */
  lemma LongAroundTheEnd(bytes: seq<u8>)
    requires |bytes| == 0x100_0000
    ensures var m := Image(0, bytes);
            FastLoad(m, Long, 0xff_fffe) == Err(BusError(0)) &&
            LoneLoad(m, Long, 0xff_fffe) == Ok(JoinWords(Load16(bytes, 0xff_fffe), Load16(bytes, 0)))
  {
    LoneLong(Image(0, bytes), 0xff_fffe);
    hide LoneLoad, Load16, JoinWords;
  }

  /** A RAM that reaches beyond the 24-bit space: the same long reads on at 0x1000000 on the shortcut. */
  lemma LongBeyondTheEnd(bytes: seq<u8>)
    requires |bytes| == 0x100_0004
    ensures var m := Image(0, bytes);
            FastLoad(m, Long, 0xff_fffe) == Ok(JoinWords(Load16(bytes, 0xff_fffe), Load16(bytes, 0x100_0000))) &&
            LoneLoad(m, Long, 0xff_fffe) == Ok(JoinWords(Load16(bytes, 0xff_fffe), Load16(bytes, 0)))
  {
    LoneLong(Image(0, bytes), 0xff_fffe);
    FastLong(Image(0, bytes), 0xff_fffe);
    hide LoneLoad, FastLoad, Load16, JoinWords;
  }
}
