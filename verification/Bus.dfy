/** The bus (bus.go): topology cache, address decoding, and accesses split into word cycles. */
module BusDecoder {
  import opened Words
  import opened Memory
  import opened Devices
  import opened PageMap

  /** The first device in list order that satisfies `hit`. */
  function First(devs: seq<Device>, hit: Device -> bool): (r: Option<nat>)
    ensures r.Some? ==> r.value < |devs| && hit(devs[r.value]) && forall j :: 0 <= j < r.value ==> !hit(devs[j])
    ensures r.None? ==> forall j :: 0 <= j < |devs| ==> !hit(devs[j])
  {
    if |devs| == 0 then None
    else
      var r := First(devs[..|devs| - 1], hit);
      if r.Some? then r else if hit(devs[|devs| - 1]) then Some(|devs| - 1) else None
  }

  predicate InMaskedRange(d: Device, a: int) {
    var r := MaskedRange(d);
    r.Some? && r.value.0 <= a <= r.value.1
  }

  predicate AnyWaits(devs: seq<Device>) {
    First(devs, (d: Device) => d.WaitStates().Some?).Some?
  }

  predicate AnyRanged(devs: seq<Device>) {
    First(devs, (d: Device) => MaskedRange(d).Some?).Some?
  }

  function FirstRanged(devs: seq<Device>, a: u24): Option<nat> {
    First(devs, (d: Device) => InMaskedRange(d, a))
  }

  function FirstContaining(devs: seq<Device>, a: u24): Option<nat> {
    First(devs, (d: Device) => d.Contains(a))
  }

  /** The decoding rule without caches: a lone device decodes by Contains; otherwise the first
      ranged match wins, and failing that the first device that contains the address. */
  function Decode(devs: seq<Device>, a: u24): (r: Option<nat>)
    ensures r.Some? ==> r.value < |devs|
  {
    if |devs| != 1 && FirstRanged(devs, a).Some? then FirstRanged(devs, a) else FirstContaining(devs, a)
  }

  function At(devs: seq<Device>, i: Option<nat>): Option<Device>
    requires i.Some? ==> i.value < |devs|
  {
    if i.Some? then Some(devs[i.value]) else None
  }

  /** The masked range the device names holds the address. */
  predicate Ranged(d: Device, a: u24) {
    d.AddressRange().Some? && Address24(d.AddressRange().value.0) <= a <= Address24(d.AddressRange().value.1)
  }

  /** The rule in full: a lone device answers what it contains; of several the first whose range holds
      the address, and if there is none the first that contains it. */
  lemma DecodeExactly(devs: seq<Device>, a: u24, i: nat)
    ensures Decode(devs, a) == Some(i) <==>
            i < |devs| &&
            if |devs| == 1 then devs[i].Contains(a)
            else if exists j :: 0 <= j < |devs| && Ranged(devs[j], a) then
              Ranged(devs[i], a) && forall j :: 0 <= j < i ==> !Ranged(devs[j], a)
            else devs[i].Contains(a) && forall j :: 0 <= j < i ==> !devs[j].Contains(a)
  {
    forall j | 0 <= j < |devs| ensures InMaskedRange(devs[j], a) <==> Ranged(devs[j], a) {
      IndexedExactly(devs[j], a);
    }
    hide MaskedRange;
  }

  /** With truthful ranges everywhere, decoding is a plain first-match scan of the list. */
  lemma DecodeIsFirstMatch(devs: seq<Device>, a: u24)
    requires forall i :: 0 <= i < |devs| ==> devs[i].Consistent()
    ensures Decode(devs, a) == FirstContaining(devs, a)
  {
    assert forall i :: 0 <= i < |devs| ==> (devs[i].Contains(a) <==> InMaskedRange(devs[i], a));
  }

  /** Unranged devices mixed in: the scan order is broken exactly when an unranged device is
      the first to contain the address and a ranged device after it covers it too. */
  lemma DecodeMixed(devs: seq<Device>, a: u24)
    requires forall i :: 0 <= i < |devs| && MaskedRange(devs[i]).Some? ==> devs[i].Consistent()
    ensures Decode(devs, a) == FirstContaining(devs, a) <==>
            !(|devs| != 1 && FirstContaining(devs, a).Some? &&
              MaskedRange(devs[FirstContaining(devs, a).value]).None? &&
              exists j :: FirstContaining(devs, a).value < j < |devs| && InMaskedRange(devs[j], a))
  {
    assert forall i :: 0 <= i < |devs| && InMaskedRange(devs[i], a) ==> devs[i].Contains(a);
    assert forall i :: 0 <= i < |devs| && MaskedRange(devs[i]).Some? && devs[i].Contains(a) ==>
             InMaskedRange(devs[i], a);
  }

  /** A list on which an earlier unranged device loses to a later ranged one. */
  lemma UnrangedLosesPriority(early: Device, late: Device)
    requires early == External(_ => true, None, None, (_, _) => Ok(0), (_, _, _) => None)
    requires late == External(_ => true, Some((0, 0xff_ffff)), None, (_, _) => Ok(1), (_, _, _) => None)
    ensures FirstContaining([early, late], 0) == Some(0) && Decode([early, late], 0) == Some(1)
  {
    var devs := [early, late];
    assert devs[1] == late && InMaskedRange(late, 0);
    assert devs[0].Contains(0) && !InMaskedRange(devs[0], 0);
  }

  /** Page p of the map answers for the ranged devices of the list, earlier ones first. */
  ghost predicate PageFor(page: seq<PageRange>, p: int, devs: seq<Device>) {
    && Sorted(page, p * 0x1_0000, p * 0x1_0000 + 0xffff)
    && forall a: u24 :: a / 0x1_0000 == p ==> Lookup(page, a) == At(devs, FirstRanged(devs, a))
  }

  ghost predicate MapFor(pages: seq<seq<PageRange>>, devs: seq<Device>) {
    |pages| == 256 && forall p :: 0 <= p < 256 ==> PageFor(pages[p], p, devs)
  }

  function EmptyPages(): seq<seq<PageRange>> {
    seq(256, _ => [])
  }

  lemma EmptyMap()
    ensures MapFor(EmptyPages(), []) && !AnyWaits([]) && !AnyRanged([])
  {
  }

  lemma AnyExtended(devs: seq<Device>, d: Device)
    ensures AnyWaits(devs + [d]) == (AnyWaits(devs) || d.WaitStates().Some?)
    ensures AnyRanged(devs + [d]) == (AnyRanged(devs) || MaskedRange(d).Some?)
  {
    assert (devs + [d])[..|devs|] == devs;
  }

  lemma NoWaits(devs: seq<Device>, i: nat)
    requires i < |devs|
    ensures !AnyWaits(devs) ==> devs[i].WaitStates().None?
  {
  }

  /** Adding a device's share of a page at the end of the list. */
  lemma PageExtended(before: seq<PageRange>, after: seq<PageRange>, p: int, devs: seq<Device>, d: Device, start: u24,
                     end: u24)
    requires 0 <= p < 256 && PageFor(before, p, devs) && Sorted(after, p * 0x1_0000, p * 0x1_0000 + 0xffff)
    requires p * 0x1_0000 <= start <= end <= p * 0x1_0000 + 0xffff
    requires forall a: u24 :: a / 0x1_0000 == p ==> (start <= a <= end <==> InMaskedRange(d, a))
    requires forall a: u24 :: Lookup(after, a) ==
               if Covered(before, a) then Lookup(before, a) else if start <= a <= end then Some(d) else None
    ensures PageFor(after, p, devs + [d])
  {
    forall a: u24 | a / 0x1_0000 == p
      ensures Lookup(after, a) == At(devs + [d], FirstRanged(devs + [d], a))
    {
      assert (devs + [d])[..|devs|] == devs;
      assert Lookup(before, a) == At(devs, FirstRanged(devs, a));
    }
  }

  lemma PageUntouched(page: seq<PageRange>, p: int, devs: seq<Device>, d: Device)
    requires 0 <= p < 256 && PageFor(page, p, devs)
    requires forall a: u24 :: a / 0x1_0000 == p ==> !InMaskedRange(d, a)
    ensures PageFor(page, p, devs + [d])
  {
    forall a: u24 | a / 0x1_0000 == p
      ensures Lookup(page, a) == At(devs + [d], FirstRanged(devs + [d], a))
    {
      assert (devs + [d])[..|devs|] == devs;
      assert Lookup(page, a) == At(devs, FirstRanged(devs, a));
    }
  }

  // ---- One access, described by the decoding rule alone ----

  ghost function Storage(devs: seq<Device>): set<array<u8>> {
    set i, o | 0 <= i < |devs| && o in devs[i].Storage() :: o
  }

  lemma StoragesAllocated(devs: seq<Device>)
    ensures forall m :: m in Storage(devs) ==> allocated(m)
    ensures forall i, m :: 0 <= i < |devs| && m in devs[i].Storage() ==> allocated(m)
  {
    forall i | 0 <= i < |devs| ensures forall m :: m in devs[i].Storage() ==> allocated(m) {
      StorageAllocated(devs[i]);
    }
  }

  /** A misaligned word or long access is refused before any cycle. */
  predicate Misaligned(s: Size, a: u24) {
    s != Byte && a % 2 == 1
  }

  ghost function CycleLoad(devs: seq<Device>, s: Size, a: u24): Result<u32>
    reads Storage(devs)
  {
    match Decode(devs, a)
    case None => Err(BusError(a))
    case Some(i) => devs[i].Loaded(s, a)
  }

  /** A long is two word cycles, high word first. */
  ghost function BusLoad(devs: seq<Device>, s: Size, a: u24): Result<u32>
    reads Storage(devs)
  {
    if Misaligned(s, a) then Err(AddressError(a))
    else if s == Long then
      match CycleLoad(devs, Word, a)
      case Err(f) => Err(f)
      case Ok(high) =>
        match CycleLoad(devs, Word, Address24(a + 2))
        case Err(f) => Err(f)
        case Ok(low) => Ok(JoinWords(high, low))
    else CycleLoad(devs, s, a)
  }

  /** (high << 16) | low on uint32 values, for words. */
  function JoinWords(high: u32, low: u32): u32 {
    Wrap32(Wrap32(high * 0x1_0000) + low % 0x1_0000)
  }

  function CycleFault(devs: seq<Device>, s: Size, a: u24, v: u32): Option<Fault> {
    match Decode(devs, a)
    case None => Some(BusError(a))
    case Some(i) => devs[i].StoreFault(s, a, v)
  }

  function BusStoreFault(devs: seq<Device>, s: Size, a: u24, v: u32): Option<Fault> {
    if Misaligned(s, a) then Some(AddressError(a))
    else if s == Long then
      match CycleFault(devs, Word, a, v / 0x1_0000)
      case Some(f) => Some(f)
      case None => CycleFault(devs, Word, Address24(a + 2), v)
    else CycleFault(devs, s, a, v)
  }

  /** The bytes of array m after one write cycle; only the decoded device's storage can change. */
  ghost function CycleStore(devs: seq<Device>, m: array<u8>, bytes: seq<u8>, s: Size, a: u24, v: u32): (r: seq<u8>)
    requires |bytes| == m.Length
    ensures |r| == |bytes|
  {
    match Decode(devs, a)
    case None => bytes
    case Some(i) => devs[i].Stored(m, bytes, s, a, v)
  }

  /** A long write keeps its first word even when the second cycle faults. */
  ghost function BusStore(devs: seq<Device>, m: array<u8>, bytes: seq<u8>, s: Size, a: u24, v: u32): (r: seq<u8>)
    requires |bytes| == m.Length
    ensures |r| == |bytes|
  {
    if Misaligned(s, a) then bytes
    else if s == Long then
      var first := CycleStore(devs, m, bytes, Word, a, v / 0x1_0000);
      if CycleFault(devs, Word, a, v / 0x1_0000).Some? then first
      else CycleStore(devs, m, first, Word, Address24(a + 2), v)
    else CycleStore(devs, m, bytes, s, a, v)
  }

  /** The wait states one cycle reports: the bus's own plus those of the decoded device. */
  function CycleStates(devs: seq<Device>, states: u32, s: Size, a: u24): seq<u32> {
    match Decode(devs, a)
    case None => []
    case Some(i) =>
      var charge := Charge(devs[i], states, s, a);
      if charge == 0 then [] else [charge]
  }

  /** The bus's wait states plus the device's own, as a uint32. */
  function Charge(d: Device, states: u32, s: Size, a: u24): u32 {
    match d.WaitStates()
    case None => states
    case Some(f) => Wrap32(states + f(s, a))
  }

  lemma CycleCharge(devs: seq<Device>, states: u32, s: Size, a: u24)
    ensures CycleStates(devs, states, s, a) ==
            match At(devs, Decode(devs, a))
            case None => []
            case Some(dev) =>
              var total := Wrap32(states + match dev.WaitStates() case None => 0 case Some(f) => f(s, a));
              if total > 0 then [total] else []
  {
    hide Decode;
  }

  /** The wait states of a whole access; `failed` tells whether its first cycle faulted. */
  function AccessStates(devs: seq<Device>, states: u32, s: Size, a: u24, failed: bool): seq<u32> {
    if Misaligned(s, a) then []
    else if s == Long && !failed then
      CycleStates(devs, states, Word, a) + CycleStates(devs, states, Word, Address24(a + 2))
    else CycleStates(devs, states, if s == Long then Word else s, a)
  }

  // ---- Laws of whole accesses, on any list of devices ----

  /** A byte or aligned word is one cycle, answered by the device the address decodes to. */
  lemma OneCycle(devs: seq<Device>, s: Size, a: u24, v: u32, i: nat)
    requires s != Long && (s == Byte || a % 2 == 0)
    ensures Decode(devs, a) == None ==>
              BusLoad(devs, s, a) == Err(BusError(a)) && BusStoreFault(devs, s, a, v) == Some(BusError(a))
    ensures Decode(devs, a) == Some(i) ==>
              BusLoad(devs, s, a) == devs[i].Loaded(s, a) && BusStoreFault(devs, s, a, v) == devs[i].StoreFault(s, a, v)
  {
    hide Decode, Device.Loaded, Device.StoreFault;
  }

  /** An aligned long read is the word read at its address and then the word read two bytes on, in the
      24-bit space; the first one to fail decides, otherwise the first gives the high half. */
  lemma LongReadIsTwoWords(devs: seq<Device>, a: u24)
    requires a % 2 == 0
    ensures var next := if a == 0xff_fffe then 0 else a + 2;
            var high, low := BusLoad(devs, Word, a), BusLoad(devs, Word, next);
            BusLoad(devs, Long, a) ==
            if high.Err? then high else if low.Err? then low
            else Ok(high.value % 0x1_0000 * 0x1_0000 + low.value % 0x1_0000)
  {
    hide CycleLoad, JoinWords, Address24, Decode;
    var next := NextWord(a);
    var high, low := BusLoad(devs, Word, a), BusLoad(devs, Word, next);
    if high.Ok? && low.Ok? { HalvesJoined(high.value, low.value); }
  }

  lemma WordAfter(a: u24)
    ensures var next := if a >= 0xff_fffe then a - 0xff_fffe else a + 2;
            Address24(a + 2) == next && next % 2 == a % 2
  {
  }

  lemma NextWord(a: u24) returns (next: u24)
    requires a % 2 == 0
    ensures next == Address24(a + 2) && next % 2 == 0 && next == if a == 0xff_fffe then 0 else a + 2
  {
    next := Address24(a + 2);
  }

  lemma HalvesJoined(high: u32, low: u32)
    ensures JoinWords(high, low) == high % 0x1_0000 * 0x1_0000 + low % 0x1_0000
  {
    var q, r := high / 0x1_0000, high % 0x1_0000;
    assert high == 0x1_0000 * q + r;
    assert Wrap32(high * 0x1_0000) == r * 0x1_0000 by {
      ModUnique(high * 0x1_0000, 0x1_0000_0000, q, r * 0x1_0000);
    }
  }

  /** An aligned long write is the word write of its high half and, unless that faults, the word write of
      its low half two bytes on. */
  lemma LongWriteIsTwoWords(devs: seq<Device>, m: array<u8>, bytes: seq<u8>, a: u24, v: u32)
    requires a % 2 == 0 && |bytes| == m.Length
    ensures var next := if a == 0xff_fffe then 0 else a + 2;
            var failed := BusStoreFault(devs, Word, a, v / 0x1_0000);
            var first := BusStore(devs, m, bytes, Word, a, v / 0x1_0000);
            BusStoreFault(devs, Long, a, v) == (if failed.Some? then failed else BusStoreFault(devs, Word, next, v)) &&
            BusStore(devs, m, bytes, Long, a, v) ==
            if failed.Some? then first else BusStore(devs, m, first, Word, next, v)
  {
    hide CycleStore, CycleFault, Address24, Decode;
    var next := NextWord(a);
  }

  /** It is charged as those two words, or as the first if that faults; a misaligned access as nothing. */
  lemma LongChargedAsTwoWords(devs: seq<Device>, states: u32, a: u24, failed: bool, other: bool)
    ensures var next := if a >= 0xff_fffe then a - 0xff_fffe else a + 2;
            var first := AccessStates(devs, states, Word, a, other);
            var second := AccessStates(devs, states, Word, next, other);
            AccessStates(devs, states, Long, a, failed) ==
            if a % 2 == 1 then [] else if failed then first else first + second
  {
    hide CycleStates, Address24, Decode, Charge;
    WordAfter(a);
  }

  class Bus {
    var devices: seq<Device>
    var waitStates: u32
    var hooked: bool
    var hookLog: seq<u32>          // the wait states the hook has received
    var singleDevice: Option<Device>
    var singleRAM: Option<RAM>
    var fastRAM: Option<RAM>
    var hasWaitStateDevices: bool
    var hasPageMap: bool
    var pageRanges: seq<seq<PageRange>>

    /** Every cached field says what a scan of the device list would say. */
    ghost predicate Valid()
      reads `devices, `waitStates, `singleDevice, `singleRAM, `fastRAM, `hasWaitStateDevices, `hasPageMap, `pageRanges
    {
      Indexed() && FastWhenFree()
    }

    /** What refreshTopology caches. */
    ghost predicate Indexed()
      reads `devices, `singleDevice, `singleRAM, `hasWaitStateDevices, `hasPageMap, `pageRanges
    {
      && singleDevice == (if |devices| == 1 then Some(devices[0]) else None)
      && singleRAM == (if |devices| == 1 && devices[0].RamDevice? then Some(devices[0].ram) else None)
      && hasWaitStateDevices == AnyWaits(devices)
      && hasPageMap == AnyRanged(devices)
      && MapFor(pageRanges, devices)
    }

    /** The shortcut is set for a lone RAM on a bus without wait states, and only for that. */
    ghost predicate FastWhenFree()
      reads `devices, `waitStates, `fastRAM
    {
      && (fastRAM.Some? <==> waitStates == 0 && |devices| == 1 && devices[0].RamDevice?)
      && (fastRAM.Some? ==> devices == [RamDevice(fastRAM.value)])
    }

    constructor (devices: seq<Device>)
      ensures Valid() && this.devices == devices && waitStates == 0 && !hooked && hookLog == []
    {
      this.devices := devices;
      waitStates, hooked, hookLog := 0, false, [];
      new;
      RefreshTopology();
    }

    method AddDevice(device: Device)
      requires Valid()
      modifies this
      ensures Valid() && devices == old(devices) + [device]
      ensures unchanged(`waitStates, `hooked, `hookLog)
    {
      devices := devices + [device];
      RefreshTopology();
    }

    method SetWaitStates(states: u32)
      requires Valid()
      modifies this
      ensures Valid() && waitStates == states && unchanged(`devices, `hooked, `hookLog)
    {
      waitStates := states;
      RefreshFastRAM();
    }

    method SetWaitHook(present: bool)
      requires Valid()
      modifies `hooked
      ensures Valid() && hooked == present
    {
      hooked := present;
    }

    method RefreshTopology()
      modifies this
      ensures Valid() && unchanged(`devices, `waitStates, `hooked, `hookLog)
    {
      hide MapFor, AnyWaits, AnyRanged, FastWhenFree;
      singleDevice, singleRAM, fastRAM := None, None, None;
      hasWaitStateDevices, hasPageMap := false, false;
      pageRanges := EmptyPages();
      EmptyMap();
      CacheSingle();
      FillIndex();
      RefreshFastRAM();
    }

    /** The lone device, if there is only one, and its RAM. */
    method CacheSingle()
      requires singleDevice == None && singleRAM == None
      modifies `singleDevice, `singleRAM
      ensures singleDevice == (if |devices| == 1 then Some(devices[0]) else None)
      ensures singleRAM == (if |devices| == 1 && devices[0].RamDevice? then Some(devices[0].ram) else None)
    {
      if |devices| == 1 {
        singleDevice := Some(devices[0]);
        if devices[0].RamDevice? {
          singleRAM := Some(devices[0].ram);
        }
      }
    }

    /** The device loop of refreshTopology. */
    method FillIndex()
      requires !hasWaitStateDevices && !hasPageMap && MapFor(pageRanges, [])
      modifies `hasWaitStateDevices, `hasPageMap, `pageRanges
      ensures hasWaitStateDevices == AnyWaits(devices) && hasPageMap == AnyRanged(devices)
      ensures MapFor(pageRanges, devices)
    {
      EmptyMap();
      hide MapFor, AnyWaits, AnyRanged;
      assert devices[..0] == [];
      for i := 0 to |devices|
        invariant hasWaitStateDevices == AnyWaits(devices[..i])
        invariant hasPageMap == AnyRanged(devices[..i])
        invariant MapFor(pageRanges, devices[..i])
      {
        assert devices[..i + 1] == devices[..i] + [devices[i]];
        AnyExtended(devices[..i], devices[i]);
        if devices[i].WaitStates().Some? {
          hasWaitStateDevices := true;
        }
        AddRanges(devices[i], devices[..i]);
      }
      assert devices[..|devices|] == devices;
    }

    /** The page loop of refreshTopology for one device. */
    method AddRanges(dev: Device, ghost before: seq<Device>)
      requires MapFor(pageRanges, before)
      modifies `pageRanges, `hasPageMap
      ensures MapFor(pageRanges, before + [dev])
      ensures hasPageMap == (old(hasPageMap) || MaskedRange(dev).Some?)
    {
      var range := dev.AddressRange();
      if range.None? {
        forall p | 0 <= p < 256 ensures PageFor(pageRanges[p], p, before + [dev]) {
          PageUntouched(pageRanges[p], p, before, dev);
        }
        return;
      }
      var start, end := Address24(range.value.0), Address24(range.value.1);
      if end < start {
        forall p | 0 <= p < 256 ensures PageFor(pageRanges[p], p, before + [dev]) {
          PageUntouched(pageRanges[p], p, before, dev);
        }
        return;
      }
      hasPageMap := true;
      ghost var was := pageRanges;
      var page := start / 0x1_0000;
      while page <= end / 0x1_0000
        invariant start / 0x1_0000 <= page <= end / 0x1_0000 + 1
        invariant hasPageMap && |pageRanges| == 256
        invariant forall p :: 0 <= p < 256 && start / 0x1_0000 <= p < page ==> PageFor(pageRanges[p], p, before + [dev])
        invariant forall p :: 0 <= p < 256 && !(start / 0x1_0000 <= p < page) ==> pageRanges[p] == was[p]
      {
        var pageStart := page * 0x1_0000;
        var rangeStart := if start > pageStart then start else pageStart;
        var pageEnd := pageStart + 0xffff;
        var rangeEnd := if end > pageEnd then pageEnd else end;
        assert PageFor(was[page], page, before);
        AddPageRange(page, rangeStart, rangeEnd, dev);
        PageExtended(was[page], pageRanges[page], page, before, dev, rangeStart, rangeEnd);
        page := page + 1;
      }
      forall p | 0 <= p < 256 ensures PageFor(pageRanges[p], p, before + [dev]) {
        if !(start / 0x1_0000 <= p <= end / 0x1_0000) {
          PageUntouched(pageRanges[p], p, before, dev);
        }
      }
    }

    /** Gives dev the part of [start, end] no earlier device covers. */
    method AddPageRange(page: nat, start: u24, end: u24, dev: Device)
      requires |pageRanges| == 256 && page < 256
      requires page * 0x1_0000 <= start && end <= page * 0x1_0000 + 0xffff
      requires Sorted(pageRanges[page], page * 0x1_0000, page * 0x1_0000 + 0xffff)
      modifies `pageRanges
      ensures |pageRanges| == 256
      ensures forall p :: 0 <= p < 256 && p != page ==> pageRanges[p] == old(pageRanges[p])
      ensures Sorted(pageRanges[page], page * 0x1_0000, page * 0x1_0000 + 0xffff)
      ensures forall a :: Covered(pageRanges[page], a) <==> Covered(old(pageRanges[page]), a) || start <= a <= end
      ensures forall a: u24 :: Lookup(pageRanges[page], a) ==
                if Covered(old(pageRanges[page]), a) then Lookup(old(pageRanges[page]), a)
                else if start <= a <= end then Some(dev) else None
    {
      if start > end {
        return;
      }
      var existing := pageRanges[page];
      var low, high := page * 0x1_0000, page * 0x1_0000 + 0xffff;
      var gaps := Uncovered(existing, start, end, dev);
      if |gaps| == 0 {
        assert forall a :: !Covered(gaps, a);
        return;
      }
      CoverageApart(existing, gaps, low, high);
      var merged := Merge(existing, gaps, low, high);
      pageRanges := pageRanges[page := merged];
      forall a {
        MergedLookup(existing, gaps, merged, low, high, a);
      }
    }

    method RefreshFastRAM()
      requires Indexed()
      modifies `fastRAM
      ensures Valid()
      ensures fastRAM.Some? <==> waitStates == 0 && |devices| == 1 && devices[0].RamDevice?
    {
      fastRAM := None;
      if waitStates != 0 || hasWaitStateDevices {
        return;
      }
      fastRAM := singleRAM;
    }

    method FindDevice(address: u24) returns (r: Option<Device>)
      requires Valid() && |devices| != 1
      ensures r == At(devices, Decode(devices, address))
    {
      if hasPageMap {
        var page := address / 0x1_0000;
        assert PageFor(pageRanges[page], page, devices);
        r := FindPageMappedDevice(pageRanges[page], address);
        if r.Some? {
          return;
        }
      }
      assert FirstRanged(devices, address).None?;
      for i := 0 to |devices|
        invariant forall k :: 0 <= k < i ==> !devices[k].Contains(address)
      {
        if devices[i].Contains(address) {
          return Some(devices[i]);
        }
      }
      return None;
    }

    /** All caches together decode as the list does. */
    method DeviceForAddress(address: u24) returns (r: Option<Device>)
      requires Valid()
      ensures r == At(devices, Decode(devices, address))
    {
      if singleRAM.Some? {
        if singleRAM.value.Contains(address) {
          return Some(RamDevice(singleRAM.value));
        }
        return None;
      }
      if singleDevice.Some? {
        if singleDevice.value.Contains(address) {
          return singleDevice;
        }
        return None;
      }
      r := FindDevice(address);
    }

    /** The early return never swallows a charge. */
    method Wait(size: Size, address: u24, dev: Device)
      requires Valid() && At(devices, Decode(devices, address)) == Some(dev)
      modifies `hookLog
      ensures var total := Wrap32(waitStates + match dev.WaitStates() case None => 0 case Some(f) => f(size, address));
              hookLog == old(hookLog) + if hooked && total > 0 then [total] else []
    {
      NoWaits(devices, Decode(devices, address).value);
      hide Decode, AnyWaits, AnyRanged, MapFor, FastWhenFree, Device.WaitStates;
      if !hooked || (waitStates == 0 && !hasWaitStateDevices) {
        return;
      }
      var states := waitStates;
      if hasWaitStateDevices {
        match dev.WaitStates() {
          case Some(f) => states := Wrap32(states + f(size, address));
          case None =>
        }
      }
      if states > 0 {
        hookLog := hookLog + [states];
      }
    }

    method ReadCycle(size: Size, address: u24) returns (r: Result<u32>)
      requires Valid()
      modifies `hookLog
      ensures r == CycleLoad(devices, size, address)
      ensures hookLog == old(hookLog) + if hooked then CycleStates(devices, waitStates, size, address) else []
    {
      hide Valid, Decode, CycleStates;
      CycleCharge(devices, waitStates, size, address);
      var dev := DeviceForAddress(address);
      if dev.None? {
        return Err(BusError(address));
      }
      Wait(size, address, dev.value);
      r := dev.value.Read(size, address);
    }

    method WriteCycle(size: Size, address: u24, value: u32) returns (fault: Option<Fault>)
      requires Valid()
      modifies `hookLog, Storage(devices)
      ensures fault == CycleFault(devices, size, address, value)
      ensures forall m: array<u8> :: allocated(m) && old(allocated(m)) ==>
                m[..] == CycleStore(devices, m, old(m[..]), size, address, value)
      ensures hookLog == old(hookLog) + if hooked then CycleStates(devices, waitStates, size, address) else []
    {
      hide Valid, Decode, CycleStates;
      CycleCharge(devices, waitStates, size, address);
      var dev := DeviceForAddress(address);
      if dev.None? {
        return Some(BusError(address));
      }
      Wait(size, address, dev.value);
      fault := dev.value.Write(size, address, value);
    }

    method Read(size: Size, addressIn: u32) returns (r: Result<u32>)
      requires Valid()
      modifies `hookLog
      ensures Valid()
      ensures r == BusLoad(devices, size, Address24(addressIn))
      ensures hookLog == old(hookLog) + if hooked
                then AccessStates(devices, waitStates, size, Address24(addressIn),
                                  CycleLoad(devices, Word, Address24(addressIn)).Err?)
                else []
    {
      hide Valid, CycleLoad, CycleStates;
      var address := Address24(addressIn);
      if Misaligned(size, address) {
        return Err(AddressError(address));
      }
      StoragesAllocated(devices);
      if size == Long {
        var high := ReadCycle(Word, address);
        if high.Err? {
          return high;
        }
        var low := ReadCycle(Word, Address24((address as int) + 2));
        if low.Err? {
          return low;
        }
        return Ok(JoinWords(high.value, low.value));
      }
      r := ReadCycle(size, address);
    }

    method Write(size: Size, addressIn: u32, value: u32) returns (fault: Option<Fault>)
      requires Valid()
      modifies `hookLog, Storage(devices)
      ensures Valid()
      ensures fault == BusStoreFault(devices, size, Address24(addressIn), value)
      ensures forall m: array<u8> :: allocated(m) && old(allocated(m)) ==>
                m[..] == BusStore(devices, m, old(m[..]), size, Address24(addressIn), value)
      ensures hookLog == old(hookLog) + if hooked
                then AccessStates(devices, waitStates, size, Address24(addressIn),
                                  CycleFault(devices, Word, Address24(addressIn), value / 0x1_0000).Some?)
                else []
    {
      hide Valid, CycleStore, CycleFault, CycleStates;
      var address := Address24(addressIn);
      if Misaligned(size, address) {
        return Some(AddressError(address));
      }
      if size == Long {
        fault := WriteCycle(Word, address, value / 0x1_0000);
        if fault.Some? {
          return;
        }
        fault := WriteCycle(Word, Address24((address as int) + 2), value);
        return;
      }
      fault := WriteCycle(size, address, value);
    }
  }
}
