/** One exception entry (cpu.go): when it completes, where it leads, and what the frame it leaves
    on the stack reads back as. */
module ExceptionEntry {
  import opened Words
  import opened Memory
  import opened BusDecoder
  import opened FastPath
  import opened Status
  import opened Core
  import opened CoreMemory

  lemma Pushed(c: State, s: Size, v: u32)
    requires c.mem.Inside24() && s != Byte && Ceiling(c.regs.A[7]) >= s.Bytes()
    requires PushException(c, s, v).1.None?
    ensures var d := PushException(c, s, v).0;
            var low := Ceiling(c.regs.A[7]) - s.Bytes();
            d.regs == WithA7(c.regs, Wrap32(c.regs.A[7] as int - s.Bytes())) && Address24(d.regs.A[7]) == low &&
            low % 2 == 0 && SameOutside(c, d, low, low + s.Bytes()) && Holds(d.mem, s, low, v % s.Modulus())
  {
    var sp := Wrap32(c.regs.A[7] as int - s.Bytes());
    AddressMinus(c.regs.A[7], s.Bytes());
    Written(c.(regs := WithA7(c.regs, sp)), s, sp, v, SYSTEM_DATA);
    hide Write, Holds, Address24, Wrap32;
  }

  lemma VectoredKeeps(c: State, vector: nat)
    requires vector <= 255
    ensures var d := Vectored(c, vector).0; d.mem == c.mem && d.fast == c.fast && d.regs == c.regs.(PC := d.regs.PC)
  {
    hide Read;
  }

  /** PC and then SR pushed below the stack pointer. */
  lemma PushedFrame(c: State, pc: u32, sr: u16)
    requires c.mem.Inside24() && Ceiling(c.regs.A[7]) >= 6
    requires PushException(c, Long, pc).1.None? && PushException(PushException(c, Long, pc).0, Word, sr).1.None?
    ensures var d := PushException(PushException(c, Long, pc).0, Word, sr).0;
            var low := Ceiling(c.regs.A[7]) - 6;
            d.regs == WithA7(c.regs, Wrap32(c.regs.A[7] as int - 6)) && Address24(d.regs.A[7]) == low && low % 2 == 0 &&
            SameOutside(c, d, low, low + 6) && Holds(d.mem, Word, low, sr) && Holds(d.mem, Long, low + 2, pc)
  {
    hide PushException, Holds, Address24, Wrap32;
    var low := Ceiling(c.regs.A[7]) - 6;
    var c1 := PushException(c, Long, pc).0;
    var c2 := PushException(c1, Word, sr).0;
    Pushed(c, Long, pc);
    Pushed(c1, Word, sr);
    MinusTwice(c.regs.A[7], 4, 2);
    HoldsOn(c1, c2, Long, low + 2, pc, low, low + 2);
    SameJoined(c, c1, c2, low, low + 2, low + 6);
    hide SameOutside;
  }

  /** Two pushes that succeed in a RAM without both ends of the address space do not pass address 0. */
  lemma FrameHasRoom(c: State, pc: u32, sr: u16)
    requires c.mem.Inside24() && NoStraddle(c.mem, c.regs.A[7], 6)
    requires PushException(c, Long, pc).1.None? && PushException(PushException(c, Long, pc).0, Word, sr).1.None?
    ensures Ceiling(c.regs.A[7]) >= 6
  {
    hide Address24, Wrap32, Write;
    if Ceiling(c.regs.A[7]) < 6 {
      var c1 := PushException(c, Long, pc).0;
      PushedInside(c, Long, pc);
      PushedInside(c1, Word, sr);
      if Ceiling(c.regs.A[7]) < 4 {
        AddressAround(c.regs.A[7], 4);
      } else {
        AddressMinus(c.regs.A[7], 4);
        AddressAround(c.regs.A[7], 6);
        MinusTwice(c.regs.A[7], 4, 2);
      }
    }
  }

  lemma PushedInside(c: State, s: Size, v: u32)
    requires c.mem.Inside24() && |c.mem.bytes| < 0x100_0000
    ensures var (d, f) := PushException(c, s, v);
            (f.None? <==> Inside(c.mem, s, Wrap32(c.regs.A[7] as int - s.Bytes()))) &&
            d.regs.A[7] == Wrap32(c.regs.A[7] as int - s.Bytes()) && d.mem.offset == c.mem.offset &&
            |d.mem.bytes| == |c.mem.bytes|
  {
    var sp := Wrap32(c.regs.A[7] as int - s.Bytes());
    StoreInside(c.mem, c.fast, s, sp, v);
    hide Core.Store, Inside, Memory.Store, Wrap32;
  }

  /** Group 1/2 entry: the frame is where A7 points, and nothing else in memory changes. */
  lemma Entered(c: State, vector: nat, newSR: u16, stackedPC: u32)
    requires c.mem.Inside24() && vector <= 255 && Supervisor(newSR) && NoStraddle(c.mem, SuperSP(c.regs), 6)
    requires RaiseException(c, vector, newSR, stackedPC).1.None?
    ensures var d := RaiseException(c, vector, newSR, stackedPC).0;
            var low := Ceiling(SuperSP(c.regs)) - 6;
            d.regs.SR == newSR && UserSP(d.regs) == UserSP(c.regs) &&
            d.regs.A[7] == Wrap32(SuperSP(c.regs) as int - 6) && Address24(d.regs.A[7]) == low && low % 2 == 0 &&
            SameOutside(c, d, low, low + 6) && Holds(d.mem, Word, low, c.regs.SR) &&
            Holds(d.mem, Long, low + 2, stackedPC)
  {
    var c0 := c.(regs := SetSR(c.regs, newSR));
    SetSRKeepsStackPointers(c.regs, newSR);
    FrameHasRoom(c0, stackedPC, c.regs.SR);
    PushedFrame(c0, stackedPC, c.regs.SR);
    VectoredKeeps(PushException(PushException(c0, Long, stackedPC).0, Word, c.regs.SR).0, vector);
    hide PushException, Vectored, Holds, Supervisor, SetSR, Address24, Wrap32;
  }

  lemma WroteOne(c: State, sp: u32, writes: seq<FrameWrite>)
    requires c.mem.Inside24() && |writes| > 0 && writes[0].size != Byte
    requires Address24(sp) + writes[0].displacement + writes[0].size.Bytes() <= 0x100_0000
    requires WriteFrame(c, sp, writes).1.None?
    ensures var w := writes[0];
            var d := WroteNext(c, sp, writes);
            var low := Address24(sp) + w.displacement;
            WriteFrame(c, sp, writes) == WriteFrame(d, sp, writes[1..]) && d.regs == c.regs && d.fault == c.fault &&
            SameOutside(c, d, low, low + w.size.Bytes()) && Holds(d.mem, w.size, low, w.value % w.size.Modulus()) &&
            low % 2 == 0
  {
    hide Write, Holds, SameOutside, Address24, Wrap32;
    var w := writes[0];
    AddressPlus(sp, w.displacement);
    Written(c, w.size, Wrap32(sp + w.displacement), w.value, SYSTEM_DATA);
  }

  /** The state after the first of several frame writes. */
  function WroteNext(c: State, sp: u32, writes: seq<FrameWrite>): State
    requires |writes| > 0
  {
    Write(c, writes[0].size, Wrap32(sp + writes[0].displacement), writes[0].value, SYSTEM_DATA).0
  }

  // ---- Frames as lists of writes ----

  /** The writes lie one after the other within [from, total), as words and longs. */
  ghost predicate Layout(writes: seq<FrameWrite>, from: nat, total: nat)
    decreases |writes|
  {
    if writes == [] then from <= total
    else
      && writes[0].size != Byte && from <= writes[0].displacement
      && writes[0].displacement + writes[0].size.Bytes() <= total
      && Layout(writes[1..], writes[0].displacement + writes[0].size.Bytes(), total)
  }

  /** Memory above low holds what the writes put there. */
  ghost predicate FrameHolds(mem: Image, low: int, writes: seq<FrameWrite>)
    decreases |writes|
  {
    writes != [] ==>
      Holds(mem, writes[0].size, low + writes[0].displacement, writes[0].value % writes[0].size.Modulus()) &&
      FrameHolds(mem, low, writes[1..])
  }

  predicate AllInside(mem: Image, sp: u32, writes: seq<FrameWrite>)
    decreases |writes|
  {
    writes != [] ==> Inside(mem, writes[0].size, Wrap32(sp + writes[0].displacement)) && AllInside(mem, sp, writes[1..])
  }

  lemma {:induction false} LayoutStarts(writes: seq<FrameWrite>, from: nat, total: nat)
    requires Layout(writes, from, total)
    ensures from <= total
  {
    if writes != [] { LayoutStarts(writes[1..], writes[0].displacement + writes[0].size.Bytes(), total); }
  }

  /** A frame written without a fault is in memory, and nothing else has changed. */
  lemma {:induction false} WroteAll(c: State, sp: u32, writes: seq<FrameWrite>, from: nat, total: nat)
    requires c.mem.Inside24() && Address24(sp) + total <= 0x100_0000 && Layout(writes, from, total)
    requires WriteFrame(c, sp, writes).1.None?
    ensures var d := WriteFrame(c, sp, writes).0;
            var low := Address24(sp);
            d.regs == c.regs && SameOutside(c, d, low + from, low + total) && FrameHolds(d.mem, low, writes)
    decreases |writes|
  {
    hide Write, Holds, SameOutside, Address24, Wrap32;
    if writes == [] {
      Unchanged(c, Address24(sp) + from, Address24(sp) + total);
    } else {
      var w := writes[0];
      var low: int := Address24(sp);
      var next := w.displacement + w.size.Bytes();
      LayoutStarts(writes[1..], next, total);
      WroteOne(c, sp, writes);
      var c1 := WroteNext(c, sp, writes);
      SameShape(c, c1, low + w.displacement, low + next);
      WroteAll(c1, sp, writes[1..], next, total);
      var d := WriteFrame(c1, sp, writes[1..]).0;
      HoldsOn(c1, d, w.size, low + w.displacement, w.value % w.size.Modulus(), low + next, low + total);
      SameUpwards(c, c1, d, low + from, low + w.displacement, low + next, low + total);
    }
  }

  lemma Unchanged(c: State, low: int, high: int)
    ensures SameOutside(c, c, low, high)
  {
  }

  lemma SameShape(c: State, d: State, low: int, high: int)
    requires SameOutside(c, d, low, high)
    ensures d.fast == c.fast && d.mem.offset == c.mem.offset && |d.mem.bytes| == |c.mem.bytes|
  {
  }

  lemma SameUpwards(c: State, d: State, e: State, low: int, a: int, b: int, high: int)
    requires low <= a <= b <= high && SameOutside(c, d, a, b) && SameOutside(d, e, b, high)
    ensures SameOutside(c, e, low, high)
  {
  }

  lemma {:induction false} FrameHoldsAt(mem: Image, low: int, writes: seq<FrameWrite>, i: nat)
    requires FrameHolds(mem, low, writes) && i < |writes|
    ensures Holds(mem, writes[i].size, low + writes[i].displacement, writes[i].value % writes[i].size.Modulus())
    decreases i
  {
    hide Holds;
    if i > 0 { FrameHoldsAt(mem, low, writes[1..], i - 1); }
  }

  /** Writing a frame succeeds exactly when every one of its words and longs lies in RAM. */
  lemma {:induction false} WritesExactly(c: State, sp: u32, writes: seq<FrameWrite>, from: nat, total: nat)
    requires c.mem.Inside24() && Address24(sp) + total <= 0x100_0000 && Layout(writes, from, total)
    ensures WriteFrame(c, sp, writes).1.None? <==> AllInside(c.mem, sp, writes)
    decreases |writes|
  {
    hide Write, Address24, Wrap32, Inside;
    if writes != [] {
      var w := writes[0];
      AddressInside(sp, w.displacement, w.size, total);
      WriteExactly(c, w.size, Wrap32(sp + w.displacement), w.value, SYSTEM_DATA);
      var c1 := Write(c, w.size, Wrap32(sp + w.displacement), w.value, SYSTEM_DATA).0;
      WritesExactly(c1, sp, writes[1..], w.displacement + w.size.Bytes(), total);
      SameInside(c.mem, c1.mem, sp, writes[1..]);
    }
  }

  lemma {:induction false} SameInside(m: Image, n: Image, sp: u32, writes: seq<FrameWrite>)
    requires n.offset == m.offset && |n.bytes| == |m.bytes|
    ensures AllInside(m, sp, writes) == AllInside(n, sp, writes)
    decreases |writes|
  {
    hide Address24, Wrap32;
    if writes != [] { SameInside(m, n, sp, writes[1..]); }
  }

  lemma AddressInside(sp: u32, displacement: nat, size: Size, total: nat)
    requires displacement + size.Bytes() <= total && Address24(sp) + total <= 0x100_0000
    ensures Address24(Wrap32(sp + displacement)) == Address24(sp) + displacement
    ensures Address24(Wrap32(sp + displacement)) + size.Bytes() <= 0x100_0000
  {
    AddressPlus(sp, displacement);
    hide Address24, Wrap32;
  }

  lemma WriteExactly(c: State, s: Size, a: u32, v: u32, ctx: Context)
    requires c.mem.Inside24() && Address24(a) + s.Bytes() <= 0x100_0000
    ensures Write(c, s, a, v, ctx).1.None? <==> Inside(c.mem, s, a)
    ensures var d := Write(c, s, a, v, ctx).0;
            d.fast == c.fast && d.mem.offset == c.mem.offset && |d.mem.bytes| == |c.mem.bytes|
  {
    StoreInside(c.mem, c.fast, s, a, v);
    hide Core.Store, Inside, Memory.Store;
  }

  /** A read that does not run over the end of the address space succeeds exactly inside RAM. */
  lemma LoadExactly(mem: Image, fast: bool, s: Size, a: u32)
    requires mem.Inside24() && Address24(a) + s.Bytes() <= 0x100_0000
    ensures Core.Load(mem, fast, s, a) ==
            if Inside(mem, s, a) then Ok(Memory.Load(mem.bytes, Address24(a) - mem.offset, s))
            else Core.Load(mem, fast, s, a)
    ensures Core.Load(mem, fast, s, a).Ok? <==> Inside(mem, s, a)
  {
    if Inside(mem, s, a) {
      LoadInside(mem, fast, s, a);
    } else {
      OutsideFaults(mem, s, Address24(a));
    }
    hide Core.Load, Memory.Load;
  }

  /** In a RAM without both ends of the address space no access runs over its end. */
  lemma LoadsExactly(mem: Image, fast: bool, s: Size, a: u32)
    requires mem.Inside24() && |mem.bytes| < 0x100_0000
    ensures Core.Load(mem, fast, s, a).Ok? <==> Inside(mem, s, a)
  {
    if Inside(mem, s, a) {
      LoadInside(mem, fast, s, a);
    } else if Address24(a) + s.Bytes() <= 0x100_0000 {
      OutsideFaults(mem, s, Address24(a));
    } else {
      RunningOverFaults(mem, s, Address24(a));
    }
    hide Core.Load, Memory.Load;
  }

  lemma RunningOverFaults(mem: Image, s: Size, a: u24)
    requires mem.Inside24() && |mem.bytes| < 0x100_0000 && a + s.Bytes() > 0x100_0000
    ensures FastLoad(mem, s, a).Err? && LoneLoad(mem, s, a).Err?
  {
    if s == Long && a % 2 == 0 {
      LoneLong(mem, a);
      FastLong(mem, a);
      hide FastLoad, LoneLoad, Load16, JoinWords;
    }
  }

  lemma OutsideFaults(mem: Image, s: Size, a: u24)
    requires mem.Inside24() && a + s.Bytes() <= 0x100_0000
    requires !(mem.offset <= a && a + s.Bytes() <= mem.offset + |mem.bytes| && (s != Byte ==> a % 2 == 0))
    ensures FastLoad(mem, s, a).Err? && LoneLoad(mem, s, a).Err?
  {
    if s == Long && a % 2 == 0 {
      LoneLong(mem, a);
      FastLong(mem, a);
      hide LoneLoad, FastLoad, Load16, JoinWords;
    } else {
      LoneCycle(mem, s, a, 0);
      hide LoneCycleLoad, Memory.Load;
    }
  }

  // ---- The handler ----

  /** Where exception `vector` leads: its table entry, or the uninitialised-interrupt entry if that is 0. */
  function HandlerOf(mem: Image, vector: nat): Option<u32>
    requires vector <= 255
  {
    if !Inside(mem, Long, vector * 4) then None
    else
      var handler := LongAt(mem, vector * 4);
      if handler != 0 then Some(handler) else if Inside(mem, Long, 60) then Some(LongAt(mem, 60)) else None
  }

  function LongAt(mem: Image, a: nat): u32 {
    if mem.offset <= a && a + 4 <= mem.offset + |mem.bytes| then Memory.Load(mem.bytes, a - mem.offset, Long) else 0
  }

  lemma VectoredExactly(c: State, vector: nat)
    requires c.mem.Inside24() && vector <= 255
    ensures var (d, f) := Vectored(c, vector);
            (f.None? <==> HandlerOf(c.mem, vector).Some?) && d.mem == c.mem &&
            (f.None? ==> d.regs == c.regs.(PC := HandlerOf(c.mem, vector).value))
  {
    hide Read, LongAt, Inside, Address24;
    ReadExactly(c, vector * 4);
    ReadExactly(c, 60);
  }

  lemma ReadExactly(c: State, a: u32)
    requires c.mem.Inside24() && a < 0x400
    ensures var (d, r) := Read(c, Long, a, SYSTEM_PROGRAM);
            if Inside(c.mem, Long, a) then d == c && r == Ok(LongAt(c.mem, a)) else r.Err? && d.mem == c.mem
  {
    assert Address24(a) == a;
    hide Address24, Core.Load, Memory.Load;
    LoadExactly(c.mem, c.fast, Long, a);
  }

  // ---- Entries ----

  /** n bytes below `top` are there to hold a frame. */
  predicate FrameFits(mem: Image, top: int, n: nat) {
    top % 2 == 0 && mem.offset <= top - n && top <= mem.offset + |mem.bytes|
  }

  /** Exactly when a group 1/2 entry completes, and where it leads. */
  lemma EntryOutcome(c: State, vector: nat, newSR: u16, stackedPC: u32)
    requires c.mem.Inside24() && vector <= 255 && Supervisor(newSR) && NoStraddle(c.mem, SuperSP(c.regs), 6)
    ensures var (d, f) := RaiseException(c, vector, newSR, stackedPC);
            (f.None? <==> FrameFits(c.mem, Ceiling(SuperSP(c.regs)), 6) && HandlerOf(d.mem, vector).Some?) &&
            (f.None? ==> d.regs.PC == HandlerOf(d.mem, vector).value)
  {
    hide Supervisor, Address24, Wrap32, HandlerOf, Inside, Write, Vectored;
    SetSRKeepsStackPointers(c.regs, newSR);
    var c0 := c.(regs := SetSR(c.regs, newSR));
    hide SetSR, SuperSP;
    var top := c0.regs.A[7];
    var (c1, f1) := PushException(c0, Long, stackedPC);
    if Ceiling(top) < 6 {
      if f1.None? && PushException(c1, Word, c.regs.SR).1.None? { FrameHasRoom(c0, stackedPC, c.regs.SR); }
      return;
    }
    PushExactly(c0, Long, stackedPC);
    if f1.None? {
      AddressMinus(top, 4);
      PushExactly(c1, Word, c.regs.SR);
      var (c2, f2) := PushException(c1, Word, c.regs.SR);
      if f2.None? { VectoredExactly(c2, vector); }
    }
  }

  /** One push succeeds exactly when its bytes lie in RAM and are aligned. */
  lemma PushExactly(c: State, s: Size, v: u32)
    requires c.mem.Inside24() && s != Byte && Ceiling(c.regs.A[7]) >= s.Bytes()
    ensures var (d, f) := PushException(c, s, v);
            (f.None? <==> FrameFits(c.mem, Ceiling(c.regs.A[7]), s.Bytes())) &&
            d.regs == WithA7(c.regs, Wrap32(c.regs.A[7] as int - s.Bytes())) &&
            d.fast == c.fast && d.mem.offset == c.mem.offset && |d.mem.bytes| == |c.mem.bytes|
  {
    hide Write, Address24, Wrap32, Inside, FrameFits;
    var sp := Wrap32(c.regs.A[7] as int - s.Bytes());
    AddressMinus(c.regs.A[7], s.Bytes());
    InsideAt(c.mem, s, sp, Address24(sp));
    EvenBelow(c.mem, Ceiling(c.regs.A[7]), s);
    WriteExactly(c.(regs := WithA7(c.regs, sp)), s, sp, v, SYSTEM_DATA);
  }

  lemma InsideAt(mem: Image, s: Size, a: u32, at: int)
    requires s != Byte && Address24(a) == at
    ensures Inside(mem, s, a) <==> mem.offset <= at && at + s.Bytes() <= mem.offset + |mem.bytes| && at % 2 == 0
  {
    hide Address24;
  }

  lemma EvenBelow(mem: Image, top: int, s: Size)
    requires s != Byte
    ensures FrameFits(mem, top, s.Bytes()) <==>
            mem.offset <= top - s.Bytes() && top <= mem.offset + |mem.bytes| && (top - s.Bytes()) % 2 == 0
  {
  }

  lemma Group0Layout(info: FaultInfo, sr: u16)
    ensures Layout(Group0Frame(info, sr), 0, 14)
  {
    var w := Group0Frame(info, sr);
    assert w[1..][1..] == w[2..] && w[2..][1..] == w[3..] && w[3..][1..] == w[4..] && w[4..][1..] == [];
    assert Layout([], 14, 14) && Layout(w[4..], 10, 14) && Layout(w[3..], 8, 14) && Layout(w[2..], 6, 14) &&
           Layout(w[1..], 2, 14);
  }

  lemma EvenInside(mem: Image, s: Size, sp: u32, displacement: nat)
    requires s != Byte && displacement % 2 == 0 && Address24(sp) + displacement < 0x100_0000
    ensures Inside(mem, s, Wrap32(sp + displacement)) <==>
            mem.offset <= Address24(sp) + displacement &&
            Address24(sp) + displacement + s.Bytes() <= mem.offset + |mem.bytes| &&
            Address24(sp) % 2 == 0
  {
    AddressPlus(sp, displacement);
    InsideAt(mem, s, Wrap32(sp + displacement), Address24(sp) + displacement);
    hide Address24, Wrap32, Inside;
  }

  lemma Group0Inside(mem: Image, sp: u32, info: FaultInfo, sr: u16)
    requires Address24(sp) + 14 <= 0x100_0000
    ensures AllInside(mem, sp, Group0Frame(info, sr)) <==> FrameFits(mem, Address24(sp) + 14, 14)
  {
    var w := Group0Frame(info, sr);
    assert w[1..][1..] == w[2..] && w[2..][1..] == w[3..] && w[3..][1..] == w[4..] && w[4..][1..] == [];
    assert Wrap32(sp + 0) == sp;
    hide Address24, Wrap32, Inside;
    var low: int := Address24(sp);
    EvenInside(mem, Word, sp, 0);
    EvenInside(mem, Long, sp, 2);
    EvenInside(mem, Word, sp, 6);
    EvenInside(mem, Word, sp, 8);
    EvenInside(mem, Long, sp, 10);
    assert AllInside(mem, sp, []);
    assert AllInside(mem, sp, w[4..]) <==> Inside(mem, Long, Wrap32(sp + 10));
    assert AllInside(mem, sp, w[3..]) <==> Inside(mem, Word, Wrap32(sp + 8)) && Inside(mem, Long, Wrap32(sp + 10));
    assert AllInside(mem, sp, w[2..]) <==>
           Inside(mem, Word, Wrap32(sp + 6)) && Inside(mem, Word, Wrap32(sp + 8)) && Inside(mem, Long, Wrap32(sp + 10));
  }

  /** The group 0 frame: SR lies at sp + 8 and PC at sp + 10, below them the description of the fault. */
  lemma WroteGroup0(c: State, sp: u32, info: FaultInfo, sr: u16)
    requires c.mem.Inside24() && Address24(sp) + 14 <= 0x100_0000
    requires WriteFrame(c, sp, Group0Frame(info, sr)).1.None?
    ensures var d := WriteFrame(c, sp, Group0Frame(info, sr)).0;
            var low := Address24(sp);
            d.regs == c.regs && low % 2 == 0 && SameOutside(c, d, low, low + 14) &&
            Holds(d.mem, Word, low, StatusWord(info)) && Holds(d.mem, Long, low + 2, info.address) &&
            Holds(d.mem, Word, low + 6, info.ir) && Holds(d.mem, Word, low + 8, sr) &&
            Holds(d.mem, Long, low + 10, info.pc)
  {
    hide Holds, Address24, Wrap32, Write, StatusWord, WriteFrame, FrameHolds, Layout, AllInside;
    var w := Group0Frame(info, sr);
    var d := WriteFrame(c, sp, w).0;
    var low := Address24(sp);
    Group0Layout(info, sr);
    Group0Inside(c.mem, sp, info, sr);
    WritesExactly(c, sp, w, 0, 14);
    WroteAll(c, sp, w, 0, 14);
    FrameHoldsAt(d.mem, low, w, 0);
    FrameHoldsAt(d.mem, low, w, 1);
    FrameHoldsAt(d.mem, low, w, 2);
    FrameHoldsAt(d.mem, low, w, 3);
    FrameHoldsAt(d.mem, low, w, 4);
    hide SameOutside;
  }

  lemma {:induction false} SuccessInside(c: State, sp: u32, writes: seq<FrameWrite>)
    requires c.mem.Inside24() && |c.mem.bytes| < 0x100_0000 && WriteFrame(c, sp, writes).1.None?
    ensures AllInside(c.mem, sp, writes)
    decreases |writes|
  {
    hide Address24, Wrap32, Inside, Write;
    if writes != [] {
      var w := writes[0];
      WroteInside(c, w.size, Wrap32(sp + w.displacement), w.value, SYSTEM_DATA);
      var c1 := Write(c, w.size, Wrap32(sp + w.displacement), w.value, SYSTEM_DATA).0;
      SuccessInside(c1, sp, writes[1..]);
      SameInside(c.mem, c1.mem, sp, writes[1..]);
    }
  }

  lemma WroteInside(c: State, s: Size, a: u32, v: u32, ctx: Context)
    requires c.mem.Inside24() && |c.mem.bytes| < 0x100_0000
    ensures Write(c, s, a, v, ctx).1.None? <==> Inside(c.mem, s, a)
  {
    StoreInside(c.mem, c.fast, s, a, v);
    hide Core.Store, Inside, Memory.Store;
  }

  /** The five writes in a RAM without both ends of the address space do not pass address 0. */
  lemma Group0HasRoom(c: State, a7: u32, info: FaultInfo, sr: u16)
    requires c.mem.Inside24() && NoStraddle(c.mem, a7, 14)
    requires WriteFrame(c, Wrap32(a7 as int - 14), Group0Frame(info, sr)).1.None?
    ensures Ceiling(a7) >= 14
  {
    hide Address24, Wrap32, WriteFrame, Inside, AllInside, Group0Frame;
    if Ceiling(a7) < 14 {
      var sp := Wrap32(a7 as int - 14);
      SuccessInside(c, sp, Group0Frame(info, sr));
      Group0Parts(c.mem, sp, info, sr);
      AddressAround(a7, 14);
      WordInside(c.mem, Word, sp, 0);
      WordInside(c.mem, Long, sp, 2);
      WordInside(c.mem, Word, sp, 6);
      WordInside(c.mem, Word, sp, 8);
      WordInside(c.mem, Long, sp, 10);
    }
  }

  lemma Group0Parts(mem: Image, sp: u32, info: FaultInfo, sr: u16)
    requires AllInside(mem, sp, Group0Frame(info, sr))
    ensures Inside(mem, Word, Wrap32(sp + 0)) && Inside(mem, Long, Wrap32(sp + 2)) && Inside(mem, Word, Wrap32(sp + 6))
    ensures Inside(mem, Word, Wrap32(sp + 8)) && Inside(mem, Long, Wrap32(sp + 10))
  {
    hide Inside, Wrap32;
    var w := Group0Frame(info, sr);
    assert w[1..][1..] == w[2..] && w[2..][1..] == w[3..] && w[3..][1..] == w[4..];
    assert AllInside(mem, sp, w[1..]);
    assert AllInside(mem, sp, w[2..]);
    assert AllInside(mem, sp, w[3..]);
    assert AllInside(mem, sp, w[4..]);
  }

  /** Where a word or long of the frame lies, on either side of address 0. */
  lemma WordInside(mem: Image, s: Size, sp: u32, displacement: nat)
    requires s != Byte && displacement <= 14 && Inside(mem, s, Wrap32(sp + displacement))
    ensures var low := Address24(sp) + displacement;
            var a := if low >= 0x100_0000 then low - 0x100_0000 else low;
            mem.offset <= a && a + s.Bytes() <= mem.offset + |mem.bytes|
  {
    AddressUp(sp, displacement);
    hide Address24, Wrap32;
  }

  /** Group 0 entry: after the 8 bytes of fault information comes an ordinary frame. */
  lemma EnteredGroup0(c: State, vector: nat, newSR: u16)
    requires c.mem.Inside24() && vector <= 255 && Supervisor(newSR) && NoStraddle(c.mem, SuperSP(c.regs), 14)
    requires RaiseGroup0(c, vector, newSR).1.None?
    ensures var d := RaiseGroup0(c, vector, newSR).0;
            var low := Ceiling(SuperSP(c.regs)) - 14;
            d.regs.SR == newSR && UserSP(d.regs) == UserSP(c.regs) &&
            d.regs.A[7] == Wrap32(SuperSP(c.regs) as int - 14) && Address24(d.regs.A[7]) == low && low % 2 == 0 &&
            SameOutside(c, d, low, low + 14) &&
            Holds(d.mem, Word, low, StatusWord(c.fault)) && Holds(d.mem, Long, low + 2, c.fault.address) &&
            Holds(d.mem, Word, low + 6, c.fault.ir) && Holds(d.mem, Word, low + 8, c.regs.SR) &&
            Holds(d.mem, Long, low + 10, c.fault.pc)
  {
    var regs := SetSR(c.regs, newSR);
    SetSRKeepsStackPointers(c.regs, newSR);
    var sp := Wrap32(regs.A[7] as int - 14);
    var c0 := c.(regs := WithA7(regs, sp));
    Group0HasRoom(c0, regs.A[7], c.fault, c.regs.SR);
    AddressMinus(regs.A[7], 14);
    WroteGroup0(c0, sp, c.fault, c.regs.SR);
    VectoredKeeps(WriteFrame(c0, sp, Group0Frame(c.fault, c.regs.SR)).0, vector);
    hide WriteFrame, StatusWord, Vectored, Holds, Supervisor, SetSR, Address24, Wrap32, SameOutside;
  }

  /** Exactly when a bus or address error entry completes, and where it leads. */
  lemma Group0Outcome(c: State, vector: nat, newSR: u16)
    requires c.mem.Inside24() && vector <= 255 && Supervisor(newSR) && NoStraddle(c.mem, SuperSP(c.regs), 14)
    ensures var (d, f) := RaiseGroup0(c, vector, newSR);
            (f.None? <==> FrameFits(c.mem, Ceiling(SuperSP(c.regs)), 14) && HandlerOf(d.mem, vector).Some?) &&
            (f.None? ==> d.regs.PC == HandlerOf(d.mem, vector).value)
  {
    hide Supervisor, Address24, Wrap32, HandlerOf, AllInside, WriteFrame, Vectored, Group0Frame, Layout;
    SetSRKeepsStackPointers(c.regs, newSR);
    var regs := SetSR(c.regs, newSR);
    var sp := Wrap32(regs.A[7] as int - 14);
    var c0 := c.(regs := WithA7(regs, sp));
    if Ceiling(regs.A[7]) < 14 {
      if WriteFrame(c0, sp, Group0Frame(c.fault, c.regs.SR)).1.None? {
        Group0HasRoom(c0, regs.A[7], c.fault, c.regs.SR);
      }
      return;
    }
    AddressMinus(regs.A[7], 14);
    Group0Layout(c.fault, c.regs.SR);
    Group0Inside(c.mem, sp, c.fault, c.regs.SR);
    WritesExactly(c0, sp, Group0Frame(c.fault, c.regs.SR), 0, 14);
    var (c1, f1) := WriteFrame(c0, sp, Group0Frame(c.fault, c.regs.SR));
    if f1.None? {
      WroteAll(c0, sp, Group0Frame(c.fault, c.regs.SR), 0, 14);
      SameShape(c0, c1, Address24(sp), Address24(sp) + 14);
      VectoredExactly(c1, vector);
    }
  }

  // ---- The same, told from the memory before the entry ----

  /** Memory once the writes of a frame at low are done. */
  function FrameImage(mem: Image, low: int, writes: seq<FrameWrite>): (m: Image)
    ensures m.offset == mem.offset && |m.bytes| == |mem.bytes|
    decreases |writes|
  {
    if writes == [] then mem
    else FrameImage(WordImage(mem, low + writes[0].displacement, writes[0].size, writes[0].value), low, writes[1..])
  }

  /** Memory once v is stored at a, if there is room. */
  function WordImage(mem: Image, a: int, s: Size, v: u32): (m: Image)
    ensures m.offset == mem.offset && |m.bytes| == |mem.bytes|
  {
    if mem.offset <= a && a + s.Bytes() <= mem.offset + |mem.bytes|
    then Image(mem.offset, Memory.Store(mem.bytes, a - mem.offset, s, v))
    else mem
  }

  /** The 6-byte frame, in the order it is pushed. */
  function Group12Frame(sr: u16, pc: u32): seq<FrameWrite> {
    [FrameWrite(Long, 2, pc), FrameWrite(Word, 0, sr)]
  }

  lemma StoredImage(c: State, s: Size, a: u32, v: u32, ctx: Context)
    requires c.mem.Inside24() && Inside(c.mem, s, a)
    ensures Write(c, s, a, v, ctx).0.mem == WordImage(c.mem, Address24(a), s, v) && Write(c, s, a, v, ctx).1.None?
  {
    StoreInside(c.mem, c.fast, s, a, v);
    hide Core.Store, Memory.Store;
  }

  /** Where the frame fits, entry leaves exactly memory with the frame in it. */
  lemma EntryImage(c: State, vector: nat, newSR: u16, stackedPC: u32)
    requires c.mem.Inside24() && vector <= 255 && Supervisor(newSR)
    requires FrameFits(c.mem, Ceiling(SuperSP(c.regs)), 6)
    ensures RaiseException(c, vector, newSR, stackedPC).0.mem ==
            FrameImage(c.mem, Ceiling(SuperSP(c.regs)) - 6, Group12Frame(c.regs.SR, stackedPC))
  {
    hide Supervisor, Address24, Wrap32, Vectored, WordImage, PushException;
    SetSRKeepsStackPointers(c.regs, newSR);
    var c0 := c.(regs := SetSR(c.regs, newSR));
    hide SetSR, SuperSP;
    var top := Ceiling(c0.regs.A[7]);
    var writes := Group12Frame(c.regs.SR, stackedPC);
    PushImage(c0, Long, stackedPC);
    PushExactly(c0, Long, stackedPC);
    var c1 := PushException(c0, Long, stackedPC).0;
    AddressMinus(c0.regs.A[7], 4);
    PushImage(c1, Word, c.regs.SR);
    PushExactly(c1, Word, c.regs.SR);
    VectoredKeeps(PushException(c1, Word, c.regs.SR).0, vector);
    var m1 := WordImage(c.mem, top - 4, Long, stackedPC);
    assert writes[1..] == [writes[1]] && writes[1..][1..] == [];
    assert FrameImage(m1, top - 6, writes[1..]) == WordImage(m1, top - 6, Word, c.regs.SR);
  }

  lemma PushImage(c: State, s: Size, v: u32)
    requires c.mem.Inside24() && s != Byte && Ceiling(c.regs.A[7]) >= s.Bytes() &&
             FrameFits(c.mem, Ceiling(c.regs.A[7]), s.Bytes())
    ensures PushException(c, s, v).0.mem == WordImage(c.mem, Ceiling(c.regs.A[7]) - s.Bytes(), s, v)
  {
    hide Write, Address24, Wrap32, Inside, FrameFits, WordImage;
    var sp := Wrap32(c.regs.A[7] as int - s.Bytes());
    AddressMinus(c.regs.A[7], s.Bytes());
    InsideAt(c.mem, s, sp, Address24(sp));
    EvenBelow(c.mem, Ceiling(c.regs.A[7]), s);
    StoredImage(c.(regs := WithA7(c.regs, sp)), s, sp, v, SYSTEM_DATA);
  }

  /** Exactly when a group 1/2 entry completes, and where it leads, for any stack pointer with room:
      the frame may even overlay the vector table, and then the handler is read from under it. */
  lemma EntryExactly(c: State, vector: nat, newSR: u16, stackedPC: u32)
    requires c.mem.Inside24() && vector <= 255 && Supervisor(newSR) && NoStraddle(c.mem, SuperSP(c.regs), 6)
    ensures var (d, f) := RaiseException(c, vector, newSR, stackedPC);
            var top := Ceiling(SuperSP(c.regs));
            var handler := HandlerOf(FrameImage(c.mem, top - 6, Group12Frame(c.regs.SR, stackedPC)), vector);
            (f.None? <==> FrameFits(c.mem, top, 6) && handler.Some?) && (f.None? ==> d.regs.PC == handler.value)
  {
    hide Supervisor, Address24, HandlerOf, FrameFits, RaiseException, SuperSP, FrameImage, Group12Frame;
    EntryOutcome(c, vector, newSR, stackedPC);
    if FrameFits(c.mem, Ceiling(SuperSP(c.regs)), 6) { EntryImage(c, vector, newSR, stackedPC); }
  }

  lemma {:induction false} WritesImage(c: State, sp: u32, writes: seq<FrameWrite>, from: nat, total: nat)
    requires c.mem.Inside24() && Address24(sp) + total <= 0x100_0000 && Layout(writes, from, total) &&
             AllInside(c.mem, sp, writes)
    ensures WriteFrame(c, sp, writes).0.mem == FrameImage(c.mem, Address24(sp), writes)
    decreases |writes|
  {
    hide Write, Address24, Wrap32, Inside, WordImage;
    if writes != [] {
      var w := writes[0];
      AddressInside(sp, w.displacement, w.size, total);
      StoredImage(c, w.size, Wrap32(sp + w.displacement), w.value, SYSTEM_DATA);
      var c1 := Write(c, w.size, Wrap32(sp + w.displacement), w.value, SYSTEM_DATA).0;
      SameInside(c.mem, c1.mem, sp, writes[1..]);
      WritesImage(c1, sp, writes[1..], w.displacement + w.size.Bytes(), total);
    }
  }

  lemma Group0Image(c: State, vector: nat, newSR: u16)
    requires c.mem.Inside24() && vector <= 255 && Supervisor(newSR)
    requires FrameFits(c.mem, Ceiling(SuperSP(c.regs)), 14)
    ensures RaiseGroup0(c, vector, newSR).0.mem ==
            FrameImage(c.mem, Ceiling(SuperSP(c.regs)) - 14, Group0Frame(c.fault, c.regs.SR))
  {
    hide Supervisor, Address24, Wrap32, WriteFrame, Vectored, Group0Frame, Layout, AllInside, FrameImage;
    SetSRKeepsStackPointers(c.regs, newSR);
    var regs := SetSR(c.regs, newSR);
    hide SetSR, SuperSP;
    var sp := Wrap32(regs.A[7] as int - 14);
    AddressMinus(regs.A[7], 14);
    var c0 := c.(regs := WithA7(regs, sp));
    Group0Layout(c.fault, c.regs.SR);
    Group0Inside(c.mem, sp, c.fault, c.regs.SR);
    WritesExactly(c0, sp, Group0Frame(c.fault, c.regs.SR), 0, 14);
    WritesImage(c0, sp, Group0Frame(c.fault, c.regs.SR), 0, 14);
    VectoredKeeps(WriteFrame(c0, sp, Group0Frame(c.fault, c.regs.SR)).0, vector);
  }

  /** The same for bus and address errors. */
  lemma Group0Exactly(c: State, vector: nat, newSR: u16)
    requires c.mem.Inside24() && vector <= 255 && Supervisor(newSR) && NoStraddle(c.mem, SuperSP(c.regs), 14)
    ensures var (d, f) := RaiseGroup0(c, vector, newSR);
            var top := Ceiling(SuperSP(c.regs));
            var handler := HandlerOf(FrameImage(c.mem, top - 14, Group0Frame(c.fault, c.regs.SR)), vector);
            (f.None? <==> FrameFits(c.mem, top, 14) && handler.Some?) && (f.None? ==> d.regs.PC == handler.value)
  {
    hide Supervisor, Address24, HandlerOf, FrameFits, RaiseGroup0, SuperSP, FrameImage, Group0Frame;
    Group0Outcome(c, vector, newSR);
    if FrameFits(c.mem, Ceiling(SuperSP(c.regs)), 14) { Group0Image(c, vector, newSR); }
  }

  /** [low, high) keeps clear of the vector's table entry and of the fallback entry. */
  predicate ClearOfTable(low: int, high: int, vector: nat) {
    (high <= vector * 4 || vector * 4 + 4 <= low) && (high <= 60 || 64 <= low)
  }

  lemma HandlerKept(c: State, d: State, low: int, high: int, vector: nat)
    requires c.mem.Inside24() && vector <= 255 && SameOutside(c, d, low, high) && ClearOfTable(low, high, vector)
    ensures HandlerOf(d.mem, vector) == HandlerOf(c.mem, vector)
  {
    LongKept(c, d, low, high, vector * 4);
    LongKept(c, d, low, high, 60);
    hide LongAt, Address24;
  }

  lemma LongKept(c: State, d: State, low: int, high: int, a: nat)
    requires SameOutside(c, d, low, high) && (high <= a || a + 4 <= low)
    ensures LongAt(d.mem, a) == LongAt(c.mem, a)
  {
    if c.mem.offset <= a && a + 4 <= c.mem.offset + |c.mem.bytes| {
      LoadFrame(c.mem.bytes, d.mem.bytes, a - c.mem.offset, Long);
    }
    hide Memory.Load;
  }

  /** A frame that fits is written, whether or not the handler is then found. */
  lemma FramePushed(c: State, vector: nat, newSR: u16, stackedPC: u32)
    requires c.mem.Inside24() && vector <= 255 && Supervisor(newSR)
    requires FrameFits(c.mem, Ceiling(SuperSP(c.regs)), 6)
    ensures SameOutside(c, RaiseException(c, vector, newSR, stackedPC).0, Ceiling(SuperSP(c.regs)) - 6,
                        Ceiling(SuperSP(c.regs)))
  {
    hide Supervisor, Address24, Wrap32, PushException, Vectored, Holds, SameOutside;
    SetSRKeepsStackPointers(c.regs, newSR);
    var c0 := c.(regs := SetSR(c.regs, newSR));
    hide SetSR, SuperSP;
    var c1 := PushException(c0, Long, stackedPC).0;
    var c2 := PushException(c1, Word, c.regs.SR).0;
    PushExactly(c0, Long, stackedPC);
    AddressMinus(c0.regs.A[7], 4);
    PushExactly(c1, Word, c.regs.SR);
    PushedFrame(c0, stackedPC, c.regs.SR);
    VectoredKeeps(c2, vector);
    SameMemory(c0, c, c2, Vectored(c2, vector).0, Ceiling(c0.regs.A[7]) - 6, Ceiling(c0.regs.A[7]));
  }

  lemma SameMemory(c: State, c': State, d: State, d': State, low: int, high: int)
    requires SameOutside(c, d, low, high) && c'.mem == c.mem && c'.fast == c.fast && d'.mem == d.mem &&
             d'.fast == d.fast
    ensures SameOutside(c', d', low, high)
  {
  }

  /** What a caller can look up beforehand: unless the frame overlays the table entries, a group 1/2
      entry completes exactly when it fits and the handler is readable, and leads to that handler. */
  lemma EntryForeseen(c: State, vector: nat, newSR: u16, stackedPC: u32)
    requires c.mem.Inside24() && vector <= 255 && Supervisor(newSR) && NoStraddle(c.mem, SuperSP(c.regs), 6)
    requires ClearOfTable(Ceiling(SuperSP(c.regs)) - 6, Ceiling(SuperSP(c.regs)), vector)
    ensures var (d, f) := RaiseException(c, vector, newSR, stackedPC);
            (f.None? <==> FrameFits(c.mem, Ceiling(SuperSP(c.regs)), 6) && HandlerOf(c.mem, vector).Some?) &&
            (f.None? ==> d.regs.PC == HandlerOf(c.mem, vector).value)
  {
    hide Supervisor, Address24, HandlerOf, FrameFits, RaiseException, SuperSP, SameOutside, ClearOfTable;
    EntryOutcome(c, vector, newSR, stackedPC);
    var top := Ceiling(SuperSP(c.regs));
    if FrameFits(c.mem, top, 6) {
      FramePushed(c, vector, newSR, stackedPC);
      HandlerKept(c, RaiseException(c, vector, newSR, stackedPC).0, top - 6, top, vector);
    }
  }

  lemma Group0Pushed(c: State, vector: nat, newSR: u16)
    requires c.mem.Inside24() && vector <= 255 && Supervisor(newSR)
    requires FrameFits(c.mem, Ceiling(SuperSP(c.regs)), 14)
    ensures SameOutside(c, RaiseGroup0(c, vector, newSR).0, Ceiling(SuperSP(c.regs)) - 14, Ceiling(SuperSP(c.regs)))
  {
    hide Supervisor, Address24, Wrap32, WriteFrame, Vectored, Group0Frame, Holds, SameOutside, Layout, AllInside,
         StatusWord;
    SetSRKeepsStackPointers(c.regs, newSR);
    var regs := SetSR(c.regs, newSR);
    hide SetSR, SuperSP;
    var sp := Wrap32(regs.A[7] as int - 14);
    AddressMinus(regs.A[7], 14);
    var c0 := c.(regs := WithA7(regs, sp));
    Group0Layout(c.fault, c.regs.SR);
    Group0Inside(c.mem, sp, c.fault, c.regs.SR);
    WritesExactly(c0, sp, Group0Frame(c.fault, c.regs.SR), 0, 14);
    var c1 := WriteFrame(c0, sp, Group0Frame(c.fault, c.regs.SR)).0;
    WroteGroup0(c0, sp, c.fault, c.regs.SR);
    VectoredKeeps(c1, vector);
    SameMemory(c0, c, c1, Vectored(c1, vector).0, Ceiling(regs.A[7]) - 14, Ceiling(regs.A[7]));
  }

  /** The same for bus and address errors. */
  lemma Group0Foreseen(c: State, vector: nat, newSR: u16)
    requires c.mem.Inside24() && vector <= 255 && Supervisor(newSR) && NoStraddle(c.mem, SuperSP(c.regs), 14)
    requires ClearOfTable(Ceiling(SuperSP(c.regs)) - 14, Ceiling(SuperSP(c.regs)), vector)
    ensures var (d, f) := RaiseGroup0(c, vector, newSR);
            (f.None? <==> FrameFits(c.mem, Ceiling(SuperSP(c.regs)), 14) && HandlerOf(c.mem, vector).Some?) &&
            (f.None? ==> d.regs.PC == HandlerOf(c.mem, vector).value)
  {
    hide Supervisor, Address24, HandlerOf, FrameFits, RaiseGroup0, SuperSP, SameOutside, ClearOfTable;
    Group0Outcome(c, vector, newSR);
    var top := Ceiling(SuperSP(c.regs));
    if FrameFits(c.mem, top, 14) {
      Group0Pushed(c, vector, newSR);
      HandlerKept(c, RaiseGroup0(c, vector, newSR).0, top - 14, top, vector);
    }
  }

  // ---- Reading frames back ----

  /** ExceptionStackFrame: what a debugger sees. */
  datatype StackFrame =
    | Group12(sp: u24, sr: u16, pc: u32)
    | Group0(sp: u24, statusWord: u16, faultAddress: u32, ir: u16, sr: u16, pc: u32)

  /** ReadExceptionStackFrame; it reads through the bus, never through the shortcut. */
  function ReadFrame(mem: Image, sp: u32, group0: bool): Result<StackFrame> {
    if group0 then
      var statusWord := LoneLoad(mem, Word, Address24(sp));
      if statusWord.Err? then Err(statusWord.fault)
      else
        var faultAddress := LoneLoad(mem, Long, Address24(sp + 2));
        if faultAddress.Err? then Err(faultAddress.fault)
        else
          var ir := LoneLoad(mem, Word, Address24(sp + 6));
          if ir.Err? then Err(ir.fault)
          else
            var sr := LoneLoad(mem, Word, Address24(sp + 8));
            if sr.Err? then Err(sr.fault)
            else
              var pc := LoneLoad(mem, Long, Address24(sp + 10));
              if pc.Err? then Err(pc.fault)
              else Ok(Group0(Address24(sp), statusWord.value % 0x1_0000, faultAddress.value, ir.value % 0x1_0000,
                             sr.value % 0x1_0000, pc.value))
    else
      var sr := LoneLoad(mem, Word, Address24(sp));
      if sr.Err? then Err(sr.fault)
      else
        var pc := LoneLoad(mem, Long, Address24(sp + 2));
        if pc.Err? then Err(pc.fault) else Ok(Group12(Address24(sp), sr.value % 0x1_0000, pc.value))
  }

  lemma ReadsHeld(mem: Image, s: Size, sp: u32, displacement: nat, v: u32)
    requires mem.Inside24() && s != Byte && Address24(sp) % 2 == 0 && displacement % 2 == 0
    requires Address24(sp) + displacement < 0x100_0000 && Holds(mem, s, Address24(sp) + displacement, v)
    ensures LoneLoad(mem, s, Address24(sp + displacement)) == Ok(v)
  {
    hide Memory.Load, LoneLoad, Address24, Wrap32, Inside;
    AddressPlus(sp, displacement);
    AddressWraps(sp + displacement);
    InsideAt(mem, s, Wrap32(sp + displacement), Address24(sp) + displacement);
    LoadInside(mem, false, s, Wrap32(sp + displacement));
  }

  lemma AddressWraps(x: int)
    ensures Address24(Wrap32(x)) == Address24(x)
  {
  }

  /** A debugger reading the frame of a group 1/2 entry finds the SR and PC that were stacked. */
  lemma FrameReadsBack(c: State, vector: nat, newSR: u16, stackedPC: u32)
    requires c.mem.Inside24() && vector <= 255 && Supervisor(newSR) && NoStraddle(c.mem, SuperSP(c.regs), 6)
    requires RaiseException(c, vector, newSR, stackedPC).1.None?
    ensures var d := RaiseException(c, vector, newSR, stackedPC).0;
            ReadFrame(d.mem, d.regs.A[7], false) == Ok(Group12(Address24(d.regs.A[7]), c.regs.SR, stackedPC))
  {
    hide RaiseException, LoneLoad, Holds, Address24, Supervisor, SameOutside, Wrap32, UserSP, SuperSP;
    Entered(c, vector, newSR, stackedPC);
    var d := RaiseException(c, vector, newSR, stackedPC).0;
    SameShape(c, d, Ceiling(SuperSP(c.regs)) - 6, Ceiling(SuperSP(c.regs)));
    ReadsHeld(d.mem, Word, d.regs.A[7], 0, c.regs.SR);
    ReadsHeld(d.mem, Long, d.regs.A[7], 2, stackedPC);
    WordsRead(c.regs.SR);
  }

  lemma WordsRead(w: u16)
    ensures w as int % 0x1_0000 == w
  {
  }

  /** And in the frame of a bus or address error the recorded fault besides. */
  lemma Group0ReadsBack(c: State, vector: nat, newSR: u16)
    requires c.mem.Inside24() && vector <= 255 && Supervisor(newSR) && NoStraddle(c.mem, SuperSP(c.regs), 14)
    requires RaiseGroup0(c, vector, newSR).1.None?
    ensures var d := RaiseGroup0(c, vector, newSR).0;
            ReadFrame(d.mem, d.regs.A[7], true) ==
            Ok(Group0(Address24(d.regs.A[7]), StatusWord(c.fault), c.fault.address, c.fault.ir, c.regs.SR, c.fault.pc))
  {
    hide RaiseGroup0, LoneLoad, Holds, Address24, Supervisor, SameOutside, Wrap32, UserSP, SuperSP, StatusWord;
    EnteredGroup0(c, vector, newSR);
    var d := RaiseGroup0(c, vector, newSR).0;
    SameShape(c, d, Ceiling(SuperSP(c.regs)) - 14, Ceiling(SuperSP(c.regs)));
    ReadsHeld(d.mem, Word, d.regs.A[7], 0, StatusWord(c.fault));
    ReadsHeld(d.mem, Long, d.regs.A[7], 2, c.fault.address);
    ReadsHeld(d.mem, Word, d.regs.A[7], 6, c.fault.ir);
    ReadsHeld(d.mem, Word, d.regs.A[7], 8, c.regs.SR);
    ReadsHeld(d.mem, Long, d.regs.A[7], 10, c.fault.pc);
    WordsRead(StatusWord(c.fault));
    WordsRead(c.fault.ir);
    WordsRead(c.regs.SR);
  }

  /** The status word tells the access apart: read or write, and its function code. */
  lemma StatusWordReads(info: FaultInfo)
    ensures var w := StatusWord(info);
            (w / 16 % 2 == 1 <==> !info.write) && (w / 8 % 2 == 1 <==> info.notInstruction) &&
            w % 8 == info.functionCode % 8 && w < 32
  {
  }
}
