/** MOVEM (op_data_transfer.go): the register file written to and read back from memory. */
module Movem {
  import opened Words
  import opened Memory
  import opened Bits
  import opened Core
  import opened CoreMemory

  /** Registers are numbered D0 to D7, A0 to A7. */
  type Reg = r: int | 0 <= r < 16

  function Register(regs: Registers, r: Reg): u32 {
    if r < 8 then regs.D[r] else regs.A[r - 8]
  }

  /** What a load puts into a register: words are sign-extended, for data registers too. */
  function Extended(size: Size, value: u32): u32 {
    if size == Word then Wrap32(Signed(value, Word)) else value
  }

  /** A word keeps its signed value in the whole register, a long is unchanged; so saving and
      restoring longs is exact, and words lose nothing that fits them. */
  lemma ExtendedMeaning(v: u32)
    ensures Signed(Extended(Word, Low(v, Word)), Long) == Signed(v, Word)
    ensures Extended(Long, Low(v, Long)) == v
    ensures -0x8000 <= Signed(v, Long) < 0x8000 ==> Extended(Word, Low(v, Word)) == v
  {
    ModCases(v, Long);
    WrapThenMod(v, Word);
    assert Low(Low(v, Word), Word) == Low(v, Word) by { SignedCases(Low(v, Word), Word); }
    SignedOfWord(v);
  }

  lemma SignedOfWord(v: u32)
    ensures Signed(Low(v, Word), Word) == Signed(v, Word)
    ensures Signed(Wrap32(Signed(v, Word)), Long) == Signed(v, Word)
    ensures -0x8000 <= Signed(v, Long) < 0x8000 ==> Wrap32(Signed(v, Word)) == v
  {
    var q, r := v / 0x1_0000, Low(v, Word);
    assert v == 0x1_0000 * q + r;
    SignedCases(r, Word);
    SignedCases(v, Long);
    ModCases(Signed(v, Word), Long);
    hide Low;
  }

  function WithRegister(regs: Registers, r: Reg, v: u32): Registers {
    if r < 8 then regs.(D := regs.D[r := v]) else regs.(A := regs.A[r - 8 := v])
  }

  // ---- Register lists ----

  /** The listed registers below n, ascending. */
  function ListedBelow(mask: u16, n: nat): seq<Reg>
    requires n <= 16
  {
    if n == 0 then [] else ListedBelow(mask, n - 1) + if Bit(mask, n - 1) then [n - 1] else []
  }

  lemma {:induction false} ListedMeaning(mask: u16, n: nat)
    requires n <= 16
    ensures forall r: Reg :: r in ListedBelow(mask, n) <==> r < n && Bit(mask, r)
    ensures forall i, j :: 0 <= i < j < |ListedBelow(mask, n)| ==> ListedBelow(mask, n)[i] < ListedBelow(mask, n)[j]
  {
    if n > 0 {
      ListedMeaning(mask, n - 1);
      var rest := ListedBelow(mask, n - 1);
      forall i | 0 <= i < |rest| ensures rest[i] < n - 1 { assert rest[i] in rest; }
    }
  }

  function Listed(mask: u16): seq<Reg> {
    ListedBelow(mask, 16)
  }

  function Reversed(s: seq<Reg>): (r: seq<Reg>)
    ensures |r| == |s| && forall i :: 0 <= i < |s| ==> r[i] == s[|s| - 1 - i]
  {
    seq(|s|, i requires 0 <= i < |s| => s[|s| - 1 - i])
  }

  /** bits.Reverse16, on n bits. */
  function ReverseLow(x: nat, n: nat): (r: nat)
    ensures r < Pow2(n)
    decreases n
  {
    if n == 0 then 0 else ReverseLow(x / 2, n - 1) + if x % 2 == 1 then Pow2(n - 1) else 0
  }

  /** Adding 2^n to an n-bit number sets bit n and no other. */
  lemma TopAdded(low: nat, n: nat, k: nat)
    requires low < Pow2(n)
    ensures Bit(low + Pow2(n), k) <==> k == n || Bit(low, k)
  {
    hide Or, Bit, Pow2;
    OrIsSum(1, low, n);
    assert 1 * Pow2(n) == Pow2(n);
    OpBits(Pow2(n), low, k);
    Pow2Bit(n, k);
  }

  lemma {:induction false} ReversedBit(x: nat, n: nat, k: nat)
    requires k < n
    ensures Bit(ReverseLow(x, n), k) <==> Bit(x, n - 1 - k)
    decreases n
  {
    var high := ReverseLow(x / 2, n - 1);
    if x % 2 == 1 { TopAdded(high, n - 1, k); }
    if k == n - 1 { NoHighBits(high, n - 1, k); } else { ReversedBit(x / 2, n - 1, k); }
  }

  function Reverse16(mask: u16): u16 {
    Pow2Values();
    ReverseLow(mask, 16)
  }

  /** Reversing twice changes nothing: the two mask encodings of MOVEM name the same registers. */
  lemma ReverseTwice(mask: u16)
    ensures Reverse16(Reverse16(mask)) == mask
  {
    Pow2Values();
    var m := Reverse16(Reverse16(mask));
    forall k: nat ensures Bit(m, k) <==> Bit(mask, k) {
      if k < 16 {
        ReversedBit(Reverse16(mask), 16, k);
        ReversedBit(mask, 16, 15 - k);
      } else {
        NoHighBits(m, 16, k);
        NoHighBits(mask, 16, k);
      }
    }
    SameBits(m, mask);
  }

  /** The order in which registers are transferred: ascending, or for the predecrement form the
      reversed mask read from the top. */
  method MovemRegisterOrder(maskIn: u16, reverse: bool) returns (order: seq<Reg>)
    ensures order == if reverse then Reversed(Listed(Reverse16(maskIn))) else Listed(maskIn)
  {
    hide And, Reverse16, ListedBelow, Reversed, Bit, Pow2;
    var mask := if reverse then Reverse16(maskIn) else maskIn;
    order := [];
    if reverse {
      var reg: int := 15;
      while reg >= 0
        invariant -1 <= reg <= 15
        invariant order + Reversed(ListedBelow(mask, reg + 1)) == Reversed(Listed(mask))
      {
        AndPow2(mask, reg);
        ReversedStep(mask, reg);
        ghost var rest := Reversed(ListedBelow(mask, reg));
        assert order + ([reg] + rest) == (order + [reg]) + rest && [] + rest == rest;
        if And(mask, Pow2(reg)) != 0 {
          order := order + [reg];
        }
        reg := reg - 1;
      }
      ReversedStep(mask, 0);
      assert order + [] == order;
      return;
    }
    ListedStep(mask, 0);
    for reg := 0 to 16
      invariant order == ListedBelow(mask, reg)
    {
      AndPow2(mask, reg);
      ListedStep(mask, reg);
      if And(mask, Pow2(reg)) != 0 {
        order := order + [reg];
      }
    }
  }

  lemma ListedStep(mask: u16, reg: nat)
    requires reg < 16
    ensures ListedBelow(mask, reg + 1) == ListedBelow(mask, reg) + (if Bit(mask, reg) then [reg] else [])
    ensures ListedBelow(mask, 0) == []
  {
    hide Bit;
  }

  lemma ReversedStep(mask: u16, reg: nat)
    requires reg < 16
    ensures Reversed(ListedBelow(mask, reg + 1)) ==
              (if Bit(mask, reg) then [reg] else []) + Reversed(ListedBelow(mask, reg))
    ensures Reversed(ListedBelow(mask, 0)) == []
  {
    hide Bit;
  }

  // ---- The transfers, as functions on the state ----

  /** Stores order[k-1], ..., order[0] to descending addresses. */
  function StoreDown(c: State, order: seq<Reg>, k: nat, addr: u32, size: Size): (State, u32, Option<Fault>)
    requires k <= |order|
    decreases k
  {
    if k == 0 then (c, addr, None)
    else
      var a := Wrap32(addr as int - size.Bytes());
      var (c', f) := Write(c, size, a, Register(c.regs, order[k - 1]), DataContext(c.regs));
      if f.Some? then (c', a, f) else StoreDown(c', order, k - 1, a, size)
  }

  /** Loads order[k], order[k+1], ... from ascending addresses. */
  function LoadUp(c: State, order: seq<Reg>, k: nat, addr: u32, size: Size): (State, u32, Option<Fault>)
    requires k <= |order|
    decreases |order| - k
  {
    if k == |order| then (c, addr, None)
    else
      var (c', r) := Read(c, size, addr, DataContext(c.regs));
      match r
      case Err(f) => (c', addr, Some(f))
      case Ok(v) =>
        LoadUp(c'.(regs := WithRegister(c'.regs, order[k], Extended(size, v))), order, k + 1,
               Wrap32(addr + size.Bytes()), size)
  }

  /** MOVEM list,-(An): An receives the final address at the end, so a listed An is stored unchanged. */
  function StorePredecrement(c: State, mask: u16, reg: nat, size: Size): (State, Option<Fault>)
    requires reg < 8
  {
    var order := Listed(Reverse16(mask));
    var (c', addr, f) := StoreDown(c, order, |order|, c.regs.A[reg], size);
    if f.Some? then (c', f) else (c'.(regs := c'.regs.(A := c'.regs.A[reg := addr])), None)
  }

  /** MOVEM (An)+,list: a loaded An is not overwritten by the incremented address. */
  function LoadPostincrement(c: State, mask: u16, reg: nat, size: Size): (State, Option<Fault>)
    requires reg < 8
  {
    var order := Listed(mask);
    var (c', addr, f) := LoadUp(c, order, 0, c.regs.A[reg], size);
    if f.Some? || Bit(mask, 8 + reg) then (c', f) else (c'.(regs := c'.regs.(A := c'.regs.A[reg := addr])), None)
  }

  /** Stores order[k], order[k+1], ... to ascending addresses. */
  function StoreUp(c: State, order: seq<Reg>, k: nat, addr: u32, size: Size): (State, Option<Fault>)
    requires k <= |order|
    decreases |order| - k
  {
    if k == |order| then (c, None)
    else
      var (c', f) := Write(c, size, addr, Register(c.regs, order[k]), DataContext(c.regs));
      if f.Some? then (c', f) else StoreUp(c', order, k + 1, Wrap32(addr + size.Bytes()), size)
  }

  /** The destinations and sources the opcode table admits; a control mode, (An) included, comes as
      the address it denotes. */
  datatype StoreMode = Predecrement(reg: nat) | StoreAt(addr: u32)

  datatype LoadMode = Postincrement(reg: nat) | LoadAt(addr: u32)

  /** MOVEM list,<ea> */
  function StoreMultiple(c: State, mask: u16, mode: StoreMode, size: Size): (State, Option<Fault>)
    requires mode.Predecrement? ==> mode.reg < 8
  {
    match mode
    case Predecrement(reg) => StorePredecrement(c, mask, reg, size)
    case StoreAt(addr) => StoreUp(c, Listed(mask), 0, addr, size)
  }

  /** MOVEM <ea>,list */
  function LoadMultiple(c: State, mask: u16, mode: LoadMode, size: Size): (State, Option<Fault>)
    requires mode.Postincrement? ==> mode.reg < 8
  {
    match mode
    case Postincrement(reg) => LoadPostincrement(c, mask, reg, size)
    case LoadAt(addr) => var (d, _, f) := LoadUp(c, Listed(mask), 0, addr, size); (d, f)
  }

  // ---- Round trip ----

  /** The number of bytes k transfers take. */
  function Span(k: int, size: Size): int { k * size.Bytes() }

  lemma SpanStep(k: int, size: Size)
    ensures Span(k, size) == Span(k - 1, size) + size.Bytes() && Span(0, size) == 0
    ensures k >= 0 ==> Span(k, size) >= 0
  {
  }

  /** The first k listed registers lie in ascending order from base. */
  ghost predicate Stored(c: State, regs: Registers, order: seq<Reg>, k: nat, base: int, size: Size)
    requires k <= |order|
  {
    forall i :: 0 <= i < k ==> Holds(c.mem, size, base + Span(i, size), Register(regs, order[i]) % size.Modulus())
  }

  lemma {:induction false} StoredDown(c: State, order: seq<Reg>, k: nat, addr: u32, size: Size, top: int)
    requires k <= |order| && size != Byte
    requires c.mem.Inside24() && EndsAt(addr, top) && (top >= Span(k, size) || (top > 0 && |c.mem.bytes| < 0x100_0000))
    requires StoreDown(c, order, k, addr, size).2.None?
    ensures top >= Span(k, size)
    ensures var (d, a, _) := StoreDown(c, order, k, addr, size);
            var base := top - Span(k, size);
            d.regs == c.regs && a == Wrap32(addr as int - Span(k, size)) && EndsAt(a, base) &&
            SameOutside(c, d, base, top) && Stored(d, c.regs, order, k, base, size) &&
            (k > 0 ==> base % 2 == 0 && Address24(a) == base)
    decreases k
  {
    hide Write, Holds, Address24, Wrap32, Span, Register, SameOutside, EndsAt;
    SpanStep(k, size);
    if k == 0 {
      NothingChanged(c, addr, top);
    } else {
      var n := size.Bytes();
      var a := Wrap32(addr as int - n);
      SpanStep(k - 1, size);
      if top < Span(k, size) { DownHasRoom(c, order, k, addr, size, top); }
      EndsBelow(addr, top, n);
      TopFits(addr, top);
      Written(c, size, a, Register(c.regs, order[k - 1]), DataContext(c.regs));
      var c1 := Write(c, size, a, Register(c.regs, order[k - 1]), DataContext(c.regs)).0;
      StoredDown(c1, order, k - 1, a, size, top - n);
      MinusTwice(addr, n, Span(k - 1, size));
      EndsBelow(addr, top, Span(k, size));
      var d := StoreDown(c1, order, k - 1, a, size).0;
      var base: int := top - Span(k, size);
      HoldsOn(c1, d, size, base + Span(k - 1, size), Register(c.regs, order[k - 1]) % size.Modulus(), base,
              base + Span(k - 1, size));
      SameJoined(c, c1, d, base, base + Span(k - 1, size), top);
    }
  }

  /** A descending store that succeeds in a RAM without both ends of the address space does not pass
      address 0. */
  lemma {:induction false} DownHasRoom(c: State, order: seq<Reg>, k: nat, addr: u32, size: Size, top: int)
    requires k <= |order| && size != Byte && c.mem.Inside24() && |c.mem.bytes| < 0x100_0000
    requires EndsAt(addr, top) && top > 0 && StoreDown(c, order, k, addr, size).2.None?
    ensures top >= Span(k, size)
    decreases k
  {
    hide Write, Address24, Wrap32, Span, Register, Inside;
    SpanStep(k, size);
    if k > 0 {
      var n := size.Bytes();
      var a := Wrap32(addr as int - n);
      var c1 := DownStep(c, order, k, addr, size, top);
      SpanStep(k - 1, size);
      if top > n {
        EndsBelow(addr, top, n);
        DownHasRoom(c1, order, k - 1, a, size, top - n);
      } else if k > 1 {
        EndsBelow(addr, top, n);
        var _ := DownStep(c1, order, k - 1, a, size, 0x100_0000);
      }
    }
  }

  /** The first store of the list lies wholly below top. */
  lemma DownStep(c: State, order: seq<Reg>, k: nat, addr: u32, size: Size, top: int) returns (c1: State)
    requires 0 < k <= |order| && size != Byte && c.mem.Inside24() && |c.mem.bytes| < 0x100_0000
    requires EndsAt(addr, top) && top > 0 && StoreDown(c, order, k, addr, size).2.None?
    ensures top >= size.Bytes() && c.mem.offset <= top - size.Bytes() && top <= c.mem.offset + |c.mem.bytes|
    ensures c1 == Write(c, size, Wrap32(addr as int - size.Bytes()),
                        Register(c.regs, order[k - 1]), DataContext(c.regs)).0
    ensures c1.mem.offset == c.mem.offset && |c1.mem.bytes| == |c.mem.bytes|
    ensures StoreDown(c1, order, k - 1, Wrap32(addr as int - size.Bytes()), size).2.None?
  {
    var n := size.Bytes();
    var a := Wrap32(addr as int - n);
    c1 := Write(c, size, a, Register(c.regs, order[k - 1]), DataContext(c.regs)).0;
    WrittenInside(c, size, a, Register(c.regs, order[k - 1]), DataContext(c.regs));
    if top >= n { EndsBelow(addr, top, n); } else { AddressAround(addr, n); }
    hide Write, Address24, Wrap32;
  }

  lemma WrittenInside(c: State, s: Size, a: u32, v: u32, ctx: Context)
    requires c.mem.Inside24() && |c.mem.bytes| < 0x100_0000 && Write(c, s, a, v, ctx).1.None?
    ensures Inside(c.mem, s, a)
  {
    StoreInside(c.mem, c.fast, s, a, v);
    hide Core.Store, Memory.Store, Inside;
  }

  lemma NothingChanged(c: State, addr: u32, top: int)
    ensures SameOutside(c, c, top, top) && Wrap32(addr as int - 0) == addr
  {
  }

  /** A register bank after loading order[k..]: listed registers hold their saved, extended values. */
  ghost predicate Restored(before: Registers, after: Registers, saved: Registers, order: seq<Reg>, k: nat, size: Size)
    requires k <= |order|
  {
    && after.PC == before.PC && after.SR == before.SR && after.SSP == before.SSP && after.USP == before.USP
    && forall r: Reg :: Register(after, r) ==
         if r in order[k..] then Extended(size, Low(Register(saved, r), size)) else Register(before, r)
  }

  lemma {:induction false} LoadedUp(c: State, saved: Registers, order: seq<Reg>, k: nat, addr: u32, base: int,
                                    size: Size)
    requires k <= |order| && size != Byte && base % 2 == 0
    requires c.mem.Inside24() && Stored(c, saved, order, |order|, base, size)
    requires k < |order| ==> Address24(addr) == base + Span(k, size)
    ensures var (d, a, f) := LoadUp(c, order, k, addr, size);
            f.None? && d.mem == c.mem && d.fast == c.fast && a == Wrap32(addr as int + Span(|order| - k, size)) &&
            Restored(c.regs, d.regs, saved, order, k, size)
    decreases |order| - k
  {
    hide Address24, Wrap32, Span, Register, WithRegister, Extended, Low, Stored, Restored, Read;
    SpanStep(|order| - k, size);
    if k == |order| {
      NothingAdded(addr);
      NothingLoaded(c.regs, saved, order, size);
    } else {
      var n := size.Bytes();
      var v := Low(Register(saved, order[k]), size);
      ReadStored(c, saved, order, k, addr, base, size);
      var c1 := c.(regs := WithRegister(c.regs, order[k], Extended(size, v)));
      StoredInMemory(c, c1, saved, order, base, size);
      SpanStep(k + 1, size);
      if k + 1 < |order| {
        SpanStep(k + 2, size);
        SpanMonotone(k + 2, |order|, size);
        StoredFits(c, saved, order, base, size);
        AddressPlus(addr, n);
      }
      LoadedUp(c1, saved, order, k + 1, Wrap32(addr + n), base, size);
      SpanStep(|order| - k - 1, size);
      PlusTwice(addr, n, Span(|order| - k - 1, size));
      LoadOne(c.regs, order, k, saved, size, LoadUp(c1, order, k + 1, Wrap32(addr + n), size).0.regs);
    }
  }

  /** What is stored lies in RAM. */
  lemma StoredFits(c: State, saved: Registers, order: seq<Reg>, base: int, size: Size)
    requires c.mem.Inside24() && Stored(c, saved, order, |order|, base, size) && |order| > 0
    ensures base + Span(|order|, size) <= 0x100_0000
  {
    SpanStep(|order|, size);
    hide Span, Register, Memory.Load;
    assert Holds(c.mem, size, base + Span(|order| - 1, size), Register(saved, order[|order| - 1]) % size.Modulus());
  }

  lemma StoredInMemory(c: State, d: State, saved: Registers, order: seq<Reg>, base: int, size: Size)
    requires Stored(c, saved, order, |order|, base, size) && d.mem == c.mem
    ensures Stored(d, saved, order, |order|, base, size)
  {
  }

  lemma NothingLoaded(regs: Registers, saved: Registers, order: seq<Reg>, size: Size)
    ensures Restored(regs, regs, saved, order, |order|, size)
  {
  }

  lemma NothingAdded(addr: u32)
    ensures Wrap32(addr as int + 0) == addr
  {
  }

  lemma SpanMonotone(a: nat, b: nat, size: Size)
    requires a <= b
    ensures Span(a, size) <= Span(b, size)
  {
  }

  lemma EvenSpan(k: nat, size: Size)
    requires size != Byte
    ensures Span(k, size) % 2 == 0
  {
  }

  lemma ReadStored(c: State, saved: Registers, order: seq<Reg>, k: nat, addr: u32, base: int, size: Size)
    requires k < |order| && size != Byte && base % 2 == 0
    requires c.mem.Inside24() && Stored(c, saved, order, |order|, base, size) && Address24(addr) == base + Span(k, size)
    ensures Read(c, size, addr, DataContext(c.regs)) == (c, Ok(Low(Register(saved, order[k]), size)))
  {
    hide Register, Address24, Core.Read, Holds, Span, Image.Inside24, DataContext;
    assert Holds(c.mem, size, base + Span(k, size), Register(saved, order[k]) % size.Modulus());
    EvenSpan(k, size);
    HeldIsRead(c, size, addr, Low(Register(saved, order[k]), size), DataContext(c.regs));
  }

  lemma LoadOne(before: Registers, order: seq<Reg>, k: nat, saved: Registers, size: Size, after: Registers)
    requires k < |order|
    requires Restored(WithRegister(before, order[k], Extended(size, Low(Register(saved, order[k]), size))), after,
                      saved, order, k + 1, size)
    ensures Restored(before, after, saved, order, k, size)
  {
    hide Extended, Low;
    var v := Extended(size, Low(Register(saved, order[k]), size));
    assert order[k..] == [order[k]] + order[k + 1..];
    forall r: Reg
      ensures Register(after, r) ==
              if r in order[k..] then Extended(size, Low(Register(saved, r), size)) else Register(before, r)
    {
      assert Register(WithRegister(before, order[k], v), r) == if r == order[k] then v else Register(before, r);
    }
  }

  /** The main result. Registers saved with MOVEM list,-(An) come back with MOVEM (An)+,list and the
      mirrored mask, whatever the code in between does to registers and memory, provided it
      leaves An and the saved bytes alone: listed registers are restored (words sign-extended), An
      is back where it was even if listed, and every other register is untouched. */
  lemma MovemRoundTrip(c: State, mask: u16, reg: nat, size: Size, d: State, top: int)
    requires reg < 8 && size != Byte && c.mem.Inside24()
    requires EndsAt(c.regs.A[reg], top)
    requires top >= Span(|Listed(Reverse16(mask))|, size) || (top > 0 && |c.mem.bytes| < 0x100_0000)
    requires StorePredecrement(c, mask, reg, size).1.None?
    requires var s := StorePredecrement(c, mask, reg, size).0;
             d.regs.A[reg] == s.regs.A[reg] &&
             SameBetween(s.mem, d.mem, top - Span(|Listed(Reverse16(mask))|, size), top)
    ensures var (e, fault) := LoadPostincrement(d, Reverse16(mask), reg, size);
            fault.None? && e.mem == d.mem &&
            forall r: Reg :: Register(e.regs, r) ==
              if Bit(Reverse16(mask), r) then Extended(size, Low(Register(c.regs, r), size))
              else if r == 8 + reg then c.regs.A[reg] else Register(d.regs, r)
  {
    hide Address24, Wrap32, Span, Extended, Low, Reverse16, Bit, Listed, Stored, StoreDown, LoadUp, Register, EndsAt;
    var order := Listed(Reverse16(mask));
    StoredDown(c, order, |order|, c.regs.A[reg], size, top);
    var (s, addr, _) := StoreDown(c, order, |order|, c.regs.A[reg], size);
    var base: int := top - Span(|order|, size);
    TopFits(c.regs.A[reg], top);
    StillStored(s, d, c.regs, order, base, top, size);
    RestoresList(c, d, order, addr, base, size);
    BackUp(c.regs.A[reg], Span(|order|, size));
    ListsRegisters(Reverse16(mask), order);
    var (e, a, _) := LoadUp(d, order, 0, addr, size);
    assert a == c.regs.A[reg];
    AddressRegister(e.regs, reg, a);
    hide SameBetween;
  }

  lemma TopFits(a: u32, top: int)
    requires EndsAt(a, top)
    ensures top <= 0x100_0000
  {
  }

  /** Stores to ascending addresses leave the same layout. */
  lemma {:induction false} StoredUp(c: State, order: seq<Reg>, k: nat, addr: u32, size: Size, base: int)
    requires k <= |order| && size != Byte && c.mem.Inside24()
    requires k < |order| ==> Address24(addr) == base + Span(k, size)
    requires base + Span(|order|, size) <= 0x100_0000 || |c.mem.bytes| < 0x100_0000
    requires StoreUp(c, order, k, addr, size).1.None?
    ensures k < |order| ==> base + Span(|order|, size) <= 0x100_0000
    ensures var d := StoreUp(c, order, k, addr, size).0;
            d.regs == c.regs && SameOutside(c, d, base + Span(k, size), base + Span(|order|, size)) &&
            (k < |order| ==> (base + Span(k, size)) % 2 == 0) &&
            forall i :: k <= i < |order| ==>
              Holds(d.mem, size, base + Span(i, size), Register(c.regs, order[i]) % size.Modulus())
    decreases |order| - k
  {
    hide Write, Holds, Address24, Wrap32, Span, Register, SameOutside;
    if k == |order| {
      NothingChanged(c, addr, base + Span(k, size));
    } else {
      var n := size.Bytes();
      SpanStep(k + 1, size);
      SpanMonotone(k + 1, |order|, size);
      if base + Span(|order|, size) > 0x100_0000 { UpHasRoom(c, order, k, addr, size, base); }
      Written(c, size, addr, Register(c.regs, order[k]), DataContext(c.regs));
      var c1 := Write(c, size, addr, Register(c.regs, order[k]), DataContext(c.regs)).0;
      if k + 1 < |order| {
        SpanStep(k + 2, size);
        SpanMonotone(k + 2, |order|, size);
        AddressPlus(addr, n);
      }
      StillInside(c, c1, base + Span(k, size), base + Span(k + 1, size));
      StoredUp(c1, order, k + 1, Wrap32(addr + n), size, base);
      var d := StoreUp(c1, order, k + 1, Wrap32(addr + n), size).0;
      HoldsOn(c1, d, size, base + Span(k, size), Register(c.regs, order[k]) % size.Modulus(),
              base + Span(k + 1, size), base + Span(|order|, size));
      SameUp(c, c1, d, base + Span(k, size), base + Span(k + 1, size), base + Span(|order|, size));
    }
  }

  /** The ascending store does not pass the end of the space either. */
  lemma {:induction false} UpHasRoom(c: State, order: seq<Reg>, k: nat, addr: u32, size: Size, base: int)
    requires k < |order| && size != Byte && c.mem.Inside24() && |c.mem.bytes| < 0x100_0000
    requires Address24(addr) == base + Span(k, size) && StoreUp(c, order, k, addr, size).1.None?
    ensures base + Span(|order|, size) <= 0x100_0000
    decreases |order| - k
  {
    hide Write, Address24, Wrap32, Span, Register, Inside;
    var n := size.Bytes();
    var c1 := UpStep(c, order, k, addr, size);
    SpanStep(k + 1, size);
    if k + 1 < |order| {
      AddressUp(addr, n);
      if Address24(addr) + n < 0x100_0000 {
        UpHasRoom(c1, order, k + 1, Wrap32(addr + n), size, base);
      } else {
        var _ := UpStep(c1, order, k + 1, Wrap32(addr + n), size);
      }
    }
  }

  lemma UpStep(c: State, order: seq<Reg>, k: nat, addr: u32, size: Size) returns (c1: State)
    requires k < |order| && size != Byte && c.mem.Inside24() && |c.mem.bytes| < 0x100_0000
    requires StoreUp(c, order, k, addr, size).1.None?
    ensures c.mem.offset <= Address24(addr) && Address24(addr) + size.Bytes() <= c.mem.offset + |c.mem.bytes|
    ensures c1 == Write(c, size, addr, Register(c.regs, order[k]), DataContext(c.regs)).0
    ensures c1.mem.offset == c.mem.offset && |c1.mem.bytes| == |c.mem.bytes|
    ensures StoreUp(c1, order, k + 1, Wrap32(addr + size.Bytes()), size).1.None?
  {
    c1 := Write(c, size, addr, Register(c.regs, order[k]), DataContext(c.regs)).0;
    WrittenInside(c, size, addr, Register(c.regs, order[k]), DataContext(c.regs));
    hide Write, Address24, Wrap32;
  }

  lemma StillInside(c: State, d: State, low: int, high: int)
    requires SameOutside(c, d, low, high) && c.mem.Inside24()
    ensures d.mem.Inside24()
  {
  }

  lemma SameUp(c: State, d: State, e: State, low: int, mid: int, high: int)
    requires low <= mid <= high && SameOutside(c, d, low, mid) && SameOutside(d, e, mid, high)
    ensures SameOutside(c, e, low, high)
  {
  }

  /** The control modes complete the picture: a list stored at an address is loaded back from it. */
  lemma ControlRoundTrip(c: State, mask: u16, addr: u32, size: Size, d: State)
    requires size != Byte && c.mem.Inside24()
    requires Address24(addr) + Span(|Listed(mask)|, size) <= 0x100_0000 || |c.mem.bytes| < 0x100_0000
    requires StoreMultiple(c, mask, StoreAt(addr), size).1.None?
    requires SameBetween(StoreMultiple(c, mask, StoreAt(addr), size).0.mem, d.mem, Address24(addr),
                         Address24(addr) + Span(|Listed(mask)|, size))
    ensures var (e, fault) := LoadMultiple(d, mask, LoadAt(addr), size);
            fault.None? && e.mem == d.mem &&
            forall r: Reg :: Register(e.regs, r) ==
              if Bit(mask, r) then Extended(size, Low(Register(c.regs, r), size)) else Register(d.regs, r)
  {
    hide Address24, Wrap32, Span, Extended, Low, Bit, Listed, Stored, StoreUp, LoadUp, Register, Holds;
    var order := Listed(mask);
    var base: int := Address24(addr);
    SpanStep(0, size);
    StoredUp(c, order, 0, addr, size, base);
    var s := StoreUp(c, order, 0, addr, size).0;
    AllStored(s, c.regs, order, base, size);
    StillInside(c, s, base + Span(0, size), base + Span(|order|, size));
    StillStored(s, d, c.regs, order, base, base + Span(|order|, size), size);
    RestoresList(c, d, order, addr, base, size);
    ListsRegisters(mask, order);
    hide SameBetween;
  }

  lemma AllStored(s: State, regs: Registers, order: seq<Reg>, base: int, size: Size)
    requires forall i :: 0 <= i < |order| ==>
               Holds(s.mem, size, base + Span(i, size), Register(regs, order[i]) % size.Modulus())
    ensures Stored(s, regs, order, |order|, base, size)
  {
  }

  lemma AddressRegister(regs: Registers, reg: nat, v: u32)
    requires reg < 8
    ensures forall r: Reg :: Register(regs.(A := regs.A[reg := v]), r) == if r == 8 + reg then v else Register(regs, r)
  {
    forall r: Reg
      ensures Register(regs.(A := regs.A[reg := v]), r) == if r == 8 + reg then v else Register(regs, r)
    {
      if r >= 8 { assert regs.A[reg := v][r - 8] == if r - 8 == reg then v else regs.A[r - 8]; }
    }
  }

  /** The load half, for lists of any length including the empty one. */
  lemma RestoresList(c: State, d: State, order: seq<Reg>, addr: u32, base: int, size: Size)
    requires size != Byte && d.mem.Inside24() && Stored(d, c.regs, order, |order|, base, size)
    requires |order| > 0 ==> base % 2 == 0 && Address24(addr) == base
    ensures var (e, a, f) := LoadUp(d, order, 0, addr, size);
            f.None? && e.mem == d.mem && a == Wrap32(addr as int + Span(|order|, size)) &&
            forall r: Reg :: Register(e.regs, r) ==
              if r in order then Extended(size, Low(Register(c.regs, r), size)) else Register(d.regs, r)
  {
    hide Address24, Wrap32, Span, Extended, Low, Stored;
    SpanStep(0, size);
    if |order| == 0 {
      NothingAdded(addr);
    } else {
      LoadedUp(d, c.regs, order, 0, addr, base, size);
      assert order[0..] == order;
    }
  }

  /** The bytes in [low, high) are the same. */
  ghost predicate SameBetween(m: Image, n: Image, low: int, high: int) {
    && n.offset == m.offset && |n.bytes| == |m.bytes|
    && forall k :: 0 <= k < |m.bytes| && low <= m.offset + k < high ==> n.bytes[k] == m.bytes[k]
  }

  lemma BackUp(top: u32, n: int)
    ensures Wrap32(Wrap32(top as int - n) as int + n) == top
  {
  }

  lemma ListsRegisters(mask: u16, order: seq<Reg>)
    requires order == Listed(mask)
    ensures forall r: Reg :: r in order <==> Bit(mask, r)
  {
    ListedMeaning(mask, 16);
  }

  lemma StillStored(s: State, d: State, saved: Registers, order: seq<Reg>, base: int, top: int, size: Size)
    requires Stored(s, saved, order, |order|, base, size) && top == base + Span(|order|, size)
    requires SameBetween(s.mem, d.mem, base, top)
    ensures Stored(d, saved, order, |order|, base, size)
  {
    hide Register;
    forall i | 0 <= i < |order|
      ensures Holds(d.mem, size, base + Span(i, size), Register(saved, order[i]) % size.Modulus())
    {
      SpanMonotone(i + 1, |order|, size);
      SpanStep(i + 1, size);
      assert Holds(s.mem, size, base + Span(i, size), Register(saved, order[i]) % size.Modulus());
      LoadFrame(s.mem.bytes, d.mem.bytes, base + Span(i, size) - s.mem.offset, size);
    }
  }
}
