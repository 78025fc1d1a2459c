/** Accesses of the CPU that stay inside RAM: what they read, and what they leave alone. */
module CoreMemory {
  import opened Words
  import opened Memory
  import opened FastPath
  import opened Core

  /** The `s` bytes at a hold v. */
  ghost predicate Holds(mem: Image, s: Size, a: int, v: int) {
    && mem.offset <= a && a + s.Bytes() <= mem.offset + |mem.bytes|
    && Memory.Load(mem.bytes, a - mem.offset, s) == v
  }

  /** The access lies in RAM and is aligned. */
  predicate Inside(mem: Image, s: Size, a: u32) {
    mem.offset <= Address24(a) && Address24(a) + s.Bytes() <= mem.offset + |mem.bytes| &&
    (s != Byte ==> Address24(a) % 2 == 0)
  }

  lemma LoadInside(mem: Image, fast: bool, s: Size, a: u32)
    requires mem.Inside24() && Inside(mem, s, a)
    ensures Core.Load(mem, fast, s, a) == Ok(Memory.Load(mem.bytes, Address24(a) - mem.offset, s))
  {
    hide Load16;
    FastLoadRefines(mem, s, Address24(a));
  }

  /** A read of what is known to lie in RAM. */
  lemma HeldIsRead(c: State, s: Size, a: u32, v: u32, ctx: Context)
    requires c.mem.Inside24() && Holds(c.mem, s, Address24(a), v) && (s != Byte ==> Address24(a) % 2 == 0)
    ensures Read(c, s, a, ctx) == (c, Ok(v))
  {
    hide Core.Load, Memory.Load, Address24, Image.Inside24;
    LoadInside(c.mem, c.fast, s, a);
  }

  /** A write succeeds exactly inside RAM, or when the bus carries a long around the end of a RAM
      that fills the whole space. */
  lemma StoreInside(mem: Image, fast: bool, s: Size, a: u32, v: u32)
    requires mem.Inside24()
    ensures Core.Store(mem, fast, s, a, v).1.None? <==>
            Inside(mem, s, a) || (!fast && WrapsAround(mem, s, Address24(a)))
    ensures Inside(mem, s, a) ==>
              Core.Store(mem, fast, s, a, v).0 ==
                Image(mem.offset, Memory.Store(mem.bytes, Address24(a) - mem.offset, s, v))
  {
    hide Memory.Store, Memory.Store16, LoneStore;
    if OddBelow(mem, s, Address24(a)) {
      OddFaults(mem, s, Address24(a), v);
    } else if WrapsAround(mem, s, Address24(a)) {
      LoneLongStore(mem, Address24(a), v);
    } else {
      FastStoreRefines(mem, s, Address24(a), v);
    }
  }

  lemma OddFaults(mem: Image, s: Size, a: u24, v: u32)
    requires OddBelow(mem, s, a)
    ensures FastStore(mem, s, a, v).1.Some? && LoneStore(mem, s, a, v).1.Some?
  {
  }

  /** Memory agrees everywhere outside [low, high), and the machine's memory shape is kept. */
  ghost predicate SameOutside(c: State, d: State, low: int, high: int) {
    && d.fast == c.fast && d.mem.offset == c.mem.offset && |d.mem.bytes| == |c.mem.bytes|
    && forall k :: 0 <= k < |c.mem.bytes| && !(low <= c.mem.offset + k < high) ==> d.mem.bytes[k] == c.mem.bytes[k]
  }

  lemma HoldsOn(c: State, d: State, s: Size, a: int, v: int, low: int, high: int)
    requires Holds(c.mem, s, a, v) && SameOutside(c, d, low, high)
    requires a + s.Bytes() <= low || high <= a
    ensures Holds(d.mem, s, a, v)
  {
    LoadFrame(c.mem.bytes, d.mem.bytes, a - c.mem.offset, s);
  }

  lemma Written(c: State, s: Size, a: u32, v: u32, ctx: Context)
    requires c.mem.Inside24() && Address24(a) + s.Bytes() <= 0x100_0000
    requires Write(c, s, a, v, ctx).1.None?
    ensures var d := Write(c, s, a, v, ctx).0;
            d.regs == c.regs && d.fault == c.fault && SameOutside(c, d, Address24(a), Address24(a) + s.Bytes()) &&
            Holds(d.mem, s, Address24(a), v % s.Modulus()) && (s != Byte ==> Address24(a) % 2 == 0)
  {
    StoreInside(c.mem, c.fast, s, a, v);
    StoreLoad(c.mem.bytes, Address24(a) - c.mem.offset, s, v);
    hide Memory.Store, Memory.Load, Core.Store;
  }

  /** Where the bytes below a pointer end: a pointer at 0 has the top of the address space below it. */
  function Ceiling(a: u32): int {
    if Address24(a) == 0 then 0x100_0000 else Address24(a)
  }

  /** Decrementing a pointer, as long as the bytes it passes do not straddle the end of the space. */
  lemma AddressMinus(a: u32, n: nat)
    requires 0 < n <= Ceiling(a)
    ensures Address24(Wrap32(a as int - n)) == Ceiling(a) - n
  {
  }

  /** The same when the decrement passes address 0. */
  lemma AddressAround(a: u32, n: nat)
    requires Ceiling(a) < n <= 0x100_0000
    ensures Address24(Wrap32(a as int - n)) == Ceiling(a) - n + 0x100_0000
  {
  }

  lemma AddressUp(a: u32, n: nat)
    requires n <= 0x100_0000
    ensures Address24(Wrap32(a as int + n)) ==
              Address24(a) + n - (if Address24(a) + n >= 0x100_0000 then 0x100_0000 else 0)
  {
  }

  /** Of n bytes pushed below sp none can land at the other end of the address space: there are n
      bytes below it, or the RAM does not reach both ends and a push across fails. */
  predicate NoStraddle(mem: Image, sp: u32, n: nat) {
    Ceiling(sp) >= n || |mem.bytes| < 0x100_0000
  }

  /** The bytes below a pointer end at `top`; a pointer at 0 may stand for either end of the space. */
  predicate EndsAt(a: u32, top: int) {
    0 <= top <= 0x100_0000 && Address24(a) == if top == 0x100_0000 then 0 else top
  }

  lemma EndsBelow(a: u32, top: int, n: nat)
    requires EndsAt(a, top) && 0 < n <= top
    ensures EndsAt(Wrap32(a as int - n), top - n) && Address24(Wrap32(a as int - n)) == top - n
  {
    AddressMinus(a, n);
    hide Wrap32;
  }

  lemma AddressPlus(a: u32, n: nat)
    requires Address24(a) + n < 0x100_0000
    ensures Address24(Wrap32(a as int + n)) == Address24(a) + n
  {
  }

  lemma MinusTwice(a: u32, m: nat, n: nat)
    ensures Wrap32(Wrap32(a as int - m) as int - n) == Wrap32(a as int - (m + n))
  {
  }

  /** Two changes side by side. */
  lemma SameJoined(c: State, d: State, e: State, low: int, mid: int, high: int)
    requires low <= mid <= high
    requires SameOutside(c, d, mid, high) && SameOutside(d, e, low, mid)
    ensures SameOutside(c, e, low, high)
  {
  }

  lemma PlusTwice(a: u32, m: nat, n: nat)
    ensures Wrap32(Wrap32(a as int + m) as int + n) == Wrap32(a as int + (m + n))
  {
  }
}
