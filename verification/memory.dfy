/**
  Physical memory as plain byte storage, and the sized loads and stores
  that go through a mapped pointer. Multi-byte values are little-endian
  (the byte at the lowest address is the least significant).
 */
module Memory {
  import opened Bits

  /** Physical memory: the bytes at the addresses that exist. */
  type Memory = map<nat, Octet>

  /** The `width` bytes from `addr` all exist. */
  predicate Backed(mem: Memory, addr: nat, width: nat)
  {
    forall i :: addr <= i < addr + width ==> i in mem
  }

  /** Truncation of an unsigned value to an unsigned type `width` bytes wide. */
  function Truncate(v: nat, width: nat): nat
  {
    v % Pow2(8 * width)
  }

  /**
    A load of an unsigned type `width` bytes wide at `addr`. The result is
    zero-extended: it is below 2^(8 * width) whatever the bytes hold.
   */
  function Load(mem: Memory, addr: nat, width: nat): (v: nat)
    requires Backed(mem, addr, width)
    ensures v < Pow2(8 * width)
    decreases width
  {
    if width == 0 then 0
    else
      Pow2NextByte(width - 1);
      mem[addr] + 256 * Load(mem, addr + 1, width - 1)
  }

  /**
    A store of `v` converted to an unsigned type `width` bytes wide at
    `addr`: exactly those bytes change, and no address appears or vanishes.
   */
  function Store(mem: Memory, addr: nat, width: nat, v: nat): (mem': Memory)
    requires Backed(mem, addr, width)
    ensures mem'.Keys == mem.Keys
    ensures forall i :: i in mem && !(addr <= i < addr + width) ==> mem'[i] == mem[i]
    decreases width
  {
    if width == 0 then mem
    else Store(mem[addr := v % 256], addr + 1, width - 1, v / 256)
  }

  /** A load sees only the bytes it covers. */
  lemma {:induction false} LoadFrame(mem: Memory, mem': Memory, addr: nat, width: nat)
    requires Backed(mem, addr, width) && Backed(mem', addr, width)
    requires forall i :: addr <= i < addr + width ==> mem[i] == mem'[i]
    ensures Load(mem, addr, width) == Load(mem', addr, width)
    decreases width
  {
    if width > 0 {
      LoadFrame(mem, mem', addr + 1, width - 1);
    }
  }

  /** Loading right after a store at the same place and width yields the truncated value. */
  lemma {:induction false} LoadAfterStore(mem: Memory, addr: nat, width: nat, v: nat)
    requires Backed(mem, addr, width)
    ensures Load(Store(mem, addr, width, v), addr, width) == Truncate(v, width)
    decreases width
  {
    if width > 0 {
      var mem1 := mem[addr := v % 256];
      var mem' := Store(mem1, addr + 1, width - 1, v / 256);
      assert mem'[addr] == v % 256;
      LoadAfterStore(mem1, addr + 1, width - 1, v / 256);
      Pow2NextByte(width - 1);
      ModOfProduct(v, 256, Pow2(8 * (width - 1)));
    } else {
      DivModUnique(v, 1, v, 0);
    }
  }

  /** A store writes only the truncated value: the bits above the width are dropped. */
  lemma {:induction false} StoreTruncates(mem: Memory, addr: nat, width: nat, v: nat)
    requires Backed(mem, addr, width)
    ensures Store(mem, addr, width, v) == Store(mem, addr, width, Truncate(v, width))
    decreases width
  {
    if width > 0 {
      var p := Pow2(8 * (width - 1));
      Pow2NextByte(width - 1);
      ModOfProductDigits(v, 256, p);
      var t := Truncate(v, width);
      assert t % 256 == v % 256;
      assert t / 256 == Truncate(v / 256, width - 1);
      StoreTruncates(mem[addr := v % 256], addr + 1, width - 1, v / 256);
    }
  }

  /** A store leaves a load of any disjoint range unchanged. */
  lemma LoadElsewhereAfterStore(mem: Memory, addr: nat, width: nat, v: nat, other: nat, otherWidth: nat)
    requires Backed(mem, addr, width) && Backed(mem, other, otherWidth)
    requires other + otherWidth <= addr || addr + width <= other
    ensures Load(Store(mem, addr, width, v), other, otherWidth) == Load(mem, other, otherWidth)
  {
    LoadFrame(Store(mem, addr, width, v), mem, other, otherWidth);
  }
}
