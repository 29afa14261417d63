/**
  The page window through which every access goes: a target physical
  address is split into a page-aligned window base, which is what gets
  mapped, and an offset inside that window.
 */
module Window {
  import opened Bits

  /** Bytes mapped per access (MAP_SIZE), and the in-window mask (MAP_MASK). */
  const MapSize: nat := 4096
  const MapMask: nat := MapSize - 1
  const PageShift: nat := 12

  /** sizeof(unsigned long): the native word of an LP64 platform. */
  const WordBytes: nat := 8

  /** Width in bits of `unsigned long`, and the number of its values. */
  const LongBits: nat := 8 * WordBytes
  const LongLimit: nat := 0x1_0000_0000_0000_0000

  /** An `unsigned long`: the type of target addresses and written values. */
  type ULong = x: nat | x < LongLimit

  lemma PageConstant()
    ensures Pow2(PageShift) == MapSize
  {
  }

  lemma LongConstant()
    ensures Pow2(LongBits) == LongLimit
  {
    Pow2Square(1, 2); Pow2Square(2, 4); Pow2Square(4, 16);
    Pow2Square(8, 0x100); Pow2Square(16, 0x1_0000); Pow2Square(32, 0x1_0000_0000);
  }

  /** `~MAP_MASK`: the in-window mask complemented in an `unsigned long`. */
  function WindowMask(): (m: nat)
    ensures m % MapSize == 0 && m + MapSize == LongLimit
  {
    Not(MapMask, LongLimit)
  }

  /**
    `~MAP_MASK` and `MAP_MASK` share no bit, so the base and the offset of a
    target take disjoint bits of it.
   */
  lemma MasksDisjoint()
    ensures And(WindowMask(), MapMask) == 0
  {
    PageConstant();
    AndLowMask(WindowMask(), PageShift);
  }

  /** `target & ~MAP_MASK`: the file offset of the page that is mapped. */
  function WindowBase(target: ULong): (base: nat)
    ensures base == target - target % MapSize
    ensures base % MapSize == 0
    ensures base <= target < base + MapSize
  {
    PageConstant();
    LongConstant();
    var base := And(target, WindowMask());
    AndHighMask(target, LongBits, PageShift, WindowMask());
    DivModUnique(base, MapSize, target / MapSize, 0);
    base
  }

  /** `target & MAP_MASK`: how far into the mapped page the target lies. */
  function WindowOffset(target: ULong): (offset: nat)
    ensures offset == target % MapSize
    ensures offset < MapSize
  {
    PageConstant();
    AndLowMask(target, PageShift);
    And(target, MapMask)
  }

  /**
    A pointer into a mapped window: the window maps the MapSize bytes of
    physical memory starting at `base`, and the pointer sits `offset` bytes in.
   */
  datatype Pointer = Pointer(base: nat, offset: nat)
  {
    /** The physical address the pointer designates. */
    function Physical(): nat
    {
      base + offset
    }

    /** An access of `width` bytes through the pointer stays inside the mapping. */
    predicate Covers(width: nat)
    {
      offset + width <= MapSize
    }
  }

  /**
    `virtual_address` once the mapping has succeeded: the pointer to the
    target inside the window that contains it.
   */
  function VirtualAddress(target: ULong): (p: Pointer)
    ensures p.Physical() == target
    ensures p.base % MapSize == 0 && p.offset < MapSize
  {
    Pointer(WindowBase(target), WindowOffset(target))
  }

  /** The window base is the greatest page boundary at or below the target. */
  lemma WindowBaseIsRoundDown(target: ULong, boundary: nat)
    requires boundary % MapSize == 0 && boundary <= target
    ensures boundary <= WindowBase(target)
  {
    var base := WindowBase(target);
    assert base == target - target % MapSize;
    var j, q := boundary / MapSize, target / MapSize;
    assert boundary == MapSize * j;
    assert target == MapSize * q + target % MapSize;
  }

  /** Two targets share a window exactly when they lie in the same page. */
  lemma SameWindow(t1: ULong, t2: ULong)
    ensures WindowBase(t1) == WindowBase(t2) <==> t1 / MapSize == t2 / MapSize
  {
    DivModUnique(t1, MapSize, t1 / MapSize, t1 % MapSize);
    DivModUnique(t2, MapSize, t2 / MapSize, t2 % MapSize);
    if WindowBase(t1) == WindowBase(t2) {
      DivModUnique(WindowBase(t1), MapSize, t1 / MapSize, 0);
      DivModUnique(WindowBase(t2), MapSize, t2 / MapSize, 0);
    }
  }

  /**
    An access of `width` bytes at `target` fits in the mapped page exactly
    when it does not cross the next page boundary.
   */
  lemma CoversIffWithinPage(target: ULong, width: nat)
    ensures VirtualAddress(target).Covers(width) <==> target % MapSize + width <= MapSize
    ensures VirtualAddress(target).Covers(width) <==> target + width <= WindowBase(target) + MapSize
  {
  }
}
