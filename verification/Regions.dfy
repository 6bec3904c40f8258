/** Memory regions and mappers, and which page each address of a region gets. */
module Regions {
  import opened Pte
  import opened Blocks
  import opened Tables

  datatype Mapper = Offset(off: nat) | Fixed(paddr: nat)

  /** `Mapper::map_fn`; the subtraction wraps at 2^64. */
  function MapFn(m: Mapper, va: nat): nat {
    match m
    case Offset(off) => (va - off) % TWO64
    case Fixed(paddr) => paddr
  }

  datatype Region = Region(start: nat, size: nat, flags: MemFlags, mapper: Mapper)

  /** `align_up`; the addition wraps at 2^64. */
  function PageUp(addr: nat): nat {
    PageDown((addr + 0xfff) % TWO64)
  }

  /** `MemoryRegion::new`: the start moves down to a page, the size up to whole pages. */
  function NewRegion(start: nat, size: nat, flags: MemFlags, mapper: Mapper): Region {
    Region(PageDown(start), PageUp(size), flags, mapper)
  }

  function NewOffsetRegion(vstart: nat, pstart: nat, size: nat, flags: MemFlags): Region {
    NewRegion(PageDown(vstart), size, flags, Offset((PageDown(vstart) - PageDown(pstart)) % TWO64))
  }

  function NewEmptyRegion(start: nat, size: nat, flags: MemFlags, emptyPage: nat): Region {
    NewRegion(start, size, flags, Fixed(emptyPage))
  }

  predicate InRange(start: nat, size: nat, x: nat) {
    start <= x < start + size
  }

  /** The range ends within the region made of it: what the start has moved down is made up
      for by what the size has grown. */
  predicate RoundsWhole(start: nat, size: nat) {
    start % 0x1000 + size <= PageUp(size)
  }

  /** Exactly then the region holds the whole range. */
  lemma RoundedCovers(start: nat, size: nat)
    requires size > 0
    ensures (forall x: nat | InRange(start, size, x) :: InRange(PageDown(start), PageUp(size), x))
            <==> RoundsWhole(start, size)
  {
    hide PageUp;
    assert PageDown(start) + start % 0x1000 == start;
    if !RoundsWhole(start, size) {
      assert InRange(start, size, start + size - 1);
    }
  }

  // Positions inside a region are counted in the 48-bit space that the indices see.

  function Base(r: Region): nat {
    r.start % TWO48
  }

  function Limit(r: Region): nat {
    Base(r) + r.size
  }

  /** What a table of this format can hold: whole pages, all within one 48-bit space,
      onto physical addresses of 52 bits, with entries that are not all zero. */
  ghost predicate Mappable(fmt: Format, r: Region) {
    && r.start < TWO64 && r.start % 0x1000 == 0 && r.size % 0x1000 == 0 && Limit(r) <= TWO48
    && (match r.mapper
        case Offset(off) => off < TWO64 && off % 0x1000 == 0 && MapFn(r.mapper, r.start) + r.size <= TWO52
        case Fixed(paddr) => paddr < TWO52)
    && (fmt.X86? ==> r.flags != {})
  }

  predicate Contains(r: Region, va: nat) {
    r.start <= va < r.start + r.size
  }

  // ---- The closed form of page sizing -----------------------------------------

  /** Whether a page of this level may be used at all: offset or target is aligned to
      it, and huge pages are allowed. */
  predicate LevelFits(r: Region, level: nat)
    requires 1 <= level <= 3
  {
    level == 1
    || (NO_HUGEPAGES !in r.flags && IsAligned(level, if r.mapper.Offset? then r.mapper.off else r.mapper.paddr))
  }

  /** The whole block lies in the region and may be one page. */
  predicate Candidate(r: Region, b: Block)
    requires 1 <= b.level <= 3
  {
    Base(r) <= First(b) && End(b) <= Limit(r) && LevelFits(r, b.level)
  }

  /** The level of the page that position `x` of the region gets. */
  function PageLevel(r: Region, x: nat): (level: nat)
    ensures 1 <= level <= 3
  {
    if Candidate(r, BlockOf(3, x)) then 3 else if Candidate(r, BlockOf(2, x)) then 2 else 1
  }

  function PageAt(r: Region, x: nat): Block {
    BlockOf(PageLevel(r, x), x)
  }

  predicate Chosen(r: Region, b: Block) {
    1 <= b.level <= 3 && Candidate(r, b) && b.level == PageLevel(r, First(b))
  }

  /** Blocks of the levels above that hold one position of a block hold all of it. */
  lemma {:induction false} SameAbove(b: Block, x: nat, level: nat)
    requires 1 <= b.level <= level <= 5 && First(b) <= x < End(b) <= TWO48
    ensures BlockOf(level, x) == BlockOf(level, First(b))
    decreases level
  {
    hide BlockOf, First, End, Parent;
    if level == b.level {
      LowAddress(x);
      LowAddress(First(b));
      InBlock(b, x);
      InBlock(b, First(b));
    } else {
      SameAbove(b, x, level - 1);
      ParentOf(level - 1, x);
      ParentOf(level - 1, First(b));
    }
  }

  lemma LowAddress(x: nat)
    requires x < TWO48
    ensures x % TWO48 == x
  {
  }

  /** Every position of the region lies in exactly one chosen page. */
  lemma PageAtChosen(r: Region, x: nat)
    requires r.start % 0x1000 == 0 && r.size % 0x1000 == 0 && Limit(r) <= TWO48
    requires Base(r) <= x < Limit(r)
    ensures Chosen(r, PageAt(r, x)) && First(PageAt(r, x)) <= x < End(PageAt(r, x))
  {
    hide BlockOf, First, End, Candidate, Base, Limit;
    var b := PageAt(r, x);
    LowAddress(x);
    BlockLevel(PageLevel(r, x), x);
    InBlock(b, x);
    Whole(r, x);
    CandidateEnds(r, b);
    SameAbove(b, x, 3);
    if b.level < 3 { SameAbove(b, x, 2); }
  }

  lemma BlockLevel(level: nat, x: nat)
    requires 1 <= level <= 5
    ensures BlockOf(level, x).level == level
  {
  }

  lemma CandidateEnds(r: Region, b: Block)
    requires 1 <= b.level <= 3 && Candidate(r, b)
    ensures Base(r) <= First(b) && End(b) <= Limit(r)
  {
  }

  lemma Whole(r: Region, x: nat)
    requires r.start % 0x1000 == 0 && r.size % 0x1000 == 0 && Limit(r) <= TWO48
    requires Base(r) <= x < Limit(r)
    ensures Candidate(r, BlockOf(1, x))
  {
    LowAddress(x);
    ModOfMod(r.start, 0x1000, 0x10_0000_0000);
    var a, n, e := Base(r) / 0x1000, x / 0x1000, r.size / 0x1000;
    assert Base(r) == 0x1000 * a && r.size == 0x1000 * e && 0x1000 * n <= x < 0x1000 * n + 0x1000;
    hide Base;
    assert a <= n < a + e;
  }

  lemma ChosenFits(r: Region, b: Block)
    requires Limit(r) <= TWO48 && Chosen(r, b)
    ensures 1 <= b.level <= 3 && End(b) <= TWO48 && PageLevel(r, First(b)) == b.level
  {
    hide PageLevel, First, End, LevelFits;
  }

  lemma ChosenIsPageAt(r: Region, b: Block, x: nat)
    requires Limit(r) <= TWO48 && Chosen(r, b) && First(b) <= x < End(b)
    ensures PageAt(r, x) == b
  {
    hide Candidate, BlockOf, First, End, Chosen, Limit;
    ChosenFits(r, b);
    SameAbove(b, x, 3);
    if b.level < 3 { SameAbove(b, x, 2); }
    assert x % TWO48 == x;
    InBlock(b, x);
  }

  // ---- The greedy choice -------------------------------------------------------

  /** The page size picked by the loop of `map` at address `va` with `size` bytes left. */
  function Greedy(r: Region, va: nat, size: nat): nat {
    var paddr := MapFn(r.mapper, va);
    if IsAligned(3, va) && IsAligned(3, paddr) && size >= Size(3) && NO_HUGEPAGES !in r.flags then 3
    else if IsAligned(2, va) && IsAligned(2, paddr) && size >= Size(2) && NO_HUGEPAGES !in r.flags then 2
    else 1
  }

  /** The address at position `x` of the region. */
  function At(r: Region, x: int): int {
    r.start - Base(r) + x
  }

  /** Position `x` is where a page starts, or the end of the region. */
  predicate IsCut(r: Region, x: nat) {
    Base(r) <= x <= Limit(r) && (x < Limit(r) ==> First(PageAt(r, x)) == x)
  }

  lemma AlignedAt(r: Region, x: nat, level: nat)
    requires 1 <= level <= 3
    ensures IsAligned(level, x) <==> At(r, x) % Size(level) == 0
  {
    var q := r.start / TWO48;
    assert At(r, x) == TWO48 * q + x;
    if level == 1 {
      DivShift(0x1000, 0x10_0000_0000 * q, x);
    } else if level == 2 {
      DivShift(0x20_0000, 0x800_0000 * q, x);
    } else {
      DivShift(0x4000_0000, 0x4_0000 * q, x);
    }
  }

  lemma ModOfMod(a: int, d: nat, m: nat)
    requires 0 < d && 0 < m
    ensures a % (d * m) % d == a % d
  {
    var q := a / (d * m);
    assert a == d * (m * q) + a % (d * m);
    DivShift(d, m * q, a % (d * m));
  }

  lemma AlignedMapFn(r: Region, va: nat, level: nat)
    requires 1 <= level <= 3 && IsAligned(level, va)
    requires r.mapper.Offset?
    ensures IsAligned(level, MapFn(r.mapper, va)) <==> IsAligned(level, r.mapper.off)
  {
    hide Size;
    var m := SizeDivides(level);
    ModOfMod(va - r.mapper.off, Size(level), m);
    SubMultiple(Size(level), va, r.mapper.off);
  }

  lemma SizeDivides(level: nat) returns (m: nat)
    requires 1 <= level <= 3
    ensures Size(level) > 0 && m > 0 && Size(level) * m == TWO64
  {
    m := if level == 1 then 0x10_0000_0000_0000 else if level == 2 then 0x800_0000_0000 else 0x4_0000_0000;
  }

  lemma SubMultiple(d: nat, va: nat, off: nat)
    requires d > 0 && va % d == 0
    ensures (va - off) % d == 0 <==> off % d == 0
  {
    var p, q, s := va / d, off / d, off % d;
    assert va == d * p && off == d * q + s;
    assert d * p - d * q == d * (p - q);
    ShortOf(d, p - q, s);
  }

  /** A number short of a multiple is a multiple only if it is short by nothing. */
  lemma ShortOf(d: nat, k: int, s: nat)
    requires s < d
    ensures (d * k - s) % d == 0 <==> s == 0
  {
    if s == 0 {
      DivUnique(d, k, 0);
    } else {
      assert d * k - s == d * (k - 1) + (d - s);
      DivUnique(d, k - 1, d - s);
    }
  }

  /** The test the loop makes for one page size is the closed form's. */
  lemma GreedyLevel(r: Region, x: nat, level: nat)
    requires 2 <= level <= 3 && Limit(r) <= TWO48 && Base(r) <= x < Limit(r)
    ensures Candidate(r, BlockOf(level, x)) && First(BlockOf(level, x)) == x
            <==> && At(r, x) % Size(level) == 0 && IsAligned(level, MapFn(r.mapper, At(r, x)))
                 && Limit(r) - x >= Size(level) && NO_HUGEPAGES !in r.flags
  {
    AlignedAt(r, x, level);
    InBlock(BlockOf(level, x), x);
    if At(r, x) % Size(level) == 0 && r.mapper.Offset? {
      AlignedMapFn(r, At(r, x), level);
    }
    hide MapFn;
  }

  /** The greedy choice at a cut is the closed form. */
  lemma GreedyIsClosedForm(r: Region, x: nat)
    requires r.start % 0x1000 == 0 && r.size % 0x1000 == 0 && Limit(r) <= TWO48
    requires IsCut(r, x) && x < Limit(r)
    ensures At(r, x) >= 0 && Greedy(r, At(r, x), Limit(r) - x) == PageLevel(r, x)
  {
    hide Candidate, MapFn, BlockOf, First;
    GreedyLevel(r, x, 2);
    GreedyLevel(r, x, 3);
  }

  /** After a page comes the next one, or the end. */
  lemma NextCut(r: Region, x: nat)
    requires r.start % 0x1000 == 0 && r.size % 0x1000 == 0 && Limit(r) <= TWO48
    requires IsCut(r, x) && x < Limit(r)
    ensures End(PageAt(r, x)) == x + Size(PageLevel(r, x)) && IsCut(r, End(PageAt(r, x)))
  {
    var b := PageAt(r, x);
    PageAtChosen(r, x);
    var y := End(b);
    if y < Limit(r) {
      var c := PageAt(r, y);
      PageAtChosen(r, y);
      if First(c) < y {
        ChosenIsPageAt(r, c, y - 1);
        ChosenIsPageAt(r, b, y - 1);
      }
    }
  }

  // ---- The leaves of a region ---------------------------------------------------

  lemma OffsetAt(r: Region, d: nat)
    requires r.mapper.Offset? && MapFn(r.mapper, r.start) + d < TWO64
    ensures MapFn(r.mapper, r.start + d) == MapFn(r.mapper, r.start) + d
  {
    var a := r.start - r.mapper.off;
    DivUnique(TWO64, a / TWO64, a % TWO64 + d);
    assert a + d == TWO64 * (a / TWO64) + (a % TWO64 + d);
  }

  /** The physical address `map_page` is given for block `b`, rounded to the page. */
  function PageTarget(r: Region, b: Block): nat
    requires 1 <= b.level <= 3 && Base(r) <= First(b)
  {
    AlignDown(b.level, MapFn(r.mapper, At(r, First(b))))
  }

  lemma PageTargetFits(fmt: Format, r: Region, b: Block)
    requires Mappable(fmt, r) && 1 <= b.level <= 3 && Candidate(r, b)
    ensures PageTarget(r, b) <= MapFn(r.mapper, At(r, First(b))) < TWO52
  {
    if r.mapper.Offset? { OffsetAt(r, First(b) - Base(r)); }
  }

  function PageWord(fmt: Format, r: Region, b: Block): Word
    requires Mappable(fmt, r) && 1 <= b.level <= 3 && Candidate(r, b)
  {
    PageTargetFits(fmt, r, b);
    SetLeaf(fmt, ZERO, PageTarget(r, b), r.flags, b.level > 1)
  }

  lemma PageAligned(level: nat, addr: nat)
    requires 1 <= level <= 3
    ensures AlignDown(level, addr) / 0x1000 * 0x1000 == AlignDown(level, addr)
  {
    if level == 1 {
      MultipleOfPage(addr / 0x1000);
    } else if level == 2 {
      MultipleOfPage(512 * (addr / 0x20_0000));
    } else {
      MultipleOfPage(0x4_0000 * (addr / 0x4000_0000));
    }
  }

  lemma MultipleOfPage(m: nat)
    ensures 0x1000 * m / 0x1000 * 0x1000 == 0x1000 * m
  {
    DivUnique(0x1000, m, 0);
  }

  lemma PageWordMeaning(fmt: Format, r: Region, b: Block)
    requires Mappable(fmt, r) && 1 <= b.level <= 3 && Candidate(r, b)
    ensures var w := PageWord(fmt, r, b);
            && w.Fits() && !IsUnused(w) && IsHuge(w) == (b.level > 1)
            && Addr(w) == PageTarget(r, b) && Flags(fmt, w) == Visible(fmt, r.flags, b.level > 1)
  {
    PageTargetFits(fmt, r, b);
    SetLeafMeaning(fmt, ZERO, PageTarget(r, b), r.flags, b.level > 1);
    PageAligned(b.level, MapFn(r.mapper, At(r, First(b))));
  }

  ghost function ChosenBlocks(r: Region): set<Block> {
    set l: nat, k: nat | l <= 3 && k <= Limit(r) && Chosen(r, Block(l, k)) :: Block(l, k)
  }

  lemma ChosenBlocksAll(r: Region, b: Block)
    ensures b in ChosenBlocks(r) <==> Chosen(r, b)
  {
    hide Candidate, PageLevel, First, End, Limit;
    if Chosen(r, b) {
      CandidateEnds(r, b);
      NumBound(b);
      assert b == Block(b.level, b.num);
    }
  }

  lemma NumBound(b: Block)
    requires 1 <= b.level <= 3
    ensures b.num <= End(b)
  {
  }

  /** The leaves of the pages that start before position `x`. */
  ghost function LeavesUpto(fmt: Format, r: Region, x: nat): LeafMap
    requires Mappable(fmt, r)
  {
    map b | b in ChosenBlocks(r) && First(b) < x :: PageWord(fmt, r, b)
  }

  ghost function RegionLeaves(fmt: Format, r: Region): LeafMap
    requires Mappable(fmt, r)
  {
    LeavesUpto(fmt, r, Limit(r))
  }

  lemma LeavesUptoAt(fmt: Format, r: Region, x: nat, b: Block)
    requires Mappable(fmt, r)
    ensures b in LeavesUpto(fmt, r, x) <==> Chosen(r, b) && First(b) < x
    ensures b in LeavesUpto(fmt, r, x) ==>
              LeavesUpto(fmt, r, x)[b] == PageWord(fmt, r, b) && !IsUnused(PageWord(fmt, r, b))
  {
    ChosenBlocksAll(r, b);
    if Chosen(r, b) { PageWordMeaning(fmt, r, b); }
  }

  lemma LeavesUptoStep(fmt: Format, r: Region, x: nat)
    requires Mappable(fmt, r) && IsCut(r, x) && x < Limit(r)
    ensures Chosen(r, PageAt(r, x)) && PageAt(r, x) !in LeavesUpto(fmt, r, x)
    ensures LeavesUpto(fmt, r, End(PageAt(r, x)))
            == LeavesUpto(fmt, r, x)[PageAt(r, x) := PageWord(fmt, r, PageAt(r, x))]
  {
    var b := PageAt(r, x);
    PageAtChosen(r, x);
    var before, after := LeavesUpto(fmt, r, x), LeavesUpto(fmt, r, End(b));
    forall c: Block
      ensures c in after <==> c in before || c == b
    {
      LeavesUptoAt(fmt, r, x, c);
      LeavesUptoAt(fmt, r, End(b), c);
      if c in after && x <= First(c) {
        ChosenIsPageAt(r, b, First(c));
        ChosenIsPageAt(r, c, First(c));
      }
    }
    LeavesUptoAt(fmt, r, x, b);
  }

  /** Where the region sends an address of it. */
  function Target(fmt: Format, r: Region, va: nat): Mapping {
    var level := PageLevel(r, va % TWO48);
    Mapping(match r.mapper
            case Offset(_) => MapFn(r.mapper, va)
            case Fixed(paddr) => AlignDown(level, paddr) + va % Size(level),
            Visible(fmt, r.flags, level > 1), level)
  }

  lemma Position(r: Region, va: nat)
    requires Contains(r, va) && Limit(r) <= TWO48
    ensures Base(r) <= va % TWO48 < Limit(r) && va == At(r, va % TWO48)
  {
    DivUnique(TWO48, r.start / TWO48, Base(r) + va - r.start);
  }

  lemma FirstAligned(b: Block)
    requires 1 <= b.level <= 3
    ensures IsAligned(b.level, First(b)) && Size(b.level) > 0 && End(b) == First(b) + Size(b.level)
  {
    DivUnique(Size(b.level), b.num, 0);
  }

  lemma Remainder(d: nat, first: int, o: nat)
    requires o < d && first % d == 0
    ensures (first + o) % d == o
  {
    DivUnique(d, first / d, o);
  }

  lemma OffsetInBlock(r: Region, b: Block, va: nat)
    requires 1 <= b.level <= 3 && BlockOf(b.level, va) == b && va == At(r, va % TWO48)
    ensures va == At(r, First(b)) + va % Size(b.level) && IsAligned(b.level, First(b))
    ensures At(r, First(b)) % Size(b.level) == 0
  {
    hide Size, Base, BlockOf, IsAligned, First, End;
    FirstAligned(b);
    InBlock(b, va);
    AlignedAt(r, First(b), b.level);
    Remainder(Size(b.level), At(r, First(b)), va % TWO48 - First(b));
  }

  lemma LeafAddress(fmt: Format, r: Region, b: Block, va: nat)
    requires Mappable(fmt, r) && Contains(r, va) && va == At(r, va % TWO48)
    requires 1 <= b.level <= 3 && Candidate(r, b) && BlockOf(b.level, va) == b && b.level == PageLevel(r, va % TWO48)
    ensures PageTarget(r, b) + va % Size(b.level) == Target(fmt, r, va).paddr
  {
    hide Candidate, MapFn, Size, BlockOf, PageLevel, Visible, First, End, Base, At, AlignDown, IsAligned, Mappable;
    CandidateEnds(r, b);
    if r.mapper.Offset? { OffsetAddress(fmt, r, b, va); } else { FixedTarget(r, b); }
  }

  lemma FixedTarget(r: Region, b: Block)
    requires 1 <= b.level <= 3 && Base(r) <= First(b) && r.mapper.Fixed?
    ensures PageTarget(r, b) == AlignDown(b.level, r.mapper.paddr)
  {
  }

  lemma OffsetAddress(fmt: Format, r: Region, b: Block, va: nat)
    requires Mappable(fmt, r) && Contains(r, va) && va == At(r, va % TWO48) && r.mapper.Offset?
    requires 1 <= b.level <= 3 && Candidate(r, b) && BlockOf(b.level, va) == b && Base(r) <= First(b)
    ensures AlignDown(b.level, MapFn(r.mapper, At(r, First(b)))) + va % Size(b.level) == MapFn(r.mapper, va)
  {
    hide Candidate, MapFn, Size, BlockOf, First, End, Base, AlignDown, IsAligned;
    CandidateEnds(r, b);
    BeforeLimit(b);
    OffsetInBlock(r, b, va);
    OffsetFits(fmt, r, b);
    StartAligned(r, b);
    AlignedMapFn(r, At(r, First(b)), b.level);
    AlignedDown(b.level, MapFn(r.mapper, At(r, First(b))));
    MapFnFrom(fmt, r, First(b) - Base(r));
    MapFnFrom(fmt, r, va - r.start);
  }

  lemma StartAligned(r: Region, b: Block)
    requires 1 <= b.level <= 3 && Base(r) <= First(b) && At(r, First(b)) % Size(b.level) == 0
    ensures IsAligned(b.level, At(r, First(b)))
  {
  }

  lemma AlignedDown(level: nat, a: nat)
    requires 1 <= level <= 3 && IsAligned(level, a)
    ensures AlignDown(level, a) == a
  {
  }

  lemma OffsetFits(fmt: Format, r: Region, b: Block)
    requires Mappable(fmt, r) && 1 <= b.level <= 3 && Candidate(r, b) && r.mapper.Offset?
    ensures IsAligned(b.level, r.mapper.off)
  {
  }

  lemma BeforeLimit(b: Block)
    requires 1 <= b.level <= 3
    ensures First(b) < End(b)
  {
  }

  lemma MapFnFrom(fmt: Format, r: Region, d: nat)
    requires Mappable(fmt, r) && r.mapper.Offset? && d < r.size
    ensures MapFn(r.mapper, r.start + d) == MapFn(r.mapper, r.start) + d
  {
    hide MapFn;
    OffsetAt(r, d);
  }

  lemma TranslatePage(fmt: Format, r: Region, b: Block, va: nat)
    requires Mappable(fmt, r) && Contains(r, va) && va == At(r, va % TWO48)
    requires 1 <= b.level <= 3 && Candidate(r, b) && b == PageAt(r, va % TWO48)
    ensures Translate(fmt, PageWord(fmt, r, b), b.level, va) == Target(fmt, r, va)
  {
    hide BlockOf, Candidate, PageLevel, PageWord, PageTarget, Mappable, MapFn, At, Size, Visible, Flags, Addr;
    BlockOfLow(PageLevel(r, va % TWO48), va);
    PageWordMeaning(fmt, r, b);
    LeafAddress(fmt, r, b, va);
  }

  /** Blocks see the low 48 bits only. */
  lemma BlockOfLow(level: nat, va: nat)
    requires 1 <= level <= 5
    ensures BlockOf(level, va % TWO48) == BlockOf(level, va) && BlockOf(level, va).level == level
  {
    LowAddress(va % TWO48);
  }

  /** A leaf of the region translates every address under it to where the region sends it. */
  lemma LeafTarget(fmt: Format, r: Region, va: nat)
    requires Mappable(fmt, r) && Contains(r, va)
    ensures var b := PageAt(r, va % TWO48);
            && Chosen(r, b) && b in RegionLeaves(fmt, r)
            && Translate(fmt, RegionLeaves(fmt, r)[b], b.level, va) == Target(fmt, r, va)
  {
    Position(r, va);
    var x := va % TWO48;
    var b := PageAt(r, x);
    assert Chosen(r, b) && First(b) < Limit(r) by { PageAtChosen(r, x); }
    LeavesUptoAt(fmt, r, Limit(r), b);
    TranslatePage(fmt, r, b, va);
  }
}
