/** Page-table entries: the three 64-bit encodings (x86 host tables, Intel EPT,
    AMD NPT) behind the one entry interface the page-table code uses.

    A 64-bit entry is split along its fields: the number in bits 12..52, and the
    set of the other bit positions that are 1. `|` of flags is a union, a masked
    store replaces the bits under the mask. */
module Pte {
  const TWO52: nat := 0x10_0000_0000_0000
  const TWO64: nat := 0x1_0000_0000_0000_0000

  datatype MemFlag = READ | WRITE | EXECUTE | DMA | IO | NO_HUGEPAGES | USER
  type MemFlags = set<MemFlag>

  datatype Format = X86 | Ept | Npt

  datatype Word = Word(frame: nat, bits: set<nat>) {
    /** This value is the split form of some 64-bit word. */
    ghost predicate Fits() {
      frame < 0x100_0000_0000 && forall i <- bits :: i < 12 || 52 <= i < 64
    }
  }

  const ZERO := Word(0, {})

  function Bit(on: bool, position: nat): set<nat> {
    if on then {position} else {}
  }

  // ---- Getters -----------------------------------------------------------

  function Addr(w: Word): nat {
    w.frame * 0x1000
  }

  predicate IsUnused(w: Word) {
    w == ZERO
  }

  predicate IsPresent(fmt: Format, w: Word) {
    0 in w.bits || (fmt.Ept? && (1 in w.bits || 2 in w.bits))
  }

  predicate IsHuge(w: Word) {
    7 in w.bits
  }

  function Flags(fmt: Format, w: Word): MemFlags {
    if fmt.Ept? then
      (if 0 in w.bits then {READ} else {})
      + (if 1 in w.bits then {WRITE} else {})
      + (if 2 in w.bits then {EXECUTE} else {})
    else if w.bits == {} then
      {}
    else
      {READ}
      + (if 1 in w.bits then {WRITE} else {})
      + (if 63 !in w.bits then {EXECUTE} else {})
      + (if 2 in w.bits then {USER} else {})
      + (if 4 in w.bits then {IO} else {})
  }

  // ---- Setters -----------------------------------------------------------

  /** `PTF::from(flags)`, with the huge-page bit. */
  function X86Bits(flags: MemFlags, huge: bool): set<nat> {
    (if flags == {} then {} else
       {0} + Bit(WRITE in flags, 1) + Bit(USER in flags, 2) + Bit(IO in flags, 4)
       + Bit(EXECUTE !in flags, 63))
    + Bit(huge, 7)
  }

  /** `EPTFlags::from(flags)`, with the huge-page bit. */
  function EptBits(flags: MemFlags, huge: bool): set<nat> {
    Bit(READ in flags, 0) + Bit(WRITE in flags, 1) + Bit(EXECUTE in flags, 2) + Bit(huge, 7)
  }

  /** `set_flags_and_mem_type`: bits 0..12 are replaced, then bits 3..6 by the memory type. */
  function SetEptLow(w: Word, flagBits: set<nat>, memType: set<nat>): Word {
    Word(w.frame, (set i | i in w.bits && 12 <= i) + (flagBits - {3, 4, 5}) + memType)
  }

  /** The masked store of x86, and `set_bits(12..52, ..)` of EPT, which panics on a
      value that does not fit its field. */
  function SetAddr(fmt: Format, w: Word, paddr: nat): Word
    requires fmt.Ept? ==> paddr < TWO52
  {
    Word(if fmt.Ept? then paddr / 0x1000 else paddr / 0x1000 % 0x100_0000_0000, w.bits)
  }

  function SetFlags(fmt: Format, w: Word, flags: MemFlags, huge: bool): Word {
    match fmt
    case X86 => Word(w.frame, X86Bits(flags, huge))
    case Npt => Word(w.frame, X86Bits(flags + {USER}, huge))
    case Ept => SetEptLow(w, EptBits(flags, huge), {4, 5}) // write-back, 6
  }

  function SetTable(fmt: Format, w: Word, paddr: nat): Word
    requires fmt.Ept? ==> paddr < TWO52
  {
    if fmt.Ept? then SetEptLow(SetAddr(fmt, w, paddr), {0, 1, 2}, {})
    else Word(SetAddr(fmt, w, paddr).frame, {0, 1, 2})
  }

  /** How `map_page` and `update` write a terminal entry over the word `w`. */
  function SetLeaf(fmt: Format, w: Word, paddr: nat, flags: MemFlags, huge: bool): Word
    requires fmt.Ept? ==> paddr < TWO52
  {
    SetFlags(fmt, SetAddr(fmt, w, paddr), flags, huge)
  }

  // ---- What the setters mean to the getters --------------------------------

  /** The part of a region's flags that its entries can give back. */
  function Visible(fmt: Format, flags: MemFlags, huge: bool): MemFlags {
    match fmt
    case Ept => flags * {READ, WRITE, EXECUTE}
    case Npt => {READ, USER} + flags * {WRITE, EXECUTE, IO}
    case X86 =>
      if flags != {} then {READ} + flags * {WRITE, EXECUTE, USER, IO}
      else if huge then {READ, EXECUTE} else {}
  }

  /** A present entry that points to the next table. */
  predicate IsTable(fmt: Format, w: Word) {
    IsPresent(fmt, w) && !IsHuge(w)
  }

  /** Every encoding turns any word into a link to the table frame it is given. */
  lemma SetTableMeaning(fmt: Format, w: Word, paddr: nat)
    requires w.Fits() && paddr % 0x1000 == 0 && paddr < TWO52
    ensures var e := SetTable(fmt, w, paddr);
            e.Fits() && IsTable(fmt, e) && Addr(e) == paddr
  {
  }

  lemma X86BitsMeaning(flags: MemFlags, huge: bool)
    requires flags != {}
    ensures var bits := X86Bits(flags, huge);
            && 0 in bits && (1 in bits <==> WRITE in flags) && (2 in bits <==> USER in flags)
            && (4 in bits <==> IO in flags) && (63 in bits <==> EXECUTE !in flags) && (7 in bits <==> huge)
            && forall i <- bits :: i < 12 || 52 <= i < 64
  {
  }

  lemma X86FlagsBack(fmt: Format, frame: nat, flags: MemFlags, huge: bool)
    requires !fmt.Ept? && flags != {}
    ensures Flags(fmt, Word(frame, X86Bits(flags, huge))) == {READ} + flags * {WRITE, EXECUTE, USER, IO}
    ensures IsHuge(Word(frame, X86Bits(flags, huge))) == huge && !IsUnused(Word(frame, X86Bits(flags, huge)))
    ensures forall i <- X86Bits(flags, huge) :: i < 12 || 52 <= i < 64
  {
    hide X86Bits;
    X86BitsMeaning(flags, huge);
    var got := Flags(fmt, Word(frame, X86Bits(flags, huge)));
    assert WRITE in got <==> WRITE in flags;
    assert USER in got <==> USER in flags;
    assert IO in got <==> IO in flags;
    assert EXECUTE in got <==> EXECUTE in flags;
  }

  lemma EptFlagsBack(w: Word, flags: MemFlags, huge: bool)
    ensures var e := SetFlags(Ept, w, flags, huge);
            && Flags(Ept, e) == flags * {READ, WRITE, EXECUTE}
            && IsHuge(e) == huge && !IsUnused(e)
  {
    var bits := SetFlags(Ept, w, flags, huge).bits;
    assert 0 in bits <==> READ in flags;
    assert 1 in bits <==> WRITE in flags;
    assert 2 in bits <==> EXECUTE in flags;
    assert 7 in bits <==> huge;
    assert 4 in bits;
  }

  /** What one `set_flags` writes, apart from the frame. */
  ghost predicate FlagsWritten(fmt: Format, e: Word, flags: MemFlags, huge: bool) {
    && (forall i <- e.bits :: i < 12 || 52 <= i < 64)
    && IsHuge(e) == huge
    && Flags(fmt, e) == Visible(fmt, flags, huge)
    && (e.bits == {} <==> fmt.X86? && flags == {} && !huge)
  }

  lemma SetFlagsX86(w: Word, flags: MemFlags, huge: bool)
    ensures FlagsWritten(X86, SetFlags(X86, w, flags, huge), flags, huge)
  {
    if flags == {} {
      assert X86Bits(flags, huge) == Bit(huge, 7);
    } else {
      hide X86Bits;
      X86FlagsBack(X86, w.frame, flags, huge);
    }
  }

  lemma SetFlagsNpt(w: Word, flags: MemFlags, huge: bool)
    ensures FlagsWritten(Npt, SetFlags(Npt, w, flags, huge), flags, huge)
  {
    hide X86Bits;
    assert USER in flags + {USER};
    X86FlagsBack(Npt, w.frame, flags + {USER}, huge);
  }

  lemma SetFlagsEpt(w: Word, flags: MemFlags, huge: bool)
    requires w.Fits()
    ensures FlagsWritten(Ept, SetFlags(Ept, w, flags, huge), flags, huge)
  {
    EptFlagsBack(w, flags, huge);
    hide Flags;
  }

  lemma SetFlagsMeaning(fmt: Format, w: Word, flags: MemFlags, huge: bool)
    requires w.Fits()
    ensures FlagsWritten(fmt, SetFlags(fmt, w, flags, huge), flags, huge)
    ensures SetFlags(fmt, w, flags, huge).frame == w.frame
  {
    hide FlagsWritten, X86Bits, EptBits;
    match fmt
    case X86 => SetFlagsX86(w, flags, huge);
    case Npt => SetFlagsNpt(w, flags, huge);
    case Ept => SetFlagsEpt(w, flags, huge);
  }

  /** A terminal entry gives back the visible flags and the page kind it was written with,
      whatever word it overwrote; x86 keeps bits 12 to 52 of any address. */
  lemma SetLeafAny(fmt: Format, w: Word, paddr: nat, flags: MemFlags, huge: bool)
    requires w.Fits() && (fmt.Ept? ==> paddr < TWO52)
    ensures var e := SetLeaf(fmt, w, paddr, flags, huge);
            && e.Fits()
            && e.frame == paddr / 0x1000 % 0x100_0000_0000
            && IsHuge(e) == huge
            && Flags(fmt, e) == Visible(fmt, flags, huge)
            && (IsUnused(e) <==> fmt.X86? && flags == {} && !huge && paddr / 0x1000 % 0x100_0000_0000 == 0)
  {
    var w' := SetAddr(fmt, w, paddr);
    hide SetFlags, Flags, Visible, IsHuge;
    SetFlagsMeaning(fmt, w', flags, huge);
    if paddr < TWO52 { FieldFits(paddr); }
  }

  lemma FieldFits(paddr: nat)
    requires paddr < TWO52
    ensures paddr / 0x1000 % 0x100_0000_0000 == paddr / 0x1000
  {
  }

  /** An address below 2^52 is given back too, and the entry reads as unused in exactly one
      case. */
  lemma SetLeafMeaning(fmt: Format, w: Word, paddr: nat, flags: MemFlags, huge: bool)
    requires w.Fits() && paddr < TWO52
    ensures var e := SetLeaf(fmt, w, paddr, flags, huge);
            && e.Fits()
            && Addr(e) == paddr / 0x1000 * 0x1000
            && IsHuge(e) == huge
            && Flags(fmt, e) == Visible(fmt, flags, huge)
            && (IsUnused(e) <==> fmt.X86? && flags == {} && !huge && paddr < 0x1000)
  {
    hide SetLeaf, Flags, Visible, IsHuge, IsUnused;
    SetLeafAny(fmt, w, paddr, flags, huge);
    FieldFits(paddr);
  }

  /** That case: no flags for the first page. */
  lemma EmptyLeafLost()
    ensures IsUnused(SetLeaf(X86, ZERO, 0, {}, false))
  {
  }
}
