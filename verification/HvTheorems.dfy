/** The two start-up tables lead to the same memory. */
module HvTheorems {
  import opened Pte
  import opened Blocks
  import opened Tables
  import opened Regions
  import opened Frames
  import opened Steps
  import opened RegionSets
  import opened PageTables
  import opened MemorySets
  import opened HvMemory
  import opened Isolation

  /** The table is the one `init_hv_page_table` builds when it succeeds. */
  ghost predicate HostBuilt(m: MemorySet, c: Config)
    reads m, m.pt, m.pt.mem, m.pt.mem.frames
  {
    m.Agrees() && m.window == Canonical && m.pt.fmt == X86 && HostSet(c, m.regions)
  }

  // ---- Both tables lead to the same memory --------------------------------------------

  lemma PageDownShift(x: nat, off: nat)
    requires off % 0x1000 == 0
    ensures PageDown(x + off) == PageDown(x) + off
  {
  }

  lemma PageDownMod(x: nat)
    ensures PageDown(x) % TWO64 == PageDown(x % TWO64)
  {
    var q := x / TWO64;
    assert x == TWO64 * q + x % TWO64;
    PageDownShift(x % TWO64, TWO64 * q);
    DivUnique(TWO64, q, PageDown(x % TWO64));
  }

  /** The offset mapper sends the start of its region to the start of the memory. */
  lemma OffsetStart(v: nat, p: nat, size: nat, flags: MemFlags)
    requires v < TWO64 && p < TWO64
    ensures var r := NewOffsetRegion(v, p, size, flags);
            r.start == PageDown(v) && r.size == PageUp(size) && r.mapper.Offset? && PhysStart(r) == PageDown(p)
  {
    var r := NewOffsetRegion(v, p, size, flags);
    var a, b := PageDown(v), PageDown(p);
    assert PageDown(a) == a;
    var q := (a - b) / TWO64;
    assert a - r.mapper.off == TWO64 * q + b;
    DivUnique(TWO64, q, b);
  }

  lemma DirectRecorded(m: MemorySet, c: Config, k: nat)
    requires HostBuilt(m, c) && k < |c.mem| && DMA in c.mem[k].flags
    requires DirectRegion(c, c.mem[k]).size > 0
    ensures var r := DirectRegion(c, c.mem[k]);
            r.start in m.regions && m.regions[r.start] == r && Mappable(m.pt.fmt, r) && RegionIn(Canonical, r)
  {
    hide Tree, Typed, Tracked, DirectRegion, CoreRegion, DataRegion, Disjoint, Agree, Covers, Mappable;
    assert HostParts(c)[k + 2] == DirectPart(c, c.mem[k]) && Holds(m.regions, HostParts(c)[k + 2]);
    DisjointUsable(m.pt.fmt, Canonical, m.regions, DirectRegion(c, c.mem[k]).start);
  }

  lemma DirectStart(c: Config, d: MemDesc)
    requires d.phys < TWO64
    ensures var r := DirectRegion(c, d);
            r.mapper.Offset? && r.flags == {READ, WRITE} && PhysStart(r) == PageDown(d.phys)
  {
    hide PhysToVirt, PageDown, PageUp, PhysStart;
    OffsetStart(PhysToVirt(c, d.virt), d.phys, d.size, {READ, WRITE});
  }

  /** The direct map lets the hypervisor read and write guest RAM, and not execute it. */
  lemma DirectTarget(m: MemorySet, c: Config, k: nat, va: nat)
    requires HostBuilt(m, c) && k < |c.mem| && DMA in c.mem[k].flags
    requires Contains(DirectRegion(c, c.mem[k]), va) && c.mem[k].phys < TWO64
    ensures m.pt.Lookup(va).Ok?
    ensures m.pt.Lookup(va).value.paddr == PageDown(c.mem[k].phys) + va - DirectRegion(c, c.mem[k]).start
    ensures m.pt.Lookup(va).value.flags == {READ, WRITE}
  {
    hide HostSet, Agree, Covers, Disjoint, Tree, Typed, Tracked, DirectRegion, Visible, PhysStart, Query, PageDown,
         Mappable;
    DirectStart(c, c.mem[k]);
    DirectRecorded(m, c, k);
    OffsetTarget(m, DirectRegion(c, c.mem[k]), va);
    VisibleData(m.pt.Lookup(va).value.level > 1);
  }

  lemma VisibleData(huge: bool)
    ensures Visible(X86, {READ, WRITE}, huge) == {READ, WRITE}
    ensures Visible(X86, {READ, WRITE, EXECUTE}, huge) == {READ, WRITE, EXECUTE}
  {
  }

  lemma OffsetAligned(c: Config, x: nat)
    ensures PhysToVirt(c, x) % 0x1000 == (x - c.hvPhys) % 0x1000
  {
    var off, q := PhysVirtOffset(c), (HV_BASE - c.hvPhys) / TWO64;
    ModOfMod(x + off, 0x1000, 0x10_0000_0000_0000);
    assert x + off == 0x1000 * (HV_BASE / 0x1000 - 0x10_0000_0000_0000 * q) + (x - c.hvPhys);
    DivShift(0x1000, HV_BASE / 0x1000 - 0x10_0000_0000_0000 * q, x - c.hvPhys);
  }

  lemma OffsetPage(c: Config)
    requires c.hvPhys % 0x1000 == 0
    ensures PhysVirtOffset(c) % 0x1000 == 0
  {
    ModOfMod(HV_BASE - c.hvPhys, 0x1000, 0x10_0000_0000_0000);
    DivShift(0x1000, HV_BASE / 0x1000 - c.hvPhys / 0x1000, 0);
  }

  lemma PageDownAligned(x: nat)
    ensures PageDown(x) % 0x1000 == 0
  {
  }

  lemma NegAligned(x: nat, y: nat)
    requires x % 0x1000 == 0
    ensures (x - y) % 0x1000 == 0 <==> y % 0x1000 == 0
  {
  }

  /** The two tables start a region at corresponding pages exactly when the hypervisor's
      memory starts at a page. */
  lemma StartsCorrespond(c: Config, virt: nat)
    ensures PageDown(PhysToVirt(c, virt)) == PhysToVirt(c, PageDown(virt)) <==> c.hvPhys % 0x1000 == 0
  {
    hide PageDown, PhysVirtOffset;
    OffsetAligned(c, PageDown(virt));
    PageDownAligned(virt);
    PageDownAligned(PhysToVirt(c, virt));
    NegAligned(PageDown(virt), c.hvPhys);
    if c.hvPhys % 0x1000 == 0 {
      OffsetPage(c);
      PageDownShift(virt, PhysVirtOffset(c));
      PageDownMod(virt + PhysVirtOffset(c));
    }
  }

  lemma ShiftInside(c: Config, start: nat, n: nat, size: nat)
    requires n < size && PhysToVirt(c, start) + size < TWO64
    ensures PhysToVirt(c, start + n) == PhysToVirt(c, start) + n
  {
    var x := start + PhysVirtOffset(c);
    DivUnique(TWO64, x / TWO64, x % TWO64 + n);
  }

  lemma ShiftBack(c: Config, start: nat, n: nat)
    requires n <= PhysToVirt(c, start + n)
    ensures PhysToVirt(c, start) == PhysToVirt(c, start + n) - n
  {
    var x := start + n + PhysVirtOffset(c);
    DivUnique(TWO64, x / TWO64, x % TWO64 - n);
  }

  /** In a region of guest RAM, the hypervisor's direct map of an address and the guest's
      own table of it lead to the same memory, whatever the page sizes, exactly when the
      hypervisor's memory starts at a page. */
  lemma TablesAgreeExact(hv: MemorySet, gpm: MemorySet, c: Config, k: nat, gpa: nat)
    requires HostBuilt(hv, c) && Built(gpm, c)
    requires k < |c.mem| && DMA in c.mem[k].flags && c.mem[k].virt < TWO64 && c.mem[k].phys < TWO64
    requires Contains(GuestRegion(c.mem[k]), gpa) && Contains(DirectRegion(c, c.mem[k]), PhysToVirt(c, gpa))
    ensures hv.pt.Lookup(PhysToVirt(c, gpa)).Ok? && gpm.pt.Lookup(gpa).Ok?
    ensures hv.pt.Lookup(PhysToVirt(c, gpa)).value.paddr == gpm.pt.Lookup(gpa).value.paddr <==> c.hvPhys % 0x1000 == 0
  {
    hide HostBuilt, Built, PhysToVirt, PageDown, DirectRegion, GuestRegion, PhysStart, Query, Mappable;
    var d := c.mem[k];
    RegionStarts(c, d);
    StartsCorrespond(c, d.virt);
    DirectRecorded(hv, c, k);
    DirectTarget(hv, c, k, PhysToVirt(c, gpa));
    GuestTarget(gpm, c, k, gpa);
    var n := gpa - GuestRegion(d).start;
    if c.hvPhys % 0x1000 == 0 {
      ShiftInside(c, PageDown(d.virt), n, GuestRegion(d).size);
    } else if n <= PhysToVirt(c, gpa) {
      ShiftBack(c, PageDown(d.virt), n);
    }
  }

  lemma RegionStarts(c: Config, d: MemDesc)
    requires d.virt < TWO64 && d.phys < TWO64
    ensures var g, h := GuestRegion(d), DirectRegion(c, d);
            && g.start == PageDown(d.virt) && h.start == PageDown(PhysToVirt(c, d.virt)) && g.size == h.size
            && PhysStart(g) == PhysStart(h) == PageDown(d.phys)
  {
    OffsetStart(d.virt, d.phys, d.size, d.flags);
    OffsetStart(PhysToVirt(c, d.virt), d.phys, d.size, {READ, WRITE});
  }

  /** And then the direct map covers the whole region. */
  lemma DirectMapCovers(hv: MemorySet, c: Config, k: nat, gpa: nat)
    requires HostBuilt(hv, c)
    requires k < |c.mem| && DMA in c.mem[k].flags && c.mem[k].virt < TWO64 && c.mem[k].phys < TWO64
    requires c.hvPhys % 0x1000 == 0 && Contains(GuestRegion(c.mem[k]), gpa)
    ensures Contains(DirectRegion(c, c.mem[k]), PhysToVirt(c, gpa))
  {
    hide HostBuilt, PhysToVirt, PageDown, DirectRegion, GuestRegion, PhysStart, Mappable;
    var d := c.mem[k];
    RegionStarts(c, d);
    StartsCorrespond(c, d.virt);
    DirectRecorded(hv, c, k);
    ShiftInside(c, PageDown(d.virt), gpa - GuestRegion(d).start, GuestRegion(d).size);
  }

  // ---- The hypervisor's own memory --------------------------------------------------------

  /** The hypervisor's memory and its core are whole pages that fit above `HV_BASE`. */
  ghost predicate ImageFits(c: Config) {
    && c.hvPhys % 0x1000 == 0 && c.coreSize % 0x1000 == 0 && c.coreSize <= c.hvSize
    && c.hvPhys + c.hvSize <= TWO64 && HV_BASE + c.hvSize + 0xfff < TWO64
  }

  lemma PageUpCovers(size: nat)
    requires size + 0xfff < TWO64
    ensures PageUp(size) >= size && (size % 0x1000 == 0 ==> PageUp(size) == size)
  {
  }

  lemma NoWrap(x: nat)
    requires x < TWO64
    ensures x % TWO64 == x
  {
  }

  lemma WholePage(x: nat)
    requires x % 0x1000 == 0
    ensures PageDown(x) == x
  {
  }

  lemma PageSum(x: nat, y: nat)
    requires x % 0x1000 == 0 && y % 0x1000 == 0
    ensures (x + y) % 0x1000 == 0
  {
  }

  lemma CoreShape(c: Config)
    requires ImageFits(c) && c.coreSize > 0
    ensures var r := CoreRegion(c);
            && r.start == HV_BASE && r.size == c.coreSize && r.mapper.Offset? && PhysStart(r) == c.hvPhys
            && r.flags == {READ, WRITE, EXECUTE}
  {
    hide PageUp, PageDown, PhysStart;
    OffsetStart(HV_BASE, c.hvPhys, c.coreSize, {READ, WRITE, EXECUTE});
    PageUpCovers(c.coreSize);
    WholePage(c.hvPhys);
    WholePage(HV_BASE);
  }

  lemma DataIs(c: Config)
    requires ImageFits(c) && c.coreSize < c.hvSize
    ensures DataRegion(c)
            == NewOffsetRegion(HV_BASE + c.coreSize, c.hvPhys + c.coreSize, c.hvSize - c.coreSize, {READ, WRITE})
  {
    hide NewOffsetRegion;
    NoWrap(HV_BASE + c.coreSize);
    NoWrap(c.hvPhys + c.coreSize);
    NoWrap(c.hvSize - c.coreSize);
  }

  lemma DataShape(c: Config)
    requires ImageFits(c) && c.coreSize < c.hvSize
    ensures var r := DataRegion(c);
            && r.start == HV_BASE + c.coreSize && r.size >= c.hvSize - c.coreSize && r.mapper.Offset?
            && PhysStart(r) == c.hvPhys + c.coreSize && r.flags == {READ, WRITE}
  {
    hide PageUp, PageDown, PhysStart, DataRegion;
    DataIs(c);
    OffsetStart(HV_BASE + c.coreSize, c.hvPhys + c.coreSize, c.hvSize - c.coreSize, {READ, WRITE});
    PageUpCovers(c.hvSize - c.coreSize);
    PageSum(c.hvPhys, c.coreSize);
    PageSum(HV_BASE, c.coreSize);
    WholePage(c.hvPhys + c.coreSize);
    WholePage(HV_BASE + c.coreSize);
  }

  lemma ImageAddress(c: Config, p: nat)
    requires ImageFits(c) && InHv(c, p)
    ensures PhysToVirt(c, p) == HV_BASE + (p - c.hvPhys)
  {
    var gap, q := HV_BASE - c.hvPhys, (HV_BASE - c.hvPhys) / TWO64;
    assert p + gap % TWO64 == TWO64 * (-q) + (HV_BASE + (p - c.hvPhys));
    DivUnique(TWO64, -q, HV_BASE + (p - c.hvPhys));
  }

  lemma PartRecorded(m: MemorySet, c: Config, i: nat)
    requires HostBuilt(m, c) && i < |HostParts(c)| && HostParts(c)[i].size > 0
    ensures var r := HostParts(c)[i];
            r.start in m.regions && m.regions[r.start] == r && Mappable(X86, r) && RegionIn(Canonical, r)
  {
    hide Tree, Typed, Tracked, HostParts, Disjoint, Agree, Covers, Mappable;
    assert Holds(m.regions, HostParts(c)[i]);
    DisjointUsable(m.pt.fmt, Canonical, m.regions, HostParts(c)[i].start);
  }

  /** Through its own table the hypervisor finds every byte of its memory at the address it
      computes for it, may write all of it, and may execute exactly its core. */
  lemma HypervisorMapped(m: MemorySet, c: Config, p: nat)
    requires HostBuilt(m, c) && ImageFits(c) && InHv(c, p)
    ensures m.pt.Lookup(PhysToVirt(c, p)).Ok?
    ensures m.pt.Lookup(PhysToVirt(c, p)).value.paddr == p
    ensures m.pt.Lookup(PhysToVirt(c, p)).value.flags
            == if p < c.hvPhys + c.coreSize then {READ, WRITE, EXECUTE} else {READ, WRITE}
  {
    hide HostSet, Agree, Covers, Disjoint, Tree, Typed, Tracked, CoreRegion, DataRegion, DirectRegion, PhysStart,
         PhysToVirt, Query, Visible, Mappable;
    ImageAddress(c, p);
    var va := PhysToVirt(c, p);
    if p < c.hvPhys + c.coreSize {
      CoreShape(c);
      PartRecorded(m, c, 0);
      OffsetTarget(m, CoreRegion(c), va);
    } else {
      DataShape(c);
      PartRecorded(m, c, 1);
      OffsetTarget(m, DataRegion(c), va);
    }
    VisibleData(m.pt.Lookup(va).value.level > 1);
  }

  /** Nothing but the core, the data area and guest RAM is mapped for the hypervisor. */
  lemma NothingElseMapped(m: MemorySet, c: Config, va: nat)
    requires HostBuilt(m, c) && InWindow(Canonical, va) && m.pt.Lookup(va).Ok?
    ensures || Contains(CoreRegion(c), va) || Contains(DataRegion(c), va)
            || exists k | 0 <= k < |c.mem| :: DMA in c.mem[k].flags && Contains(DirectRegion(c, c.mem[k]), va)
  {
    hide Agree, Covers, Disjoint, Tree, Typed, Tracked, CoreRegion, DataRegion, DirectRegion, Query, Recorded,
         HostParts, Contains;
    QueryAnswers(m, va);
    var s :| s in m.regions && Contains(m.regions[s], va);
    var i := PartOf(HostParts(c), m.regions, s);
    WhichPart(c, i);
  }

  lemma PartOf(list: seq<Region>, regions: RegionMap, s: nat) returns (i: nat)
    requires Recorded(list, regions) && s in regions
    ensures i < |list| && list[i].size > 0 && regions[s] == list[i]
  {
    i :| 0 <= i < |list| && list[i].size > 0 && regions[s] == list[i];
  }

  lemma WhichPart(c: Config, i: nat)
    requires i < |HostParts(c)| && HostParts(c)[i].size > 0
    ensures || HostParts(c)[i] == CoreRegion(c) || HostParts(c)[i] == DataRegion(c)
            || (2 <= i < |c.mem| + 2 && DMA in c.mem[i - 2].flags && HostParts(c)[i] == DirectRegion(c, c.mem[i - 2]))
  {
    hide CoreRegion, DataRegion, DirectRegion;
    if i >= 2 { assert HostParts(c)[i] == DirectPart(c, c.mem[i - 2]); }
  }

  // ---- The configured ranges -------------------------------------------------------------

  /** The addresses a descriptor is configured for. */
  predicate InDesc(d: MemDesc, gpa: nat) {
    InRange(d.virt, d.size, gpa)
  }

  /** The region made of a descriptor holds all of them exactly when they round whole. */
  lemma GuestCovers(d: MemDesc)
    requires d.size > 0
    ensures (forall gpa: nat | InDesc(d, gpa) :: Contains(GuestRegion(d), gpa)) <==> RoundsWhole(d.virt, d.size)
  {
    RoundedCovers(d.virt, d.size);
    PageDownTwice(d.virt);
    assert forall x: nat :: Contains(GuestRegion(d), x) <==> InRange(PageDown(d.virt), PageUp(d.size), x);
  }

  lemma PageDownTwice(x: nat)
    ensures PageDown(PageDown(x)) == PageDown(x)
  {
  }

  /** The last half page of an unaligned range is in no region. */
  lemma DescTailLost()
    ensures var d := MemDesc(0x1800, 0x1800, 0x1000, {READ, DMA});
            InDesc(d, 0x27ff) && !Contains(GuestRegion(d), 0x27ff) && !RoundsWhole(d.virt, d.size)
  {
  }

  /** An address goes to the memory configured for it exactly when both sides of the
      descriptor start at the same place in a page. */
  lemma GuestTargetExact(m: MemorySet, c: Config, k: nat, gpa: nat)
    requires Built(m, c) && k < |c.mem| && c.mem[k].virt < TWO64 && c.mem[k].phys < TWO64
    requires InDesc(c.mem[k], gpa) && Contains(GuestRegion(c.mem[k]), gpa)
    ensures m.pt.Lookup(gpa).Ok?
    ensures m.pt.Lookup(gpa).value.paddr == c.mem[k].phys + (gpa - c.mem[k].virt)
            <==> c.mem[k].virt % 0x1000 == c.mem[k].phys % 0x1000
    ensures var a := m.pt.Lookup(gpa).value; a.flags == Visible(m.pt.fmt, c.mem[k].flags, a.level > 1)
  {
    hide GuestSet, Agree, Covers, Disjoint, Tree, Typed, Tracked, GuestRegion, DirectRegion, PhysStart, Query,
         Visible;
    RegionStarts(c, c.mem[k]);
    GuestTarget(m, c, k, gpa);
    PageDownRest(c.mem[k].virt);
    PageDownRest(c.mem[k].phys);
  }

  lemma PageDownRest(x: nat)
    ensures PageDown(x) + x % 0x1000 == x
  {
  }

  /** Where they do not, the first address goes elsewhere. */
  lemma DescShifted()
    ensures var d := MemDesc(0x2800, 0x1000, 0x1000, {READ, DMA});
            MapFn(GuestRegion(d).mapper, d.virt) != d.phys
  {
  }

  /** Every configured address of every region of guest RAM that rounds whole leads to the
      same memory through both tables, and to the configured memory if the two sides of its
      descriptor start at the same place in a page. The guest has the configured rights, and
      the hypervisor may read and write. */
  ghost predicate ConfiguredMemory(hv: MemorySet, gpm: MemorySet, c: Config)
    reads hv, hv.pt, hv.pt.mem, gpm, gpm.pt, gpm.pt.mem
  {
    forall k, gpa: nat | 0 <= k < |c.mem| && DMA in c.mem[k].flags && InDesc(c.mem[k], gpa)
                         && RoundsWhole(c.mem[k].virt, c.mem[k].size) ::
      SameTarget(hv, gpm, c, k, gpa)
  }

  ghost predicate SameTarget(hv: MemorySet, gpm: MemorySet, c: Config, k: nat, gpa: nat)
    requires k < |c.mem|
    reads hv, hv.pt, hv.pt.mem, gpm, gpm.pt, gpm.pt.mem
  {
    var a, b := hv.pt.Lookup(PhysToVirt(c, gpa)), gpm.pt.Lookup(gpa);
    && a.Ok? && b.Ok? && a.value.paddr == b.value.paddr
    && (c.mem[k].virt % 0x1000 == c.mem[k].phys % 0x1000 ==>
          b.value.paddr == c.mem[k].phys + (gpa - c.mem[k].virt))
    && a.value.flags == {READ, WRITE}
    && b.value.flags == Visible(gpm.pt.fmt, c.mem[k].flags, b.value.level > 1)
  }

  lemma ConfiguredAgree(hv: MemorySet, gpm: MemorySet, c: Config)
    requires HostBuilt(hv, c) && Built(gpm, c) && c.hvPhys % 0x1000 == 0
    requires forall k | 0 <= k < |c.mem| :: c.mem[k].virt < TWO64 && c.mem[k].phys < TWO64
    ensures ConfiguredMemory(hv, gpm, c)
  {
    hide HostBuilt, Built, GuestRegion, DirectRegion, PhysToVirt, Contains, Query, Visible;
    forall k, gpa: nat | 0 <= k < |c.mem| && DMA in c.mem[k].flags && InDesc(c.mem[k], gpa)
                         && RoundsWhole(c.mem[k].virt, c.mem[k].size)
      ensures SameTarget(hv, gpm, c, k, gpa)
    {
      GuestCovers(c.mem[k]);
      DirectMapCovers(hv, c, k, gpa);
      TablesAgreeExact(hv, gpm, c, k, gpa);
      GuestTargetExact(gpm, c, k, gpa);
      DirectTarget(hv, c, k, PhysToVirt(c, gpa));
    }
  }

  /** A hypervisor loaded in the middle of a page, with one region of guest RAM. */
  const SHIFTED := Config(0x800, 0x10_0000, 0x1000, 0x1000,
                          [MemDesc(0x20_0000, 0x20_0000, 0x20_0000, {READ, WRITE, DMA})])

  lemma ShiftedGuest()
    ensures HiddenRegion(SHIFTED) == Region(0, 0x10_0000, {READ, NO_HUGEPAGES}, Fixed(0x1000))
    ensures GuestRegion(SHIFTED.mem[0]) == Region(0x20_0000, 0x20_0000, {READ, WRITE, DMA}, Offset(0))
  {
  }

  lemma ShiftedCore()
    ensures CoreRegion(SHIFTED) == Region(HV_BASE, 0x1000, {READ, WRITE, EXECUTE}, Offset(HV_BASE))
  {
  }

  lemma ShiftedData()
    ensures DataRegion(SHIFTED) == Region(HV_BASE + 0x1000, 0xf_f000, {READ, WRITE}, Offset(HV_BASE))
  {
  }

  lemma ShiftedDirect()
    ensures PhysToVirt(SHIFTED, 0x20_0000) == HV_BASE + 0x1f_f800
    ensures DirectRegion(SHIFTED, SHIFTED.mem[0])
            == Region(HV_BASE + 0x1f_f000, 0x20_0000, {READ, WRITE}, Offset(HV_BASE - 0x1000))
  {
  }

  /** The builders accept it. */
  lemma ShiftedUsable(fmt: Format)
    ensures HostUsable(SHIFTED) && GuestUsable(fmt, SHIFTED)
  {
    hide HiddenRegion, GuestRegion, CoreRegion, DataRegion, DirectRegion, Usable;
    ShiftedGuestUsable(fmt);
    ShiftedHostUsable();
  }

  lemma ShiftedGuestUsable(fmt: Format)
    ensures Usable(fmt, Low, HiddenRegion(SHIFTED)) && Usable(fmt, Low, GuestRegion(SHIFTED.mem[0]))
  {
    hide HiddenRegion, GuestRegion;
    ShiftedGuest();
  }

  lemma ShiftedHostUsable()
    ensures Usable(X86, Canonical, CoreRegion(SHIFTED)) && Usable(X86, Canonical, DataRegion(SHIFTED))
    ensures Usable(X86, Canonical, DirectRegion(SHIFTED, SHIFTED.mem[0]))
  {
    hide CoreRegion, DataRegion, DirectRegion;
    ShiftedCore();
    ShiftedData();
    ShiftedDirect();
  }

  /** Its two tables lead to different memory at the first address of that RAM. */
  lemma TablesDiffer(hv: MemorySet, gpm: MemorySet)
    requires HostBuilt(hv, SHIFTED) && Built(gpm, SHIFTED)
    ensures var a, b := hv.pt.Lookup(PhysToVirt(SHIFTED, 0x20_0000)), gpm.pt.Lookup(0x20_0000);
            a.Ok? && b.Ok? && a.value.paddr == 0x20_0800 && b.value.paddr == 0x20_0000
  {
    hide HostBuilt, Built, Query, GuestRegion, DirectRegion;
    ShiftedGuest();
    ShiftedDirect();
    DirectTarget(hv, SHIFTED, 0, HV_BASE + 0x1f_f800);
    GuestTarget(gpm, SHIFTED, 0, 0x20_0000);
  }

  // ---- Building both in one memory -----------------------------------------------------

  /** A tree survives what happens to frames that are not its own. */
  lemma TreeStays(v: View, h: Heap, roles: Roles)
    requires Typed(v.h, v.roles) && Tree(v) && FramesKept(v.h, v.roles, h, roles)
    ensures Tree(v.(h := h, roles := roles))
    ensures v.root in v.roles && v.root in roles && roles[v.root] == v.roles[v.root]
  {
    hide Typed, SlotOk;
    forall b <- v.tables ensures v.tables[b] in v.roles { assert TableOk(v, b); }
    TreeFrame(v, h, roles);
  }

  /** Every address of every region of guest RAM leads to the same memory through both. */
  ghost predicate SameMemory(hv: MemorySet, gpm: MemorySet, c: Config)
    reads hv, hv.pt, hv.pt.mem, gpm, gpm.pt, gpm.pt.mem
  {
    forall k, gpa: nat | 0 <= k < |c.mem| && DMA in c.mem[k].flags && Contains(GuestRegion(c.mem[k]), gpa) ::
      var a, b := hv.pt.Lookup(PhysToVirt(c, gpa)), gpm.pt.Lookup(gpa);
      a.Ok? && b.Ok? && a.value.paddr == b.value.paddr
  }

  lemma BothAgree(hv: MemorySet, gpm: MemorySet, c: Config)
    requires HostBuilt(hv, c) && Built(gpm, c)
    requires c.hvPhys % 0x1000 == 0 && forall k | 0 <= k < |c.mem| :: c.mem[k].virt < TWO64 && c.mem[k].phys < TWO64
    ensures SameMemory(hv, gpm, c)
  {
    hide HostBuilt, Built, GuestRegion, DirectRegion, PhysToVirt, Contains, Query;
    forall k, gpa: nat | 0 <= k < |c.mem| && DMA in c.mem[k].flags && Contains(GuestRegion(c.mem[k]), gpa)
      ensures var a, b := hv.pt.Lookup(PhysToVirt(c, gpa)), gpm.pt.Lookup(gpa);
              a.Ok? && b.Ok? && a.value.paddr == b.value.paddr
    {
      DirectMapCovers(hv, c, k, gpa);
      TablesAgreeExact(hv, gpm, c, k, gpa);
    }
  }

  /** `cell::init`: the root cell's table, in frames of the allocator that the hypervisor's
      table uses. That table stays as it was, whether this succeeds or not; on failure the
      unfinished set is dropped, which does not panic. */
  method InitCell(hv: MemorySet, c: Config, nested: Format) returns (gpm: MemorySet?, why: CellResult)
    requires hv.Agrees() && GuestUsable(nested, c)
    modifies hv.pt.mem, hv.pt.mem.frames
    ensures hv.Agrees() && WhyNoCell(c, why, hv.pt.mem.frames.free)
    ensures gpm != null <==> why.CellReady?
    ensures gpm != null ==> Built(gpm, c) && gpm.pt.fmt == nested
  {
    hide GuestSet, GuestUsable, Agree, Covers, Disjoint, Tree, Typed, Tracked, FramesKept, WhyNoCell;
    ghost var v := hv.pt.Now();
    gpm, why := NewCell(hv.pt.mem, c, nested);
    TreeStays(v, hv.pt.mem.h, hv.pt.mem.roles);
  }

  datatype MemoryResult = MemoryReady | NoHostRoot | HostFailed(host: InitResult) | CellNotReady(cell: CellResult)

  /** Why memory initialisation has ended as it has. */
  ghost predicate WhyMemory(c: Config, why: MemoryResult, free: set<nat>) {
    match why
    case MemoryReady => WhyHost(c, Ready, free) && !Clash(GuestParts(c))
    case NoHostRoot => free == {}
    case HostFailed(e) => !e.Ready? && WhyHost(c, e, free)
    case CellNotReady(e) => !e.CellReady? && WhyNoCell(c, e, free)
  }

  /** The memory part of `primary_init_early`: the hypervisor's table, then the root cell's,
      in frames of one allocator. When both succeed and the hypervisor's memory starts at a
      page, they lead to the same guest RAM. */
  method InitMemory(mem: PhysMem, c: Config, nested: Format)
    returns (hv: MemorySet?, gpm: MemorySet?, why: MemoryResult)
    requires mem.Valid() && HostUsable(c) && GuestUsable(nested, c)
    requires forall k | 0 <= k < |c.mem| :: c.mem[k].virt < TWO64 && c.mem[k].phys < TWO64
    modifies mem, mem.frames
    ensures WhyMemory(c, why, mem.frames.free) && (gpm != null <==> why.MemoryReady?)
    ensures gpm != null ==> hv != null && HostBuilt(hv, c) && Built(gpm, c) && gpm.pt.fmt == nested
    ensures gpm != null && c.hvPhys % 0x1000 == 0 ==> SameMemory(hv, gpm, c) && ConfiguredMemory(hv, gpm, c)
  {
    hide HostSet, GuestSet, HostUsable, GuestUsable, Agree, Covers, Disjoint, Tree, Typed, Tracked, OthersKept,
         SameMemory, ConfiguredMemory, Strays, Clash, HostParts, GuestParts, NoEmptyTables, WhyNot;
    gpm := null;
    hv := NewSet(mem, X86, Canonical);
    if hv == null { return null, null, NoHostRoot; }
    var e := InitHvPageTable(hv, c);
    if !e.Ready? {
      var panicked := hv.Clear();
      assert !panicked;
      return hv, null, HostFailed(e);
    }
    var cell;
    gpm, cell := InitCell(hv, c, nested);
    if gpm == null { return hv, null, CellNotReady(cell); }
    if c.hvPhys % 0x1000 == 0 {
      BothAgree(hv, gpm, c);
      ConfiguredAgree(hv, gpm, c);
    }
    why := MemoryReady;
  }
}
