/** The root cell's table hides the hypervisor's memory from the guest. */
module Isolation {
  import opened Pte
  import opened Blocks
  import opened Tables
  import opened Regions
  import opened Steps
  import opened RegionSets
  import opened PageTables
  import opened MemorySets
  import opened HvMemory

  /** The hypervisor's memory as configured; the region inserted for it is rounded to pages. */
  predicate InHv(c: Config, x: nat) {
    InRange(c.hvPhys, c.hvSize, x)
  }

  /** The table is the one `Cell::new_root` builds when it succeeds. */
  ghost predicate Built(m: MemorySet, c: Config)
    reads m, m.pt, m.pt.mem, m.pt.mem.frames
  {
    m.Agrees() && m.window == Low && GuestSet(c, m.regions)
  }

  // ---- The hidden range -----------------------------------------------------------------

  /** The hidden region holds all of the hypervisor's memory exactly when that memory rounds
      whole. */
  lemma HiddenCovers(c: Config)
    requires c.hvSize > 0
    ensures (forall x: nat | InHv(c, x) :: Contains(HiddenRegion(c), x)) <==> RoundsWhole(c.hvPhys, c.hvSize)
  {
    RoundedCovers(c.hvPhys, c.hvSize);
    assert forall x: nat :: Contains(HiddenRegion(c), x) <==> InRange(PageDown(c.hvPhys), PageUp(c.hvSize), x);
  }

  /** Without huge pages every page is small. */
  lemma SmallPages(r: Region, x: nat)
    requires NO_HUGEPAGES in r.flags
    ensures PageLevel(r, x) == 1
  {
  }

  /** At this address the guest sees the empty page, and can neither write nor execute it. */
  ghost predicate Hides(m: MemorySet, c: Config, gpa: nat)
    reads m.pt, m.pt.mem
  {
    && m.pt.Lookup(gpa).Ok?
    && var a := m.pt.Lookup(gpa).value;
    && a.paddr == PageDown(c.emptyPage) + gpa % 0x1000 && WRITE !in a.flags && EXECUTE !in a.flags
  }

  lemma HiddenRecorded(m: MemorySet, c: Config)
    requires m.Valid() && m.window == Low && GuestSet(c, m.regions) && HiddenRegion(c).size > 0
    ensures var r := HiddenRegion(c);
            && r.start in m.regions && m.regions[r.start] == r && RegionIn(Low, r)
            && r.mapper == Fixed(c.emptyPage) && r.flags == {READ, NO_HUGEPAGES}
  {
    hide Agree, Covers, Tree, Typed, Tracked, PageUp, PageDown;
    var r := HiddenRegion(c);
    assert GuestParts(c)[0] == r && Holds(m.regions, GuestParts(c)[0]);
    DisjointUsable(m.pt.fmt, Low, m.regions, r.start);
  }

  lemma HiddenFlags(fmt: Format)
    ensures WRITE !in Visible(fmt, {READ, NO_HUGEPAGES}, false) && EXECUTE !in Visible(fmt, {READ, NO_HUGEPAGES}, false)
  {
  }

  lemma RegionHidden(m: MemorySet, c: Config, gpa: nat)
    requires Built(m, c) && Contains(HiddenRegion(c), gpa)
    ensures Hides(m, c, gpa)
  {
    hide GuestSet, Agree, Covers, Tree, Typed, Tracked, HiddenRegion, Visible, PageLevel, MapFn, Query;
    HiddenRecorded(m, c);
    QueryAnswers(m, gpa);
    SmallPages(HiddenRegion(c), gpa % TWO48);
    HiddenFlags(m.pt.fmt);
  }

  /** Hypervisor memory that rounds whole is hidden at every address. */
  lemma HypervisorHidden(m: MemorySet, c: Config)
    requires Built(m, c) && c.hvSize > 0 && RoundsWhole(c.hvPhys, c.hvSize)
    ensures forall gpa: nat | InHv(c, gpa) :: Hides(m, c, gpa)
  {
    hide Built, HiddenRegion, InHv, Hides;
    HiddenCovers(c);
    forall gpa: nat | InHv(c, gpa) ensures Hides(m, c, gpa) {
      RegionHidden(m, c, gpa);
    }
  }

  ghost function PhysStart(r: Region): nat {
    MapFn(r.mapper, r.start)
  }

  lemma GuestRecorded(m: MemorySet, c: Config, k: nat)
    requires m.Valid() && m.window == Low && GuestSet(c, m.regions)
    requires k < |c.mem| && GuestRegion(c.mem[k]).size > 0
    ensures var r := GuestRegion(c.mem[k]);
            && r.start in m.regions && m.regions[r.start] == r && r.mapper.Offset? && r.flags == c.mem[k].flags
            && Mappable(m.pt.fmt, r) && RegionIn(Low, r)
  {
    hide Tree, Typed, Tracked, PageUp, PageDown, Disjoint, Mappable;
    var r := GuestRegion(c.mem[k]);
    assert GuestParts(c)[k + 1] == r && Holds(m.regions, GuestParts(c)[k + 1]);
    DisjointUsable(m.pt.fmt, Low, m.regions, r.start);
  }

  /** Every address of a recorded region with an offset goes to its memory, with its flags. */
  lemma OffsetTarget(m: MemorySet, r: Region, va: nat)
    requires m.Agrees() && r.start in m.regions && m.regions[r.start] == r && r.mapper.Offset?
    requires Mappable(m.pt.fmt, r) && RegionIn(m.window, r) && Contains(r, va)
    ensures InWindow(m.window, va) && m.pt.Lookup(va).Ok?
    ensures m.pt.Lookup(va).value.paddr == PhysStart(r) + va - r.start
    ensures var a := m.pt.Lookup(va).value; a.flags == Visible(m.pt.fmt, r.flags, a.level > 1)
  {
    hide Agree, Covers, Disjoint, Tree, Typed, Tracked, PageLevel, Visible, MapFn, Query;
    QueryAnswers(m, va);
    OffsetAt(r, va - r.start);
  }

  lemma GuestTarget(m: MemorySet, c: Config, k: nat, gpa: nat)
    requires Built(m, c) && k < |c.mem| && Contains(GuestRegion(c.mem[k]), gpa)
    ensures m.pt.Lookup(gpa).Ok? && InWindow(Low, gpa)
    ensures m.pt.Lookup(gpa).value.paddr == PhysStart(GuestRegion(c.mem[k])) + gpa - GuestRegion(c.mem[k]).start
    ensures var a := m.pt.Lookup(gpa).value; a.flags == Visible(m.pt.fmt, c.mem[k].flags, a.level > 1)
  {
    hide GuestSet, Agree, Covers, Disjoint, Tree, Typed, Tracked, GuestRegion, Visible, PhysStart, Query, Mappable;
    GuestRecorded(m, c, k);
    OffsetTarget(m, GuestRegion(c.mem[k]), gpa);
  }

  /** The inserts have checked the guest's regions against the hidden range. */
  lemma GuestApart(m: MemorySet, c: Config, k: nat)
    requires m.Valid() && m.window == Low && GuestSet(c, m.regions) && k < |c.mem|
    requires GuestRegion(c.mem[k]).size > 0 && HiddenRegion(c).size > 0
    ensures !Overlap(GuestRegion(c.mem[k]), HiddenRegion(c))
  {
    hide GuestSet, Tree, Typed, Tracked, GuestRegion, HiddenRegion, Usable, Overlap, Mappable;
    var r, hidden := GuestRegion(c.mem[k]), HiddenRegion(c);
    GuestRecorded(m, c, k);
    HiddenRecorded(m, c);
    assert r.start != hidden.start;
    assert !Overlap(m.regions[r.start], m.regions[hidden.start]);
  }

  lemma MappedByGuestRegion(m: MemorySet, c: Config, gpa: nat) returns (k: nat)
    requires Built(m, c)
    requires InWindow(Low, gpa) && !Contains(HiddenRegion(c), gpa) && m.pt.Lookup(gpa).Ok?
    ensures k < |c.mem| && Contains(GuestRegion(c.mem[k]), gpa)
  {
    hide Agree, Covers, Disjoint, Tree, Typed, Tracked, GuestRegion, HiddenRegion, Query;
    QueryAnswers(m, gpa);
    var s :| s in m.regions && Contains(m.regions[s], gpa);
    var i :| 0 <= i < |GuestParts(c)| && m.regions[s] == GuestParts(c)[i];
    k := i - 1;
  }

  /** No configured region is mapped onto the empty page. */
  ghost predicate EmptyPageApart(c: Config) {
    forall k | 0 <= k < |c.mem| && GuestRegion(c.mem[k]).size > 0 ::
      var r := GuestRegion(c.mem[k]);
      PhysStart(r) + r.size <= PageDown(c.emptyPage) || PageDown(c.emptyPage) + 0x1000 <= PhysStart(r)
  }

  lemma NotHidden(m: MemorySet, c: Config, gpa: nat)
    requires Built(m, c) && EmptyPageApart(c) && InWindow(Low, gpa) && !Contains(HiddenRegion(c), gpa)
    ensures !Hides(m, c, gpa)
  {
    hide GuestSet, Agree, Covers, Disjoint, Tree, Typed, Tracked, GuestRegion, HiddenRegion, PhysStart, PageDown;
    if m.pt.Lookup(gpa).Ok? {
      var k := MappedByGuestRegion(m, c, gpa);
      GuestTarget(m, c, k, gpa);
    }
  }

  /** And only then, unless the configuration maps guest memory onto the empty page. */
  lemma HiddenExact(m: MemorySet, c: Config)
    requires Built(m, c) && c.hvSize > 0 && c.hvPhys + c.hvSize <= TWO48 && EmptyPageApart(c)
    ensures (forall gpa: nat | InHv(c, gpa) :: Hides(m, c, gpa)) <==> RoundsWhole(c.hvPhys, c.hvSize)
  {
    hide Built, HiddenRegion, Hides, RoundsWhole, EmptyPageApart;
    HiddenCovers(c);
    if RoundsWhole(c.hvPhys, c.hvSize) {
      HypervisorHidden(m, c);
    } else {
      var gpa: nat :| InHv(c, gpa) && !Contains(HiddenRegion(c), gpa);
      NotHidden(m, c, gpa);
    }
  }

  // ---- The rest of the guest's memory ---------------------------------------------------

  /** The memory the region is mapped onto does not meet the hypervisor's. */
  ghost predicate PhysApart(c: Config, r: Region) {
    PhysStart(r) + r.size <= c.hvPhys || c.hvPhys + c.hvSize <= PhysStart(r)
  }

  /** An address outside the hidden region does not lead into the hypervisor's memory. */
  ghost predicate StaysOut(m: MemorySet, c: Config, gpa: nat)
    reads m, m.pt, m.pt.mem
  {
    InWindow(Low, gpa) && !Contains(HiddenRegion(c), gpa) && m.pt.Lookup(gpa).Ok? ==>
      !InHv(c, m.pt.Lookup(gpa).value.paddr)
  }

  lemma NotInBoth(m: MemorySet, c: Config, k: nat, gpa: nat)
    requires Built(m, c) && k < |c.mem| && Contains(GuestRegion(c.mem[k]), gpa)
    ensures !Contains(HiddenRegion(c), gpa)
  {
    hide GuestSet, Agree, Covers, Disjoint, Tree, Typed, Tracked, GuestRegion, HiddenRegion;
    if HiddenRegion(c).size > 0 { GuestApart(m, c, k); }
  }

  /** A region mapped onto the hypervisor's memory lets the guest in. */
  lemma Escape(m: MemorySet, c: Config, k: nat) returns (gpa: nat)
    requires Built(m, c) && c.hvSize > 0 && k < |c.mem|
    requires GuestRegion(c.mem[k]).size > 0 && !PhysApart(c, GuestRegion(c.mem[k]))
    ensures !StaysOut(m, c, gpa)
  {
    hide GuestSet, Agree, Covers, Disjoint, Tree, Typed, Tracked, GuestRegion, HiddenRegion, PhysStart;
    var r := GuestRegion(c.mem[k]);
    var p := if PhysStart(r) < c.hvPhys then c.hvPhys else PhysStart(r);
    gpa := r.start + (p - PhysStart(r));
    GuestTarget(m, c, k, gpa);
    NotInBoth(m, c, k, gpa);
  }

  /** No guest-physical address outside the hidden region leads into the hypervisor's memory
      exactly when no configured region is mapped onto that memory. */
  lemma IsolationExact(m: MemorySet, c: Config)
    requires Built(m, c) && c.hvSize > 0
    ensures (forall gpa: nat :: StaysOut(m, c, gpa))
            <==> forall k | 0 <= k < |c.mem| && GuestRegion(c.mem[k]).size > 0 :: PhysApart(c, GuestRegion(c.mem[k]))
  {
    hide GuestSet, Agree, Covers, Disjoint, Tree, Typed, Tracked, GuestRegion, HiddenRegion, PhysStart;
    if k: nat :| k < |c.mem| && GuestRegion(c.mem[k]).size > 0 && !PhysApart(c, GuestRegion(c.mem[k])) {
      var gpa := Escape(m, c, k);
    } else {
      forall gpa: nat ensures StaysOut(m, c, gpa) {
        if InWindow(Low, gpa) && !Contains(HiddenRegion(c), gpa) && m.pt.Lookup(gpa).Ok? {
          var k := MappedByGuestRegion(m, c, gpa);
          GuestTarget(m, c, k, gpa);
        }
      }
    }
  }

  // ---- Identity-mapped regions ------------------------------------------------------------

  /** The region is clear of the hypervisor memory that the hidden region does not hold. */
  ghost predicate TailClear(c: Config, r: Region) {
    var end, hvEnd := HiddenRegion(c).start + HiddenRegion(c).size, c.hvPhys + c.hvSize;
    hvEnd <= end || r.start + r.size <= end || hvEnd <= r.start
  }

  /** For an identity-mapped region only that tail matters, because the insert that
      succeeded has checked it against the hidden region. */
  lemma IdentityTail(m: MemorySet, c: Config, k: nat)
    requires Built(m, c) && c.hvSize > 0 && HiddenRegion(c).size > 0 && k < |c.mem|
    requires c.mem[k].virt == c.mem[k].phys < TWO64 && GuestRegion(c.mem[k]).size > 0
    ensures PhysApart(c, GuestRegion(c.mem[k])) <==> TailClear(c, GuestRegion(c.mem[k]))
  {
    hide GuestSet, Agree, Covers, Disjoint, Tree, Typed, Tracked, GuestRegion, HiddenRegion, PhysStart;
    IdentityPhys(c.mem[k]);
    HiddenStart(c);
    GuestApart(m, c, k);
  }

  lemma HiddenStart(c: Config)
    ensures HiddenRegion(c).start <= c.hvPhys < HiddenRegion(c).start + 0x1000
    ensures HiddenRegion(c).size > 0 ==> HiddenRegion(c).size >= 0x1000
  {
  }

  /** With identity-mapped regions the guest is kept out exactly when they are clear of the
      tail, so always when the hypervisor's memory rounds whole. */
  lemma IdentityIsolates(m: MemorySet, c: Config)
    requires Built(m, c) && c.hvSize > 0 && HiddenRegion(c).size > 0
    requires forall k | 0 <= k < |c.mem| :: c.mem[k].virt == c.mem[k].phys < TWO64
    ensures (forall gpa: nat :: StaysOut(m, c, gpa))
            <==> forall k | 0 <= k < |c.mem| && GuestRegion(c.mem[k]).size > 0 :: TailClear(c, GuestRegion(c.mem[k]))
    ensures RoundsWhole(c.hvPhys, c.hvSize) ==> forall gpa: nat :: StaysOut(m, c, gpa)
  {
    hide Built, GuestRegion, HiddenRegion, PhysApart, StaysOut;
    IsolationExact(m, c);
    forall k | 0 <= k < |c.mem| && GuestRegion(c.mem[k]).size > 0
      ensures PhysApart(c, GuestRegion(c.mem[k])) <==> TailClear(c, GuestRegion(c.mem[k]))
    {
      IdentityTail(m, c, k);
    }
    if RoundsWhole(c.hvPhys, c.hvSize) { WholeHasNoTail(c); }
  }

  lemma WholeHasNoTail(c: Config)
    requires RoundsWhole(c.hvPhys, c.hvSize)
    ensures c.hvPhys + c.hvSize <= HiddenRegion(c).start + HiddenRegion(c).size
  {
    hide PageUp;
  }

  lemma IdentityPhys(d: MemDesc)
    requires d.virt == d.phys < TWO64
    ensures PhysStart(GuestRegion(d)) == GuestRegion(d).start
  {
  }

  /** A hypervisor loaded in the middle of a page, and one identity-mapped region. */
  const TAILED := Config(0x800, 0x1000, 0x1000, 0x10_0000, [MemDesc(0x1000, 0x1000, 0x1000, {READ, WRITE, DMA})])

  /** Through it the guest's own addresses lead into the last 2 KiB of the hypervisor. */
  lemma TailReached(m: MemorySet, gpa: nat)
    requires Built(m, TAILED) && 0x1000 <= gpa < 0x1800
    ensures !RoundsWhole(TAILED.hvPhys, TAILED.hvSize)
    ensures m.pt.Lookup(gpa).Ok? && m.pt.Lookup(gpa).value.paddr == gpa && InHv(TAILED, gpa)
    ensures !StaysOut(m, TAILED, gpa)
  {
    hide Built;
    TailedRegions();
    GuestTarget(m, TAILED, 0, gpa);
  }

  lemma TailedRegions()
    ensures HiddenRegion(TAILED) == Region(0, 0x1000, {READ, NO_HUGEPAGES}, Fixed(0x10_0000))
    ensures GuestRegion(TAILED.mem[0]) == Region(0x1000, 0x1000, {READ, WRITE, DMA}, Offset(0))
  {
  }

  /** The builder accepts that configuration. */
  lemma TailedUsable(fmt: Format)
    ensures GuestUsable(fmt, TAILED) && !Overlap(GuestRegion(TAILED.mem[0]), HiddenRegion(TAILED))
  {
    hide GuestRegion, HiddenRegion;
    TailedRegions();
  }
}
