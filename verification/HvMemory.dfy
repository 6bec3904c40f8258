/** The two tables built at start-up: the hypervisor's own address space and the
    guest-physical memory of the root cell. */
module HvMemory {
  import opened Pte
  import opened Blocks
  import opened Tables
  import opened Regions
  import opened Frames
  import opened Steps
  import opened RegionSets
  import opened PageTables
  import opened MemorySets

  /** One entry of the configured memory map (`HvMemoryRegion`). */
  datatype MemDesc = MemDesc(phys: nat, virt: nat, size: nat, flags: MemFlags)

  /** The configuration values the two builders read. */
  datatype Config = Config(hvPhys: nat, hvSize: nat, coreSize: nat, emptyPage: nat, mem: seq<MemDesc>)

  /** `PHYS_VIRT_OFFSET`, which wraps at 2^64 like every sum below. */
  function PhysVirtOffset(c: Config): nat {
    (HV_BASE - c.hvPhys) % TWO64
  }

  function PhysToVirt(c: Config, paddr: nat): (va: nat)
    ensures va < TWO64
  {
    (paddr + PhysVirtOffset(c)) % TWO64
  }

  // ---- What each builder inserts -----------------------------------------------------

  function HiddenRegion(c: Config): Region {
    NewEmptyRegion(c.hvPhys, c.hvSize, {READ, NO_HUGEPAGES}, c.emptyPage)
  }

  function GuestRegion(d: MemDesc): Region {
    NewOffsetRegion(d.virt, d.phys, d.size, d.flags)
  }

  function CoreRegion(c: Config): Region {
    NewOffsetRegion(HV_BASE, c.hvPhys, c.coreSize, {READ, WRITE, EXECUTE})
  }

  function DataRegion(c: Config): Region {
    NewOffsetRegion((HV_BASE + c.coreSize) % TWO64, (c.hvPhys + c.coreSize) % TWO64,
                    (c.hvSize - c.coreSize) % TWO64, {READ, WRITE})
  }

  function DirectRegion(c: Config, d: MemDesc): Region {
    NewOffsetRegion(PhysToVirt(c, d.virt), d.phys, d.size, {READ, WRITE})
  }

  /** Every region is one its table can hold. */
  ghost predicate GuestUsable(fmt: Format, c: Config) {
    && Usable(fmt, Low, HiddenRegion(c))
    && forall k | 0 <= k < |c.mem| :: Usable(fmt, Low, GuestRegion(c.mem[k]))
  }

  ghost predicate HostUsable(c: Config) {
    && Usable(X86, Canonical, CoreRegion(c)) && Usable(X86, Canonical, DataRegion(c))
    && forall k | 0 <= k < |c.mem| && DMA in c.mem[k].flags :: Usable(X86, Canonical, DirectRegion(c, c.mem[k]))
  }

  /** What `new_root` inserts, in order. */
  ghost function GuestParts(c: Config): (list: seq<Region>)
    ensures |list| == 1 + |c.mem|
  {
    seq(1 + |c.mem|, i requires 0 <= i < 1 + |c.mem| =>
      if i == 0 then HiddenRegion(c) else GuestRegion(c.mem[i - 1]))
  }

  /** What `init_hv_page_table` inserts, in order; a region that is not guest RAM is left out. */
  ghost function HostParts(c: Config): (list: seq<Region>)
    ensures |list| == 2 + |c.mem|
  {
    seq(2 + |c.mem|, i requires 0 <= i < 2 + |c.mem| =>
      if i == 0 then CoreRegion(c) else if i == 1 then DataRegion(c) else DirectPart(c, c.mem[i - 2]))
  }

  ghost function DirectPart(c: Config, d: MemDesc): Region {
    if DMA in d.flags then DirectRegion(c, d) else Region(0, 0, {}, Offset(0))
  }

  // ---- What a builder has recorded -----------------------------------------------------

  ghost predicate Holds(regions: RegionMap, r: Region) {
    r.size > 0 ==> r.start in regions && regions[r.start] == r
  }

  /** The set holds the regions of the list and no other. */
  ghost predicate Recorded(list: seq<Region>, regions: RegionMap) {
    && (forall i | 0 <= i < |list| :: Holds(regions, list[i]))
    && (forall s <- regions :: exists i | 0 <= i < |list| :: list[i].size > 0 && regions[s] == list[i])
  }

  ghost predicate Clashing(a: Region, b: Region) {
    a.size > 0 && b.size > 0 && Overlap(a, b)
  }

  /** Two regions of the list overlap. */
  ghost predicate Clash(list: seq<Region>) {
    exists i, j | 0 <= i < j < |list| :: Clashing(list[i], list[j])
  }

  /** Why a builder has given up: two of its regions overlap, or every frame is taken. */
  ghost predicate WhyNot(list: seq<Region>, res: InsertResult, free: set<nat>) {
    match res
    case Inserted => !Clash(list)
    case Overlapped => Clash(list)
    case MapFailed(e) => e.NoMemory? && free == {}
  }

  lemma RecordedNext(list: seq<Region>, regions: RegionMap, r: Region)
    requires Recorded(list, regions) && (r.size > 0 ==> r.start !in regions)
    ensures Recorded(list + [r], Plus(regions, r))
  {
    var list', regions' := list + [r], Plus(regions, r);
    forall i | 0 <= i < |list'| ensures Holds(regions', list'[i]) {
      assert i < |list| ==> Holds(regions, list[i]);
    }
    forall s <- regions' ensures exists i | 0 <= i < |list'| :: list'[i].size > 0 && regions'[s] == list'[i] {
      if r.size > 0 && s == r.start {
        assert list'[|list|] == r;
      } else {
        var i :| 0 <= i < |list| && list[i].size > 0 && regions[s] == list[i];
        assert list'[i] == list[i];
      }
    }
  }

  /** The insert that reports an overlap has met a region of the list. */
  lemma ClashNext(list: seq<Region>, regions: RegionMap, r: Region)
    requires Recorded(list, regions) && !Clash(list)
    ensures Clash(list + [r]) <==> r.size > 0 && exists s <- regions :: Overlap(regions[s], r)
  {
    hide Overlap;
    var list' := list + [r];
    forall i, j | 0 <= i < j < |list| ensures !Clashing(list'[i], list'[j]) {
      assert !Clashing(list[i], list[j]);
    }
    if Clash(list') {
      var i, j :| 0 <= i < j < |list'| && Clashing(list'[i], list'[j]);
      assert Holds(regions, list[i]);
    }
    if r.size > 0 && exists s <- regions :: Overlap(regions[s], r) {
      var s :| s in regions && Overlap(regions[s], r);
      var i :| 0 <= i < |list| && list[i].size > 0 && regions[s] == list[i];
      assert Clashing(list'[i], list'[|list|]);
    }
  }

  /** A list that starts with a clash has one. */
  lemma ClashMore(list: seq<Region>, n: nat)
    requires n <= |list| && Clash(list[..n])
    ensures Clash(list)
  {
    var i, j :| 0 <= i < j < n && Clashing(list[..n][i], list[..n][j]);
    assert Clashing(list[i], list[j]);
  }

  ghost predicate GuestSet(c: Config, regions: RegionMap) {
    Recorded(GuestParts(c), regions)
  }

  ghost predicate HostSet(c: Config, regions: RegionMap) {
    Recorded(HostParts(c), regions)
  }

  /** The frames in use before have kept their roles and their contents. */
  ghost predicate FramesKept(h: Heap, roles: Roles, h': Heap, roles': Roles) {
    && (forall p <- roles :: p in roles' && roles'[p] == roles[p])
    && (forall p <- roles :: p in h && p in h' && h'[p] == h[p])
  }

  lemma ZeroKept(h: Heap, roles: Roles, q: nat, role: Role)
    requires Typed(h, roles) && q !in roles
    ensures FramesKept(h, roles, h[q := EmptyTable()], roles[q := role])
  {
    hide EmptyTable, Typed;
    forall p <- roles ensures p in h { TypedFrame(h, roles, p); }
  }

  lemma AllKept(h: Heap, roles: Roles)
    requires Typed(h, roles)
    ensures FramesKept(h, roles, h, roles)
  {
    hide Typed;
    forall p <- roles ensures p in h { TypedFrame(h, roles, p); }
  }

  lemma OnlyRoot(tables: TableMap, root: nat)
    requires tables == map[WHOLE := root]
    ensures tables.Values == {root}
  {
    assert tables[WHOLE] == root;
  }

  /** `MemorySet::new`; null is the panic of a missing root frame. */
  method NewSet(mem: PhysMem, fmt: Format, ghost window: Window) returns (m: MemorySet?)
    requires mem.Valid()
    modifies mem, mem.frames
    ensures mem.Valid()
    ensures FramesKept(old(mem.h), old(mem.roles), mem.h, mem.roles)
    ensures m == null <==> old(mem.frames.free) == {}
    ensures m == null ==> mem.frames.free == {}
    ensures m != null ==>
              && fresh(m) && fresh(m.pt) && m.pt.mem == mem && m.pt.fmt == fmt && m.window == window
              && NoEmptyTables(m.pt.Now())
              && m.Agrees() && m.regions == map[] && m.pt.tables.Values == {m.pt.root} && m.pt.root !in old(mem.roles)
  {
    hide Typed, Tree, Tracked, Agree, Covers, Disjoint, NoEmptyTables, EmptyTable, Took, FramesKept;
    ghost var h, roles := mem.h, mem.roles;
    var f := mem.NewZero();
    if f.None? {
      AllKept(h, roles);
      return null;
    }
    ZeroKept(h, roles, f.value, Role(fmt, 4));
    TypedZero(h, roles, f.value, Role(fmt, 4));
    mem.roles := mem.roles[f.value := Role(fmt, 4)];
    var pt := new PageTable(mem, fmt, f.value);
    m := new MemorySet(pt, window);
    OnlyRoot(m.pt.tables, m.pt.root);
  }

  /** The set after inserting one more region. */
  ghost function Plus(regions: RegionMap, r: Region): RegionMap {
    if r.size > 0 then regions[r.start := r] else regions
  }

  /** One `insert` of a builder, which has come from `u` and recorded `done`. */
  method Add(m: MemorySet, r: Region, ghost u: View, ghost done: seq<Region>) returns (res: InsertResult)
    requires m.Agrees() && NoEmptyTables(m.pt.Now()) && Usable(m.pt.fmt, m.window, r) && OthersKept(u, m.pt.Now())
    requires Recorded(done, m.regions) && !Clash(done)
    modifies m, m.pt, m.pt.mem, m.pt.mem.frames
    ensures m.Keeps() && OthersKept(u, m.pt.Now()) && WhyNot(done + [r], res, m.pt.mem.frames.free)
    ensures res.Inserted? ==> m.Agrees() && NoEmptyTables(m.pt.Now()) && Recorded(done + [r], m.regions)
  {
    hide Typed, Tree, Agree, Covers, Strays, LeavesUpto, Disjoint, NoEmptyTables, OthersKept, Usable, Leftover,
         Overlap, Tracked, Recorded, Clash;
    ghost var v, regions := m.pt.Now(), m.regions;
    ClashNext(done, regions, r);
    res := m.Insert(r);
    OthersKeptTransitive(u, v, m.pt.Now());
    if res.Inserted? { RecordedNext(done, regions, r); }
  }

  lemma NothingRecordedYet()
    ensures Recorded([], map[]) && !Clash([])
  {
  }

  lemma GuestPartsNext(c: Config, k: nat)
    requires k < |c.mem|
    ensures GuestParts(c)[..k + 1] + [GuestRegion(c.mem[k])] == GuestParts(c)[..k + 2]
  {
    hide GuestRegion, HiddenRegion;
  }

  lemma GuestPartsEnds(c: Config)
    ensures [] + [HiddenRegion(c)] == GuestParts(c)[..1] && GuestParts(c)[..|c.mem| + 1] == GuestParts(c)
  {
    hide GuestRegion, HiddenRegion;
  }

  /** A failure on the way is one of the whole list. */
  lemma FailedAt(list: seq<Region>, n: nat, res: InsertResult, free: set<nat>)
    requires n <= |list| && WhyNot(list[..n], res, free) && !res.Inserted?
    ensures WhyNot(list, res, free)
  {
    hide Clash;
    if res.Overlapped? { ClashMore(list, n); }
  }

  /** `Cell::new_root`, up to the first insert that fails. */
  method NewRoot(m: MemorySet, c: Config) returns (res: InsertResult)
    requires m.Agrees() && m.regions == map[] && m.window == Low && GuestUsable(m.pt.fmt, c)
    requires NoEmptyTables(m.pt.Now())
    modifies m, m.pt, m.pt.mem, m.pt.mem.frames
    ensures m.Keeps() && OthersKept(old(m.pt.Now()), m.pt.Now())
    ensures res.Inserted? ==> m.Agrees() && GuestSet(c, m.regions)
    ensures WhyNot(GuestParts(c), res, m.pt.mem.frames.free)
  {
    hide Typed, OthersKept, Usable, HiddenRegion, GuestRegion, GuestParts, Recorded, Clash, NoEmptyTables, WhyNot,
         m.Agrees, m.Keeps;
    ghost var u, list := m.pt.Now(), GuestParts(c);
    m.AgreesKeeps();
    NothingKept(u);
    NothingRecordedYet();
    GuestPartsEnds(c);
    res := Add(m, HiddenRegion(c), u, []);
    if !res.Inserted? {
      FailedAt(list, 1, res, m.pt.mem.frames.free);
      return;
    }
    for k := 0 to |c.mem|
      invariant m.Agrees() && NoEmptyTables(m.pt.Now()) && OthersKept(u, m.pt.Now())
      invariant Recorded(list[..k + 1], m.regions) && res.Inserted? && WhyNot(list[..k + 1], res, m.pt.mem.frames.free)
    {
      GuestPartsNext(c, k);
      NoClash(list[..k + 1], m.pt.mem.frames.free);
      res := Add(m, GuestRegion(c.mem[k]), u, list[..k + 1]);
      if !res.Inserted? {
        FailedAt(list, k + 2, res, m.pt.mem.frames.free);
        return;
      }
    }
    m.AgreesKeeps();
  }

  lemma NoClash(list: seq<Region>, free: set<nat>)
    requires WhyNot(list, Inserted, free)
    ensures !Clash(list)
  {
  }

  /** The caller of `new_root`: a set left unfinished is dropped, which does not panic. */
  method NewRootOrDrop(m: MemorySet, c: Config) returns (res: InsertResult)
    requires m.Agrees() && m.regions == map[] && m.window == Low && GuestUsable(m.pt.fmt, c)
    requires NoEmptyTables(m.pt.Now())
    modifies m, m.pt, m.pt.mem, m.pt.mem.frames
    ensures m.Keeps() && OthersKept(old(m.pt.Now()), m.pt.Now())
    ensures res.Inserted? ==> m.Agrees() && GuestSet(c, m.regions)
    ensures WhyNot(GuestParts(c), res, m.pt.mem.frames.free)
  {
    hide Typed, Tree, Agree, Covers, Strays, Disjoint, OthersKept, GuestUsable, GuestSet, Tracked, WhyNot, GuestParts;
    ghost var u := m.pt.Now();
    res := NewRoot(m, c);
    if !res.Inserted? {
      ghost var v := m.pt.Now();
      var panicked := m.Clear();
      assert !panicked;
      OthersKeptTransitive(u, v, m.pt.Now());
    }
  }

  lemma FramesKeptNext(h: Heap, roles: Roles, u: View, u': View)
    requires FramesKept(h, roles, u.h, u.roles) && OthersKept(u, u') && u.tables.Values == {u.root} && u.root !in roles
    ensures FramesKept(h, roles, u'.h, u'.roles)
  {
  }

  datatype CellResult = CellReady | NoRootFrame | CellFailed(failure: InsertResult)

  ghost predicate WhyNoCell(c: Config, why: CellResult, free: set<nat>) {
    match why
    case CellReady => !Clash(GuestParts(c))
    case NoRootFrame => free == {}
    case CellFailed(e) => !e.Inserted? && WhyNot(GuestParts(c), e, free)
  }

  /** `cell::init` on its own: a new table in frames that were not in use. */
  method NewCell(mem: PhysMem, c: Config, nested: Format) returns (g: MemorySet?, why: CellResult)
    requires mem.Valid() && GuestUsable(nested, c)
    modifies mem, mem.frames
    ensures mem.Valid() && FramesKept(old(mem.h), old(mem.roles), mem.h, mem.roles)
    ensures g != null <==> why.CellReady?
    ensures WhyNoCell(c, why, mem.frames.free)
    ensures g != null ==> fresh(g) && fresh(g.pt) && g.Agrees() && g.window == Low && GuestSet(c, g.regions)
    ensures g != null ==> g.pt.fmt == nested
  {
    hide Typed, Tree, Tracked, Disjoint, Agree, Covers, OthersKept, GuestUsable, GuestSet, GuestParts, Clash;
    ghost var h, roles := mem.h, mem.roles;
    g := NewSet(mem, nested, Low);
    if g == null { return null, NoRootFrame; }
    ghost var u := g.pt.Now();
    var res := NewRootOrDrop(g, c);
    FramesKeptNext(h, roles, u, g.pt.Now());
    if res.Inserted? { return g, CellReady; } else { return null, CellFailed(res); }
  }

  datatype InitResult = Ready | TooLarge(index: nat) | NotInserted(failure: InsertResult)

  /** Why `init_hv_page_table` has ended as it has. */
  ghost predicate WhyHost(c: Config, res: InitResult, free: set<nat>) {
    match res
    case Ready => !Clash(HostParts(c)) && forall k | 0 <= k < |c.mem| :: !IsTooLarge(c, k)
    case TooLarge(k) => k < |c.mem| && IsTooLarge(c, k)
    case NotInserted(e) => !e.Inserted? && WhyNot(HostParts(c), e, free)
  }

  /** The direct map of a region of guest RAM would wrap. */
  ghost predicate IsTooLarge(c: Config, k: nat)
    requires k < |c.mem|
  {
    DMA in c.mem[k].flags && PhysToVirt(c, c.mem[k].virt) < c.mem[k].virt
  }

  lemma HostPartsNext(c: Config, k: nat)
    requires k < |c.mem|
    ensures HostParts(c)[..k + 2] + [DirectPart(c, c.mem[k])] == HostParts(c)[..k + 3]
  {
    hide CoreRegion, DataRegion, DirectPart;
  }

  lemma HostPartsEnds(c: Config)
    ensures [] + [CoreRegion(c)] == HostParts(c)[..1] && HostParts(c)[..1] + [DataRegion(c)] == HostParts(c)[..2]
    ensures HostParts(c)[..|c.mem| + 2] == HostParts(c)
  {
    hide CoreRegion, DataRegion, DirectPart;
  }

  /** A region that is left out changes nothing. */
  lemma SkippedPart(list: seq<Region>, regions: RegionMap, r: Region)
    requires Recorded(list, regions) && !Clash(list) && r.size == 0
    ensures Recorded(list + [r], regions) && !Clash(list + [r])
  {
    hide Recorded, Clash;
    RecordedNext(list, regions, r);
    ClashNext(list, regions, r);
  }

  /** One turn of the loop of `init_hv_page_table`. */
  method InsertDirect(m: MemorySet, c: Config, k: nat, ghost u: View) returns (res: InitResult)
    requires m.Agrees() && m.window == Canonical && m.pt.fmt == X86 && HostUsable(c) && k < |c.mem|
    requires NoEmptyTables(m.pt.Now()) && OthersKept(u, m.pt.Now())
    requires Recorded(HostParts(c)[..k + 2], m.regions) && !Clash(HostParts(c)[..k + 2])
    modifies m, m.pt, m.pt.mem, m.pt.mem.frames
    ensures m.Keeps() && OthersKept(u, m.pt.Now())
    ensures res.Ready? ==> m.Agrees() && NoEmptyTables(m.pt.Now())
    ensures res.Ready? ==> Recorded(HostParts(c)[..k + 3], m.regions) && !Clash(HostParts(c)[..k + 3])
    ensures res.Ready? ==> !IsTooLarge(c, k)
    ensures !res.Ready? ==> WhyHost(c, res, m.pt.mem.frames.free)
  {
    hide OthersKept, Usable, DirectRegion, HostParts, Recorded, Clash, PhysToVirt, NoEmptyTables, m.Agrees, m.Keeps;
    ghost var list := HostParts(c)[..k + 2];
    HostPartsNext(c, k);
    m.AgreesKeeps();
    if DMA in c.mem[k].flags {
      if PhysToVirt(c, c.mem[k].virt) < c.mem[k].virt { return TooLarge(k); }
      var e := Add(m, DirectRegion(c, c.mem[k]), u, list);
      if !e.Inserted? {
        FailedAt(HostParts(c), k + 3, e, m.pt.mem.frames.free);
        return NotInserted(e);
      }
    } else {
      SkippedPart(list, m.regions, DirectPart(c, c.mem[k]));
    }
    m.AgreesKeeps();
    return Ready;
  }

  /** `init_hv_page_table`, up to the first failure. */
  method InitHvPageTable(m: MemorySet, c: Config) returns (res: InitResult)
    requires m.Agrees() && m.regions == map[] && m.window == Canonical && m.pt.fmt == X86 && HostUsable(c)
    requires NoEmptyTables(m.pt.Now())
    modifies m, m.pt, m.pt.mem, m.pt.mem.frames
    ensures m.Keeps() && OthersKept(old(m.pt.Now()), m.pt.Now())
    ensures res.Ready? ==> m.Agrees() && HostSet(c, m.regions)
    ensures WhyHost(c, res, m.pt.mem.frames.free)
  {
    hide Typed, OthersKept, Usable, CoreRegion, DataRegion, DirectRegion, HostParts, Recorded, Clash, PhysToVirt,
         NoEmptyTables, m.Agrees, m.Keeps;
    ghost var u, list := m.pt.Now(), HostParts(c);
    m.AgreesKeeps();
    NothingKept(u);
    NothingRecordedYet();
    HostPartsEnds(c);
    var e := Add(m, CoreRegion(c), u, []);
    if !e.Inserted? {
      FailedAt(list, 1, e, m.pt.mem.frames.free);
      return NotInserted(e);
    }
    e := Add(m, DataRegion(c), u, list[..1]);
    if !e.Inserted? {
      FailedAt(list, 2, e, m.pt.mem.frames.free);
      return NotInserted(e);
    }
    for k := 0 to |c.mem|
      invariant m.Agrees() && NoEmptyTables(m.pt.Now()) && OthersKept(u, m.pt.Now())
      invariant Recorded(list[..k + 2], m.regions) && !Clash(list[..k + 2])
      invariant forall j | 0 <= j < k :: !IsTooLarge(c, j)
    {
      res := InsertDirect(m, c, k, u);
      if !res.Ready? { return; }
    }
    m.AgreesKeeps();
    return Ready;
  }
}
