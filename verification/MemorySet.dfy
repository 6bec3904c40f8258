/** `MemorySet`: an ordered map of regions and the page table that must agree with it. */
module MemorySets {
  import opened Pte
  import opened Blocks
  import opened Tables
  import opened Regions
  import opened Steps
  import opened RegionMaps
  import opened RegionSets
  import opened PageTables

  /** `Ok`, `EINVAL` for an overlap, and the error of `map` (`ENOMEM` or `EFAULT`). */
  datatype InsertResult = Inserted | Overlapped | MapFailed(error: PagingError)

  /** `map` stopped at a page of the region, with the pages before it mapped; something was
      in that page's way unless memory ran out, and it was in the page's own slot exactly
      when the error is AlreadyMapped, or else a larger page. */
  ghost predicate PrefixMapped(u: View, v: View, r: Region, e: PagingError)
    requires Mappable(u.fmt, r)
  {
    exists x: nat :: x < Limit(r) && MappedUpto(u, v, r, x)
                     && (!e.NoMemory? <==> Blocked(u, x, PageLevel(r, x)))
                     && (e.AlreadyMapped? <==> PageAt(r, x) in u.tables || PageAt(r, x) in u.leaves)
                     && (e.NoMemory? || e.AlreadyMapped? || Covering(u, x, PageLevel(r, x), e))
  }

  /** What `map` does to a region that overlaps none of the set: the recorded regions keep
      their pages, and on success so does the new one. */
  lemma MapFreeRegion(u: View, v: View, w: Window, regions: RegionMap, r: Region, stop: nat, res: Status)
    requires Tree(u) && Disjoint(u.fmt, w, regions) && Covers(u.fmt, regions, u.leaves)
    requires Mappable(u.fmt, r) && RegionIn(w, r) && r.size > 0 && (forall s <- regions :: !Overlap(regions[s], r))
    requires MapEnded(u, v, r, stop, res)
    ensures OthersKept(u, v) && Tree(v) && Covers(u.fmt, regions, v.leaves)
    ensures res.Done? ==> Covers(u.fmt, regions[r.start := r], v.leaves)
    ensures res.Done? ==> v.leaves == u.leaves + RegionLeaves(u.fmt, r)
    ensures res.Failed? ==> PrefixMapped(u, v, r, res.error)
    ensures Leftover(u, r) ==> res.Failed?
  {
    hide Tree, Covers, Disjoint, Overlap, OthersKept, LeavesUpto, IsCut, NoneBlocked, Gained, Leftover, Chosen,
         Blocked, PageAt, PageLevel;
    CoversMore(u.fmt, w, regions, u.leaves, r, stop);
    if res.Done? {
      CoversAdd(u.fmt, regions, u.leaves, r);
      NothingLeftWhenDone(u, r);
    }
  }

  /** On a table that agreed with the set, only a leftover table or lack of memory makes
      `map` fail, and success keeps the agreement. */
  lemma MapAgreed(u: View, v: View, w: Window, regions: RegionMap, r: Region, stop: nat, res: Status)
    requires Tree(u) && Disjoint(u.fmt, w, regions) && Agree(u.fmt, regions, u.leaves)
    requires Mappable(u.fmt, r) && RegionIn(w, r) && r.size > 0 && (forall s <- regions :: !Overlap(regions[s], r))
    requires MapEnded(u, v, r, stop, res) && (res.Done? ==> Covers(u.fmt, regions[r.start := r], v.leaves))
    ensures res.Done? ==> Agree(u.fmt, regions[r.start := r], v.leaves)
    ensures res.Failed? && !res.error.NoMemory? ==> res.error.AlreadyMapped? && Leftover(u, r)
  {
    hide Tree, Agree, Covers, Disjoint, Usable, Overlap, OthersKept, LeavesUpto, IsCut, NoneBlocked, Gained,
         Leftover, Chosen;
    match res
    case Done =>
      DisjointAdd(u.fmt, w, regions, r) by { UsableIn(u.fmt, w, r); }
      AgreeAdd(u.fmt, regions, u.leaves, r);
    case Failed(e) =>
      CutInside(r, stop);
      if !e.NoMemory? {
        OnlyTablesBlock(u, w, regions, r, stop);
        LeftoverAt(u, r, stop);
      }
  }

  lemma UsableIn(fmt: Format, w: Window, r: Region)
    requires Mappable(fmt, r) && RegionIn(w, r)
    ensures Usable(fmt, w, r)
  {
  }

  lemma NothingLeftWhenDone(u: View, r: Region)
    requires NoneBlocked(u, r, Limit(r)) && Limit(r) <= TWO48
    ensures !Leftover(u, r)
  {
    forall b: Block | Chosen(r, b) ensures b !in u.tables {
      ChosenFirst(r, b);
      hide Chosen, First, BlockOf;
      assert !Blocked(u, First(b), b.level);
    }
  }

  lemma ChosenFirst(r: Region, b: Block)
    requires Chosen(r, b) && Limit(r) <= TWO48
    ensures 1 <= b.level <= 3 && First(b) < Limit(r) && BlockOf(b.level, First(b)) == b
  {
    NonEmptyBlock(b);
    InBlock(b, First(b));
  }

  lemma LeftoverAt(u: View, r: Region, x: nat)
    requires r.start % 0x1000 == 0 && r.size % 0x1000 == 0 && Limit(r) <= TWO48
    requires Base(r) <= x < Limit(r) && PageAt(r, x) in u.tables
    ensures Leftover(u, r)
  {
    PageAtChosen(r, x);
  }

  class MemorySet {
    const pt: PageTable
    var regions: RegionMap
    ghost const window: Window

    ghost predicate Valid()
      reads this, pt, pt.mem, pt.mem.frames
    {
      && pt.Valid() && pt.IsTree() && Tracked(pt.intrm, pt.tables)
      && Disjoint(pt.fmt, window, regions)
    }

    /** The table holds the pages of the recorded regions, perhaps among others. */
    ghost predicate Keeps()
      reads this, pt, pt.mem, pt.mem.frames
    {
      Valid() && Covers(pt.fmt, regions, pt.leaves)
    }

    /** And no other. */
    ghost predicate Agrees()
      reads this, pt, pt.mem, pt.mem.frames
    {
      Keeps() && Agree(pt.fmt, regions, pt.leaves)
    }

    lemma AgreesKeeps()
      requires Agrees()
      ensures Keeps() && Typed(pt.mem.h, pt.mem.roles)
    {
      hide Typed, Agree, Covers, Tree, Tracked, Disjoint;
    }

    constructor (pt: PageTable, ghost window: Window)
      requires pt.Valid() && pt.IsTree() && pt.tables == map[WHOLE := pt.root] && pt.leaves == map[] && pt.intrm == []
      ensures this.pt == pt && this.window == window && regions == map[]
      ensures Agrees() && NoEmptyTables(pt.Now())
    {
      this.pt, this.window, regions := pt, window, map[];
      AgreeEmpty(pt.fmt, window);
    }

    /** Adds a region, or reports why not. */
    method Insert(r: Region) returns (res: InsertResult)
      requires Keeps() && Usable(pt.fmt, window, r)
      modifies this, pt, pt.mem, pt.mem.frames
      ensures Keeps() && OthersKept(old(pt.Now()), pt.Now())
      ensures res.Overlapped? <==> r.size > 0 && exists s <- old(regions) :: Overlap(old(regions)[s], r)
      ensures r.size == 0 ==> res.Inserted?
      ensures r.size == 0 || res.Overlapped? ==> regions == old(regions) && pt.Now() == old(pt.Now())
      ensures res.Inserted? && r.size > 0 ==>
                && r.start !in old(regions) && regions == old(regions)[r.start := r]
                && pt.leaves == old(pt.leaves) + RegionLeaves(pt.fmt, r)
      ensures res.MapFailed? ==>
                r.size > 0 && regions == old(regions) && PrefixMapped(old(pt.Now()), pt.Now(), r, res.error)
      ensures r.size > 0 && Leftover(old(pt.Now()), r) ==> !res.Inserted?
      // On a table that agrees with the set, only lack of memory or a table left behind by
      // an earlier delete can be in the way.
      ensures old(Agrees()) && !res.MapFailed? ==> Agrees()
      ensures old(Agrees()) && res.MapFailed? && !res.error.NoMemory? ==>
                res.error.AlreadyMapped? && Leftover(old(pt.Now()), r)
      ensures res.Inserted? && old(NoEmptyTables(pt.Now())) ==> NoEmptyTables(pt.Now())
      ensures old(Agrees() && NoEmptyTables(pt.Now())) && res.MapFailed? ==> res.error.NoMemory?
      // Memory has run out when that is the answer, and every frame taken is recorded.
      ensures res == MapFailed(NoMemory) ==> pt.mem.frames.free == {}
      ensures pt.Budget() == old(pt.Budget()) && old(pt.intrm) <= pt.intrm
    {
      hide Tree, Typed, Agree, Covers, Disjoint, Tracked, OthersKept, Overlap, Leftover, NoEmptyTables, MapEnded,
           RootsKept, TestFreeArea, PrefixMapped, LeavesUpto, pt.Valid, pt.Budget;
      pt.ValidTyped();
      ghost var u, agreed := pt.Now(), Agrees();
      NothingKept(u);
      if r.size == 0 { return Inserted; }
      NeighboursDecide(pt.fmt, window, regions, r);
      if !TestFreeArea(regions, r) { return Overlapped; }
      var status, stop := pt.Map(r);
      MapFreeRegion(u, pt.Now(), window, regions, r, stop, status);
      if agreed { MapAgreed(u, pt.Now(), window, regions, r, stop, status); }
      if agreed && NoEmptyTables(u) { NothingLeftOver(u, window, regions, r); }
      if status.Failed? { return MapFailed(status.error); }
      if NoEmptyTables(u) { MapDoneTidy(u, pt.Now(), r, stop); }
      DisjointAdd(pt.fmt, window, regions, r);
      regions := regions[r.start := r];
      return Inserted;
    }

    /** Removes the region that starts at `start`, or reports that there is none. */
    method Delete(start: nat) returns (found: bool)
      requires Keeps()
      modifies this, pt, pt.mem
      ensures Keeps() && OthersKept(old(pt.Now()), pt.Now())
      ensures found <==> start in old(regions)
      ensures regions == old(regions) - {start} && pt.tables == old(pt.tables)
      ensures pt.intrm == old(pt.intrm)
      ensures found ==> pt.leaves == old(pt.leaves - RegionLeaves(pt.fmt, regions[start]).Keys)
      ensures !found ==> pt.leaves == old(pt.leaves)
      ensures Strays(regions, pt.leaves) == old(Strays(regions, pt.leaves))
      ensures old(Agrees()) ==> Agrees()
    {
      hide Tree, Typed, Agree, Covers, Disjoint, Tracked, OthersKept, RootsKept, UnmappedUpto, Shrunk, AllMapped,
           LeavesUpto, Chosen, Strays;
      ghost var u := pt.Now();
      NothingKept(u);
      if start !in regions { return false; }
      RegionAllMapped(u, window, regions, start);
      var outcome := pt.Unmap(regions[start]);
      assert outcome == Unmapped;
      UnmappedRegion(u, pt.Now(), regions[start]);
      Dropped(u, window, regions, start);
      regions := regions - {start};
      return true;
    }

    /** Unmaps every region in order; `panicked` is what `unwrap` would do. Dropping a set
        is this. */
    method Clear() returns (panicked: bool)
      requires Keeps()
      modifies this, pt, pt.mem
      ensures !panicked && Keeps() && regions == map[] && pt.leaves == old(Strays(regions, pt.leaves))
      ensures OthersKept(old(pt.Now()), pt.Now()) && pt.tables == old(pt.tables) && pt.intrm == old(pt.intrm)
      ensures old(Agrees()) ==> Agrees() && pt.leaves == map[]
    {
      hide Tree, Typed, Agree, Covers, Disjoint, Tracked, OthersKept, RootsKept, UnmappedUpto, Shrunk, AllMapped,
           LeavesUpto, Chosen, Strays;
      ghost var u, strays := pt.Now(), Strays(regions, pt.leaves);
      NothingKept(u);
      AgreeIsNoStrays(pt.fmt, regions, pt.leaves);
      var rest := regions;
      while rest != map[]
        invariant Valid() && Disjoint(pt.fmt, window, rest) && Covers(pt.fmt, rest, pt.leaves)
        invariant OthersKept(u, pt.Now()) && pt.tables == u.tables && pt.intrm == old(pt.intrm)
        invariant Strays(rest, pt.leaves) == strays
        decreases rest.Keys
      {
        assert rest.Keys != {};
        var start := MinOf(rest.Keys);
        ghost var v := pt.Now();
        RegionAllMapped(v, window, rest, start);
        var outcome := pt.Unmap(rest[start]);
        if outcome != Unmapped { return true; }
        UnmappedRegion(v, pt.Now(), rest[start]);
        Dropped(v, window, rest, start);
        OthersKeptTransitive(u, v, pt.Now());
        rest := rest - {start};
      }
      NothingRecorded(pt.fmt, window, pt.leaves);
      regions := map[];
      return false;
    }
  }

  /** What unmapping one region leaves of the set. */
  lemma Dropped(u: View, w: Window, regions: RegionMap, s: nat)
    requires Disjoint(u.fmt, w, regions) && Covers(u.fmt, regions, u.leaves) && s in regions
    requires Mappable(u.fmt, regions[s])
    ensures var leaves := u.leaves - RegionLeaves(u.fmt, regions[s]).Keys;
            && Disjoint(u.fmt, w, regions - {s}) && Covers(u.fmt, regions - {s}, leaves)
            && Strays(regions - {s}, leaves) == Strays(regions, u.leaves)
            && (Agree(u.fmt, regions, u.leaves) ==> Agree(u.fmt, regions - {s}, leaves))
  {
    hide Disjoint, Covers, Strays, LeavesUpto, Agree, Mappable;
    DisjointDrop(u.fmt, w, regions, s);
    CoversDrop(u.fmt, w, regions, u.leaves, s);
    StraysDrop(u.fmt, regions, u.leaves, s);
    AgreeIsNoStrays(u.fmt, regions, u.leaves);
    AgreeIsNoStrays(u.fmt, regions - {s}, u.leaves - RegionLeaves(u.fmt, regions[s]).Keys);
  }

  lemma NothingRecorded(fmt: Format, w: Window, leaves: LeafMap)
    ensures Disjoint(fmt, w, map[]) && Covers(fmt, map[], leaves) && Strays(map[], leaves) == leaves
    ensures leaves == map[] ==> Agree(fmt, map[], leaves)
  {
  }

  lemma MapDoneTidy(u: View, v: View, r: Region, stop: nat)
    requires Mappable(u.fmt, r) && MapEnded(u, v, r, stop, Done) && NoEmptyTables(u)
    ensures NoEmptyTables(v)
  {
    hide NoEmptyTables, MappedUpto, Gained;
    NoEmptyTablesKept(u, v, r);
  }

  lemma RegionAllMapped(v: View, w: Window, regions: RegionMap, s: nat)
    requires Disjoint(v.fmt, w, regions) && Covers(v.fmt, regions, v.leaves) && s in regions
    ensures Mappable(v.fmt, regions[s]) && AllMapped(v, regions[s])
  {
    hide Chosen;
  }

  lemma UnmappedRegion(u: View, v: View, r: Region)
    requires Mappable(u.fmt, r) && UnmappedUpto(u, v, r, Limit(r))
    ensures v.leaves == u.leaves - RegionLeaves(u.fmt, r).Keys && OthersKept(u, v) && v.tables == u.tables && Tree(v)
  {
    hide Tree, OthersKept, LeavesUpto;
  }

  /** Recorded regions are answered right even where other pages are left over. */
  lemma RecordedAnswers(m: MemorySet, s: nat, va: nat)
    requires m.Keeps() && s in m.regions && Contains(m.regions[s], va)
    ensures m.pt.Lookup(va) == Ok(Target(m.pt.fmt, m.regions[s], va))
  {
    hide Tree, Typed, Disjoint, Covers, Contains, Target;
    QueryIsLookup(m.pt.Now(), va);
    DisjointUsable(m.pt.fmt, m.window, m.regions, s);
    HeldBy(m.pt.Now(), m.window, m.regions, s, va);
  }

  /** The promise of the set: `query` succeeds exactly at the addresses of recorded regions,
      with the address and the visible flags the region's mapper and page give it. */
  lemma QueryAnswers(m: MemorySet, va: nat)
    requires m.Agrees() && InWindow(m.window, va)
    ensures (exists s <- m.regions :: Contains(m.regions[s], va)) <==> m.pt.Lookup(va).Ok?
    ensures m.pt.Lookup(va).Err? ==> m.pt.Lookup(va) == Err(NotMapped)
    ensures forall s <- m.regions | Contains(m.regions[s], va) ::
              m.pt.Lookup(va) == Ok(Target(m.pt.fmt, m.regions[s], va))
  {
    hide Tree, Typed, Disjoint, Agree, Contains, Target;
    QueryIsLookup(m.pt.Now(), va);
    AgreeMeaning(m.pt.Now(), m.window, m.regions, va);
  }
}
