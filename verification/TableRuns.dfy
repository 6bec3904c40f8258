/** `map` followed by `unmap` of the same region. */
module TableRuns {
  import opened Tables
  import opened Regions
  import opened Steps
  import opened RegionMaps
  import opened PageTables

  /** When the region could be mapped, unmapping it succeeds page for page and every address
      answers as it did before. */
  method MapAndUnmap(t: PageTable, r: Region) returns (mapped: Status, unmapped: UnmapOutcome)
    requires t.Valid() && t.IsTree() && Mappable(t.fmt, r)
    modifies t, t.mem, t.mem.frames
    ensures t.Valid() && t.IsTree()
    ensures mapped.Done? ==> unmapped == Unmapped && forall va: nat :: t.Lookup(va) == old(t.Lookup(va))
    // It could not be mapped only for a reason that `map` gives.
    ensures mapped.Failed? ==> exists stop: nat :: MapEnded(old(t.Now()), t.Now(), r, stop, mapped)
    ensures mapped == Failed(NoMemory) ==> t.mem.frames.free == {}
  {
    hide Tree, Typed, RootsKept, Tracked, MapEnded, MappedUpto, UnmappedUpto, AllMapped, Shrunk, Mappable, Query;
    ghost var u := t.Now();
    ghost var stop;
    mapped, stop := t.Map(r);
    ghost var v := t.Now();
    unmapped := Unmapped;
    if mapped.Failed? {
      StoppedTree(u, v, r, stop, mapped);
      return;
    }
    WholeMapped(u, v, r, stop);
    unmapped := t.Unmap(r);
    Restored(u, v, t.Now(), r);
  }

  lemma StoppedTree(u: View, v: View, r: Region, stop: nat, res: Status)
    requires Mappable(u.fmt, r) && MapEnded(u, v, r, stop, res)
    ensures Tree(v)
  {
    hide Tree;
  }

  lemma WholeMapped(u: View, v: View, r: Region, stop: nat)
    requires Mappable(u.fmt, r) && MapEnded(u, v, r, stop, Done)
    ensures MappedUpto(u, v, r, Limit(r)) && Tree(v) && AllMapped(v, r)
  {
    hide Tree, MappedUpto, AllMapped, Mappable;
    StoppedTree(u, v, r, stop, Done);
    MappedIsAllMapped(u, v, r);
  }

  lemma Restored(u: View, v: View, v': View, r: Region)
    requires Mappable(u.fmt, r) && Typed(u.h, u.roles) && Tree(u) && Typed(v'.h, v'.roles)
    requires u.root == v'.root && u.fmt == v.fmt == v'.fmt
    requires MappedUpto(u, v, r, Limit(r)) && UnmappedUpto(v, v', r, Limit(r))
    ensures Tree(v') && forall va: nat :: Query(v'.fmt, v'.h, v'.root, va) == Query(u.fmt, u.h, u.root, va)
  {
    hide Tree, Typed, MappedUpto, Mappable, Query, Lookup;
    MapThenUnmap(u, v, v', r);
    hide UnmappedUpto;
    forall va: nat ensures Query(v'.fmt, v'.h, v'.root, va) == Query(u.fmt, u.h, u.root, va) {
      QueryIsLookup(u, va);
      QueryIsLookup(v', va);
    }
  }
}
