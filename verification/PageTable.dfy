/** The mutable page table: `Level4PageTable` over physical memory it shares with
    other tables and with the frame allocator. */
module PageTables {
  import opened Pte
  import opened Blocks
  import opened Tables
  import opened Regions
  import opened Frames
  import opened Steps
  import opened RegionMaps
  import opened Unmaps

  /** Physical memory holding tables of any number of page tables. */
  class PhysMem {
    const frames: FrameAllocator
    var h: Heap
    /** What each table frame is used for. */
    ghost var roles: Roles

    ghost predicate Valid()
      reads this, frames
    {
      && frames.Valid() && frames.base % 0x1000 == 0 && frames.base + frames.pages * 0x1000 <= TWO52
      && Typed(h, roles)
      && forall i <- frames.free :: frames.At(i) !in roles
    }

    constructor (frames: FrameAllocator)
      requires frames.Valid() && frames.base % 0x1000 == 0 && frames.base + frames.pages * 0x1000 <= TWO52
      ensures Valid() && this.frames == frames && roles == map[]
    {
      this.frames := frames;
      h, roles := map[], map[];
    }

    /** `Frame::new_zero`, for a frame that will hold a table. */
    method NewZero() returns (r: Option<nat>)
      requires Valid()
      modifies this`h, frames
      ensures frames.Valid() && frames.base == old(frames.base) && frames.pages == old(frames.pages)
      ensures r.None? ==> Valid() && h == old(h) && frames.free == old(frames.free) == {}
      ensures r.None? ==> frames.live == old(frames.live)
      ensures r.Some? ==>
                && Took(old(frames.free), old(frames.live), frames.free, frames.live, frames.base, r.value)
                && old(frames.free) != {} && |frames.free| == |old(frames.free)| - 1
                && r.value !in roles && r.value % 0x1000 == 0 && r.value < TWO52
                && h == old(h)[r.value := EmptyTable()]
                && forall i <- frames.free :: frames.At(i) !in roles && frames.At(i) != r.value
    {
      hide Partition, Typed, Took, EmptyTable;
      r := frames.Alloc();
      if r.Some? {
        ghost var i :| i in old(frames.free) && r.value == frames.At(i) && frames.free == old(frames.free) - {i}
                       && frames.live == old(frames.live)[i := 1];
        FreeInPool(old(frames.free), old(frames.live), frames.pages, i);
        PageFits(frames.base, i, frames.pages);
        OneLess(old(frames.free), i);
        IsTook(old(frames.free), old(frames.live), frames.base, i);
        h := h[r.value := EmptyTable()];
      }
    }
  }

  /** One free page has become a live run of one. */
  ghost predicate Took(
    free: set<nat>, live: map<nat, nat>, free': set<nat>, live': map<nat, nat>, base: nat, addr: nat)
  {
    exists i <- free :: addr == i * PAGE + base && free' == free - {i} && live' == live[i := 1]
  }

  lemma FreeInPool(free: set<nat>, live: map<nat, nat>, pages: nat, i: nat)
    requires Partition(free, live, pages) && i in free
    ensures i < pages
  {
    assert i in Run(0, pages);
  }

  lemma IsTook(free: set<nat>, live: map<nat, nat>, base: nat, i: nat)
    requires i in free
    ensures Took(free, live, free - {i}, live[i := 1], base, i * PAGE + base)
  {
  }

  lemma OneLess(free: set<nat>, i: nat)
    requires i in free
    ensures |free - {i}| == |free| - 1
  {
  }

  lemma PageFits(base: nat, i: nat, pages: nat)
    requires base % 0x1000 == 0 && i < pages && base + pages * 0x1000 <= TWO52
    ensures (i * PAGE + base) % 0x1000 == 0 && i * PAGE + base < TWO52
  {
  }

  class PageTable {
    const mem: PhysMem
    const fmt: Format
    const root: nat
    var intrm: seq<nat>
    ghost var tables: TableMap
    ghost var leaves: LeafMap

    /** What every operation needs and keeps, whether or not subtrees are shared. */
    ghost predicate Valid()
      reads mem, mem.frames
    {
      mem.Valid() && root in mem.roles && mem.roles[root] == Role(fmt, 4)
    }

    ghost function Now(): View
      reads this, mem
    {
      View(fmt, root, mem.h, mem.roles, tables, leaves)
    }

    /** Nothing else writes the tables of this one. */
    ghost predicate IsTree()
      reads this, mem
    {
      Tree(Now())
    }

    lemma ValidTyped()
      requires Valid()
      ensures Typed(mem.h, mem.roles) && root in mem.roles && mem.roles[root] == Role(fmt, 4)
    {
    }

    constructor (mem: PhysMem, fmt: Format, root: nat)
      requires mem.Valid() && root in mem.roles && mem.roles[root] == Role(fmt, 4)
      requires root in mem.h && mem.h[root] == EmptyTable()
      ensures Valid() && this.mem == mem && this.fmt == fmt && this.root == root
      ensures IsTree() && tables == map[WHOLE := root] && leaves == map[] && intrm == []
    {
      this.mem, this.fmt, this.root := mem, fmt, root;
      intrm, tables, leaves := [], map[WHOLE := root], map[];
      TreeEmpty(fmt, mem.h, mem.roles, root);
    }

    function Lookup(va: nat): Result<Mapping>
      reads this, mem
    {
      Query(fmt, mem.h, root, va)
    }

    /** Free frames, and frames recorded as tables of this one: no step changes the sum. */
    ghost function Budget(): nat
      reads this, mem, mem.frames
    {
      |mem.frames.free| + |intrm|
    }

    /** The store through a reference to an entry. */
    method PutEntry(p: nat, i: nat, w: Word)
      requires Valid() && p in mem.h && i < |mem.h[p]| && Typed(Store(mem.h, p, i, w), mem.roles)
      modifies mem`h
      ensures Valid() && mem.h == Store(old(mem.h), p, i, w)
    {
      hide Typed;
      mem.h := Store(mem.h, p, i, w);
    }

    method NextTableOrCreate(p: nat, i: nat, ghost level: nat) returns (r: Result<nat>)
      requires Valid() && p in mem.roles && mem.roles[p] == Role(fmt, level) && 2 <= level <= 4 && i < 512
      modifies this`intrm, mem, mem.frames
      ensures Valid() && Stepped(fmt, old(mem.h), old(mem.roles), mem.h, mem.roles, p, i, level, r)
      ensures intrm == if r.Ok? && old(IsUnused(Load(mem.h, p, i))) then old(intrm) + [r.value] else old(intrm)
      ensures Budget() == old(Budget()) && (r == Err(NoMemory) ==> mem.frames.free == {})
    {
      hide Typed, Took, NextTable, SetTable, EmptyTable, Partition, Store;
      TypedFrame(mem.h, mem.roles, p);
      var w := Load(mem.h, p, i);
      if !IsUnused(w) {
        NextTableKinds(fmt, w);
        return NextTable(fmt, w);
      }
      var f := mem.NewZero();
      if f.None? {
        return Err(NoMemory);
      }
      var q := f.value;
      TypedLink(old(mem.h), mem.roles, p, i, q);
      intrm := intrm + [q];
      mem.h := Store(mem.h, p, i, SetTable(fmt, w, q));
      mem.roles := mem.roles[q := Role(fmt, level - 1)];
      r := Ok(q);
    }

    /** Where `get_entry_mut_or_create` is after entering the table of this level, having
        started from `u`: what it has kept, and, if `u` was a tree, how the tree has grown. */
    ghost predicate OnWay(u: View, tree: bool, tracked: bool, va: nat, level: nat, r: Result<nat>)
      reads this, mem
    {
      && RootsKept(u.h, u.roles, mem.h, mem.roles, root)
      && (r.Ok? ==> r.value in mem.roles && mem.roles[r.value] == Role(fmt, level))
      && (tree ==> Tree(u) && u.fmt == fmt && u.root == root && Reached(u, Now(), va, level, r))
      && (tracked ==> tree && Tracked(intrm, tables))
    }

    method Enter(p: nat, va: nat, level: nat, ghost u: View, ghost tree: bool, ghost tracked: bool)
      returns (r: Result<nat>)
      requires Valid() && 2 <= level <= 4 && (level == 4 ==> p == root)
      requires OnWay(u, tree, tracked, va, level, Ok(p))
      modifies this, mem, mem.frames
      ensures Valid() && OnWay(u, tree, tracked, va, level - 1, r)
      ensures Budget() == old(Budget()) && old(intrm) <= intrm && (r == Err(NoMemory) ==> mem.frames.free == {})
    {
      hide Tree, Typed, Stepped, Tracked, Reached, RootsKept;
      ghost var v := Now();
      r := NextTableOrCreate(p, Index(level, va), level);
      SteppedKept(fmt, v.h, v.roles, mem.h, mem.roles, p, Index(level, va), level, r, root);
      RootsKeptTransitive(u.h, u.roles, v.h, v.roles, mem.h, mem.roles, root);
      if tree {
        ghost var v' := ReachedDown(u, v, p, va, level, mem.h, mem.roles, r);
        if tracked && r.Ok? && IsUnused(Load(v.h, p, Index(level, va))) {
          TrackedAdd(old(intrm), v.tables, BlockOf(level, va), r.value);
        }
        tables := v'.tables;
        assert Now() == v';
      }
    }

    method GetEntryOrCreate(va: nat, level: nat) returns (r: Result<nat>)
      requires Valid() && 1 <= level <= 3
      modifies this, mem, mem.frames
      ensures Valid() && OnWay(old(Now()), old(IsTree()), old(IsTree() && Tracked(intrm, tables)), va, level, r)
      ensures Budget() == old(Budget()) && old(intrm) <= intrm && (r == Err(NoMemory) ==> mem.frames.free == {})
    {
      hide Tree, Reached, Tracked, Typed, RootsKept, Valid;
      ghost var u, tree, tracked := Now(), IsTree(), IsTree() && Tracked(intrm, tables);
      ValidTyped();
      NothingKept(u);
      if tree { ReachedStart(u, va); }
      var p3 := Enter(root, va, 4, u, tree, tracked);
      if p3.Err? || level == 3 {
        if tree && p3.Err? { ReachedFail(u, Now(), va, 3, level, p3.error); }
        return p3;
      }
      var p2 := Enter(p3.value, va, 3, u, tree, tracked);
      if p2.Err? || level == 2 {
        if tree && p2.Err? { ReachedFail(u, Now(), va, 2, level, p2.error); }
        return p2;
      }
      r := Enter(p2.value, va, 2, u, tree, tracked);
    }

    method MapPage(va: nat, level: nat, paddr: nat, flags: MemFlags) returns (r: Status)
      requires Valid() && 1 <= level <= 3 && paddr < TWO52 && (fmt.X86? ==> flags != {})
      modifies this, mem, mem.frames
      ensures Valid() && RootsKept(old(mem.h), old(mem.roles), mem.h, mem.roles, root)
      ensures old(IsTree()) ==>
                var w := SetLeaf(fmt, ZERO, AlignDown(level, paddr), flags, level > 1);
                PageMapped(old(Now()), Now(), va, level, w, r)
      ensures old(IsTree() && Tracked(intrm, tables)) ==> Tracked(intrm, tables)
      ensures Budget() == old(Budget()) && old(intrm) <= intrm && (r == Failed(NoMemory) ==> mem.frames.free == {})
    {
      hide Tree, Typed, Tracked, Reached, RootsKept, PageMapped, SetLeaf, Valid;
      ghost var u, tree := Now(), IsTree();
      var t := GetEntryOrCreate(va, level);
      ghost var v := Now();
      ghost var word := SetLeaf(fmt, ZERO, AlignDown(level, paddr), flags, level > 1);
      if t.Err? {
        if tree { MappedFail(u, v, va, level, word, t.error); }
        return Failed(t.error);
      }
      var p, i := t.value, Index(level, va);
      var w := Load(mem.h, p, i);
      ValidTyped();
      if !IsUnused(w) {
        if tree { MappedAlready(u, v, va, level, p, word); }
        return Failed(AlreadyMapped);
      }
      TypedFrame(mem.h, mem.roles, p);
      SetLeafMeaning(fmt, w, AlignDown(level, paddr), flags, level > 1);
      TypedLeaf(mem.h, mem.roles, p, i, word);
      LeafRootsKept(mem.h, mem.roles, p, i, word, root);
      RootsKeptTransitive(u.h, u.roles, mem.h, mem.roles, Store(mem.h, p, i, word), mem.roles, root);
      if tree {
        ghost var v' := MappedOk(u, v, va, level, p, word);
        leaves := v'.leaves;
      }
      PutEntry(p, i, SetLeaf(fmt, w, AlignDown(level, paddr), flags, level > 1));
      return Done;
    }

    /** Gives the size and, as `paddr`, the address of the page it has removed. */
    method UnmapPage(va: nat) returns (r: Result<nat>, paddr: nat)
      requires Valid()
      modifies this`leaves, mem`h
      ensures Valid() && RootsKept(old(mem.h), old(mem.roles), mem.h, mem.roles, root)
      ensures r.Ok? ==> 1 <= r.value <= 3
      ensures old(IsTree()) ==> PageUnmapped(old(Now()), Now(), va, r)
      ensures r.Ok? ==> IsPageOf(old(Lookup(va)), va, r.value, paddr)
    {
      hide Tree, Typed, RootsKept, PageUnmapped, PageUpdated, SetLeaf, Walk, Addr, IsPageOf, Query, Valid;
      ghost var v, tree := Now(), IsTree();
      ValidTyped();
      NothingKept(v);
      if tree { WalkFails(v, va, 0, {}); }
      WalkTyped(fmt, mem.h, mem.roles, root, 4, va);
      var e := Walk(fmt, mem.h, root, 4, va);
      if e.Err? { return Err(e.error), 0; }
      var loc := e.value;
      if IsUnused(Load(mem.h, loc.frame, loc.index)) { return Err(NotMapped), 0; }
      paddr := Addr(Load(mem.h, loc.frame, loc.index));
      FoundPage(fmt, mem.h, root, va, loc);
      TypedFrame(mem.h, mem.roles, loc.frame);
      TypedLeaf(mem.h, mem.roles, loc.frame, loc.index, ZERO);
      LeafRootsKept(mem.h, mem.roles, loc.frame, loc.index, ZERO, root);
      if tree {
        ghost var v' := UnmappedOk(v, va, loc);
        leaves := v'.leaves;
      }
      PutEntry(loc.frame, loc.index, ZERO);
      r := Ok(loc.level);
    }

    /** Rewrites the entry the walk ends at; the caller's `paddr` is not aligned down, an
        unused slot is not refused, and an all-zero entry unmaps. EPT panics past 2^52. */
    method Update(va: nat, paddr: nat, flags: MemFlags) returns (r: Result<nat>)
      requires Valid() && (fmt.Ept? ==> paddr < TWO52)
      modifies this`leaves, mem`h
      ensures Valid() && RootsKept(old(mem.h), old(mem.roles), mem.h, mem.roles, root)
      ensures old(IsTree()) ==> PageUpdated(old(Now()), Now(), va, paddr, flags, r)
    {
      hide Tree, Typed, RootsKept, PageUnmapped, PageUpdated, SetLeaf, Walk, Valid;
      ghost var v, tree := Now(), IsTree();
      ValidTyped();
      NothingKept(v);
      if tree { WalkFails(v, va, paddr, flags); }
      WalkTyped(fmt, mem.h, mem.roles, root, 4, va);
      var e := Walk(fmt, mem.h, root, 4, va);
      if e.Err? { return Err(e.error); }
      var loc := e.value;
      TypedFrame(mem.h, mem.roles, loc.frame);
      TypedFits(mem.h, mem.roles, loc.frame, loc.index);
      var w := Load(mem.h, loc.frame, loc.index);
      var w' := SetLeaf(fmt, w, paddr, flags, loc.level > 1);
      SetLeafAny(fmt, w, paddr, flags, loc.level > 1);
      TypedLeaf(mem.h, mem.roles, loc.frame, loc.index, w');
      LeafRootsKept(mem.h, mem.roles, loc.frame, loc.index, w', root);
      if tree {
        ghost var v' := UpdatedOk(v, va, loc, paddr, flags);
        leaves := v'.leaves;
      }
      PutEntry(loc.frame, loc.index, w');
      return Ok(loc.level);
    }

    method Map(r: Region) returns (res: Status, ghost stop: nat)
      requires Valid() && Mappable(fmt, r)
      modifies this, mem, mem.frames
      ensures Valid() && RootsKept(old(mem.h), old(mem.roles), mem.h, mem.roles, root)
      ensures old(IsTree()) ==> MapEnded(old(Now()), Now(), r, stop, res)
      ensures old(IsTree() && Tracked(intrm, tables)) ==> Tracked(intrm, tables)
      ensures Budget() == old(Budget()) && old(intrm) <= intrm && (res == Failed(NoMemory) ==> mem.frames.free == {})
    {
      hide Tree, Typed, RootsKept, Tracked, PageMapped, MapEnded, MapLoop, PageLevel, Greedy, MapFn, SetLeaf, Mappable,
           Valid;
      ghost var u, tree, tracked := Now(), IsTree(), IsTree() && Tracked(intrm, tables);
      ValidTyped();
      NothingKept(u);
      MapLoopStart(u, r, tree);
      MappableFlags(fmt, r);
      var va: nat, size: nat := r.start, r.size;
      ghost var x: nat := Base(r);
      while size > 0
        invariant Valid() && RootsKept(u.h, u.roles, mem.h, mem.roles, root)
        invariant MapLoop(u, Now(), r, tree, x, va, size) && (tree ==> IsTree())
        invariant tracked ==> Tracked(intrm, tables)
        invariant Budget() == old(Budget()) && old(intrm) <= intrm
      {
        ghost var v := Now();
        MapLoopPage(u, v, r, tree, x, va, size);
        var paddr := MapFn(r.mapper, va);
        var level := Greedy(r, va, size);
        res := MapPage(va, level, paddr, r.flags);
        RootsKeptTransitive(u.h, u.roles, v.h, v.roles, mem.h, mem.roles, root);
        ghost var w := SetLeaf(fmt, ZERO, AlignDown(level, paddr), r.flags, level > 1);
        MapLoopNext(u, v, Now(), r, tree, x, va, size, w, res);
        if res.Failed? {
          return res, x;
        }
        va := (va + Size(level)) % TWO64;
        size := size - Size(level);
        x := x + Size(level);
      }
      if tree { MapLoopEnd(u, Now(), r, x, va); }
      return Done, x;
    }

    method Unmap(r: Region) returns (res: UnmapOutcome)
      requires Valid()
      modifies this`leaves, mem`h
      ensures Valid() && RootsKept(old(mem.h), old(mem.roles), mem.h, mem.roles, root)
      ensures old(IsTree()) ==> Shrunk(old(Now()), Now())
      // A region whose pages are all mapped is unmapped without error or panic.
      ensures old(IsTree() && Mappable(fmt, r) && AllMapped(Now(), r)) ==>
                res == Unmapped && UnmappedUpto(old(Now()), Now(), r, Limit(r))
      // On any other, what stopped it is what stands first in its way.
      ensures old(IsTree()) && Placed(r) ==> UnmapEnded(old(Now()), Now(), r, res)
    {
      hide Tree, Typed, RootsKept, PageUnmapped, Shrunk, UnmappedUpto, AllMapped, UnmapLoop, Mappable, Valid,
           IsAligned, Size, Peeling, UnmapEnded, Placed;
      ghost var u, tree := Now(), IsTree();
      ValidTyped();
      ghost var covered := tree && Mappable(fmt, r) && AllMapped(u, r);
      NothingKept(u);
      UnmapLoopStart(u, r, tree, covered);
      if tree { PeelingStart(u, r); }
      var va: nat, size: nat := r.start, r.size;
      ghost var x: nat := Base(r);
      while size > 0
        invariant Valid() && RootsKept(u.h, u.roles, mem.h, mem.roles, root)
        invariant UnmapLoop(u, Now(), r, tree, covered, x, va, size) && (tree ==> IsTree() && Shrunk(u, Now()))
        invariant tree && Placed(r) ==> Peeling(u, Now(), r, x, va, size)
      {
        ghost var v := Now();
        var e, _ := UnmapPage(va);
        RootsKeptTransitive(u.h, u.roles, v.h, v.roles, mem.h, mem.roles, root);
        UnmapLoopNext(u, v, Now(), r, tree, covered, x, va, size, e);
        if tree && Placed(r) { PeelTurn(u, v, Now(), r, x, va, size, e); }
        if e.Err? { return NotUnmapped(e.error); }
        var level := e.value;
        SizePositive(level);
        if !IsAligned(level, va) || Size(level) > size { return Panicked; }
        va := (va + Size(level)) % TWO64;
        size := size - Size(level);
        x := x + Size(level);
      }
      if covered { UnmapLoopEnd(u, Now(), r, x, va); }
      if tree && Placed(r) { PeelingEnd(u, Now(), r, x, va); }
      return Unmapped;
    }

    /** `clone`: a new root with the same 512 entries; the tables below are shared. */
    method Clone() returns (c: PageTable?)
      requires Valid()
      modifies mem, mem.frames
      ensures Valid()
      // The clone takes one frame, and is missing only when there was none.
      ensures c == null <==> old(mem.frames.free) == {}
      ensures c != null ==> |mem.frames.free| == |old(mem.frames.free)| - 1
      ensures c != null ==>
                && fresh(c) && c.mem == mem && c.fmt == fmt && c.Valid() && c.root !in old(mem.roles) && c.intrm == []
                && (forall i: nat :: Load(mem.h, c.root, i) == Load(mem.h, root, i))
                && mem.h == old(mem.h)[c.root := old(mem.h)[root]]
    {
      hide Typed, Took, EmptyTable, Tree, Partition;
      ghost var h, roles := mem.h, mem.roles;
      TypedFrame(h, roles, root);
      var f := mem.NewZero();
      if f.None? { return null; }
      var q := f.value;
      TypedZero(h, roles, q, Role(fmt, 4));
      mem.roles := mem.roles[q := Role(fmt, 4)];
      c := new PageTable(mem, fmt, q);
      TypedCopy(mem.h, mem.roles, root, q);
      mem.h := mem.h[q := mem.h[root]];
      assert mem.h == h[q := h[root]];
    }
  }
}
