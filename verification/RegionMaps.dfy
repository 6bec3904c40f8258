/** Mapping and unmapping a whole region, page by page: what the loops have done at
    each point, and what that means for every address. */
module RegionMaps {
  import opened Pte
  import opened Blocks
  import opened Tables
  import opened Regions
  import opened Steps

  lemma AtPosition(r: Region, x: nat, level: nat)
    requires r.start < TWO64 && x < TWO48 && Base(r) <= x && 1 <= level <= 5
    ensures At(r, x) % TWO48 == x && BlockOf(level, At(r, x)) == BlockOf(level, x)
  {
    DivUnique(TWO48, r.start / TWO48, x);
  }

  /** At most one block of an address is a leaf. */
  lemma OneLeaf(v: View, va: nat, l: nat, m: nat)
    requires Tree(v) && 1 <= l < m <= 3 && BlockOf(m, va) in v.leaves
    ensures BlockOf(l, va) !in v.leaves
  {
    assert SlotOk(v, BlockOf(m, va));
    NothingBelow(v, m, l, va);
  }

  /** The tables gained since `u` all cover a position of the region before `z`. */
  ghost predicate Gained(u: View, v: View, r: Region, z: nat) {
    forall c <- v.tables | c !in u.tables ::
      2 <= c.level <= 4 && exists y: nat | Base(r) <= y < z :: c == BlockOf(c.level, y)
  }

  ghost predicate NoneBlocked(u: View, r: Region, x: nat) {
    forall b: Block | Chosen(r, b) && First(b) < x :: !Blocked(u, First(b), b.level)
  }

  /** `map` has mapped exactly the pages of the region that start before the cut `x`. */
  ghost predicate MappedUpto(u: View, v: View, r: Region, x: nat)
    requires Mappable(u.fmt, r)
  {
    && v.fmt == u.fmt && v.root == u.root && Tree(v) && OthersKept(u, v)
    && IsCut(r, x) && NoneBlocked(u, r, x)
    && v.leaves == u.leaves + LeavesUpto(u.fmt, r, x)
  }

  lemma StartIsCut(r: Region)
    requires r.start % 0x1000 == 0 && r.size % 0x1000 == 0 && Limit(r) <= TWO48
    ensures IsCut(r, Base(r))
  {
    if Base(r) < Limit(r) {
      PageAtChosen(r, Base(r));
    }
  }

  lemma NothingBeforeStart(fmt: Format, r: Region)
    requires Mappable(fmt, r)
    ensures LeavesUpto(fmt, r, Base(r)) == map[]
  {
    forall b: Block ensures b !in LeavesUpto(fmt, r, Base(r)) {
      LeavesUptoAt(fmt, r, Base(r), b);
    }
  }

  lemma MappedUptoStart(u: View, r: Region)
    requires Typed(u.h, u.roles) && Tree(u) && Mappable(u.fmt, r)
    ensures MappedUpto(u, u, r, Base(r)) && Gained(u, u, r, Base(r))
  {
    hide Tree, Typed, OthersKept, IsCut, LeavesUpto;
    NothingKept(u);
    NothingBeforeStart(u.fmt, r);
    StartIsCut(r);
    assert u.leaves + map[] == u.leaves;
  }

  lemma HoldsPosition(level: nat, x: nat)
    requires 1 <= level <= 5 && x < TWO48
    ensures BlockOf(level, x).level == level && First(BlockOf(level, x)) <= x < End(BlockOf(level, x))
  {
    InBlock(BlockOf(level, x), x);
  }

  /** A table gained before the cut cannot be the table of the page at the cut. */
  lemma NewTableElsewhere(u: View, v: View, r: Region, x: nat)
    requires Limit(r) <= TWO48 && IsCut(r, x) && x < Limit(r) && Gained(u, v, r, x)
    ensures PageAt(r, x) in v.tables ==> PageAt(r, x) in u.tables
  {
    hide PageAt, First, BlockOf;
    var b := PageAt(r, x);
    if b in v.tables && b !in u.tables {
      var y: nat :| Base(r) <= y < x && b == BlockOf(b.level, y);
      HoldsPosition(b.level, y);
      assert false;
    }
  }

  /** A page mapped before the cut does not cover the cut. */
  lemma NewLeafElsewhere(fmt: Format, r: Region, x: nat, l: nat)
    requires Mappable(fmt, r) && IsCut(r, x) && x < Limit(r) && 1 <= l <= 3
    ensures BlockOf(l, x) !in LeavesUpto(fmt, r, x)
  {
    hide PageAt, First, End, BlockOf, LeavesUpto, Chosen;
    var c := BlockOf(l, x);
    HoldsPosition(l, x);
    LeavesUptoAt(fmt, r, x, c);
    if c in LeavesUpto(fmt, r, x) {
      ChosenIsPageAt(r, c, x);
    }
  }

  /** What blocks the page at the cut was there before the loop started. */
  lemma BlockedBefore(u: View, v: View, r: Region, x: nat)
    requires Mappable(u.fmt, r) && MappedUpto(u, v, r, x) && Gained(u, v, r, x) && x < Limit(r)
    ensures Blocked(v, x, PageLevel(r, x)) <==> Blocked(u, x, PageLevel(r, x))
  {
    hide Tree, IsCut, Gained, LeavesUpto, NoneBlocked;
    NewTableElsewhere(u, v, r, x);
    assert PageAt(r, x) in u.tables ==> PageAt(r, x) in v.tables;
    forall l | PageLevel(r, x) <= l <= 3 ensures BlockOf(l, x) in v.leaves <==> BlockOf(l, x) in u.leaves {
      NewLeafElsewhere(u.fmt, r, x, l);
    }
  }

  lemma CoveringBefore(u: View, v: View, r: Region, x: nat, e: PagingError)
    requires Mappable(u.fmt, r) && MappedUpto(u, v, r, x) && x < Limit(r) && Covering(v, x, PageLevel(r, x), e)
    ensures Covering(u, x, PageLevel(r, x), e)
  {
    hide IsCut, LeavesUpto, NoneBlocked, OthersKept, PageLevel, BlockOf, InTheWay;
    var l :| 1 <= l <= 4 && PageLevel(r, x) < l
             && BlockOf(l, x) in v.leaves && e == InTheWay(v.fmt, v.leaves[BlockOf(l, x)]);
    BlockLevel(l, x);
    assert 1 <= BlockOf(l, x).level <= 3;
    NewLeafElsewhere(u.fmt, r, x, l);
  }

  lemma NoneBlockedStep(u: View, r: Region, x: nat)
    requires r.start % 0x1000 == 0 && r.size % 0x1000 == 0 && Limit(r) <= TWO48
    requires IsCut(r, x) && x < Limit(r) && NoneBlocked(u, r, x) && !Blocked(u, x, PageLevel(r, x))
    ensures NoneBlocked(u, r, End(PageAt(r, x)))
  {
    var b := PageAt(r, x);
    forall c: Block | Chosen(r, c) && First(c) < End(b) ensures !Blocked(u, First(c), c.level) {
      if x <= First(c) {
        PageAtChosen(r, x);
        ChosenIsPageAt(r, b, First(c));
        ChosenIsPageAt(r, c, First(c));
      }
    }
  }

  /** One more page mapped moves the cut past it. */
  lemma MappedUptoNext(u: View, v: View, v': View, r: Region, x: nat)
    requires Mappable(u.fmt, r) && MappedUpto(u, v, r, x) && Gained(u, v, r, x) && x < Limit(r)
    requires v'.fmt == v.fmt && v'.root == v.root && Candidate(r, PageAt(r, x))
    requires PageMapped(v, v', x, PageLevel(r, x), PageWord(u.fmt, r, PageAt(r, x)), Done)
    ensures MappedUpto(u, v', r, End(PageAt(r, x)))
  {
    hide Tree, IsCut, Gained, LeavesUpto, NoneBlocked, Blocked, PageLevel, OthersKept;
    OthersKeptTransitive(u, v, v');
    BlockedBefore(u, v, r, x);
    NoneBlockedStep(u, r, x);
    NextCut(r, x);
    LeavesUptoStep(u.fmt, r, x);
  }

  lemma GainedNext(u: View, v: View, v': View, r: Region, x: nat, z: nat)
    requires Gained(u, v, r, x) && Base(r) <= x < z
    requires forall c <- v'.tables :: c in v.tables || (2 <= c.level <= 4 && c == BlockOf(c.level, x))
    ensures Gained(u, v', r, z)
  {
  }

  /** How `map` ends. It stops at the first page it cannot map, with the pages before it
      mapped and no other leaf changed, and it stops for another reason than memory
      exactly when that page was blocked before the call. */
  ghost predicate MapEnded(u: View, v: View, r: Region, stop: nat, res: Status)
    requires Mappable(u.fmt, r)
  {
    && MappedUpto(u, v, r, stop)
    && match res
       case Done => stop == Limit(r) && Gained(u, v, r, Limit(r))
       case Failed(e) =>
         && stop < Limit(r) && Gained(u, v, r, stop + 1)
         && (!e.NoMemory? <==> Blocked(u, stop, PageLevel(r, stop)))
         && (e.AlreadyMapped? <==> PageAt(r, stop) in u.tables || PageAt(r, stop) in u.leaves)
         && (e.NoMemory? || e.AlreadyMapped? || Covering(u, stop, PageLevel(r, stop), e))
  }

  lemma MapFails(u: View, v: View, v': View, r: Region, x: nat, w: Word, e: PagingError)
    requires Mappable(u.fmt, r) && MappedUpto(u, v, r, x) && Gained(u, v, r, x) && x < Limit(r)
    requires v'.fmt == v.fmt && v'.root == v.root
    requires PageMapped(v, v', x, PageLevel(r, x), w, Failed(e))
    ensures MapEnded(u, v', r, x, Failed(e))
  {
    hide Tree, IsCut, Gained, LeavesUpto, NoneBlocked, Blocked, PageLevel;
    OthersKeptTransitive(u, v, v');
    assert PageAt(r, x) in u.tables ==> PageAt(r, x) in v.tables;
    hide OthersKept;
    BlockedBefore(u, v, r, x);
    NewTableElsewhere(u, v, r, x);
    NewLeafElsewhere(u.fmt, r, x, PageLevel(r, x));
    if !e.NoMemory? && !e.AlreadyMapped? { CoveringBefore(u, v, r, x, e); }
    GainedNext(u, v, v', r, x, x + 1) by { assert Base(r) <= x by { CutInside(r, x); } }
  }

  lemma CutInside(r: Region, x: nat)
    requires IsCut(r, x)
    ensures Base(r) <= x <= Limit(r)
  {
  }

  // ---- What the mapped prefix means to every address ------------------------------

  /** Position of `va` counted from the start of the region's 48-bit space. */
  ghost predicate Before(r: Region, x: nat, va: nat) {
    Base(r) <= va % TWO48 < x
  }

  lemma LookupOf(v: View, va: nat, level: nat)
    requires Tree(v) && 1 <= level <= 3 && BlockOf(level, va) in v.leaves
    ensures Lookup(v.fmt, v.leaves, va) == Ok(Translate(v.fmt, v.leaves[BlockOf(level, va)], level, va))
  {
    hide Tree, Translate, BlockOf;
    forall m | 1 <= m <= 3 && m != level ensures BlockOf(m, va) !in v.leaves {
      if m < level { OneLeaf(v, va, m, level); }
      else if BlockOf(m, va) in v.leaves { OneLeaf(v, va, level, m); }
    }
  }

  lemma PageAtBlock(r: Region, va: nat)
    ensures var x := va % TWO48;
            PageAt(r, x) == BlockOf(PageLevel(r, x), va) && PageAt(r, x).level == PageLevel(r, x)
  {
    hide BlockOf, PageLevel;
    BlockOfLow(PageLevel(r, va % TWO48), va);
  }

  /** Every address of the mapped prefix goes where the region sends it. */
  lemma PrefixTranslates(u: View, v: View, r: Region, x: nat, va: nat)
    requires Mappable(u.fmt, r) && MappedUpto(u, v, r, x) && Contains(r, va) && Before(r, x, va)
    ensures Lookup(v.fmt, v.leaves, va) == Ok(Target(v.fmt, r, va))
  {
    hide Tree, PageAt, PageLevel, Chosen, LeavesUpto, IsCut, NoneBlocked, OthersKept, Target, Translate, BlockOf;
    var b := PageAt(r, va % TWO48);
    PageAtBlock(r, va);
    Position(r, va);
    LeafTarget(u.fmt, r, va);
    PageAtChosen(r, va % TWO48);
    LeavesUptoAt(u.fmt, r, x, b);
    LeavesUptoAt(u.fmt, r, Limit(r), b);
    LookupOf(v, va, b.level);
  }

  /** Every other address is looked up as before, down to the error. */
  lemma RestUnchanged(u: View, v: View, r: Region, x: nat, va: nat)
    requires Mappable(u.fmt, r) && MappedUpto(u, v, r, x) && !Before(r, x, va)
    ensures Lookup(v.fmt, v.leaves, va) == Lookup(u.fmt, u.leaves, va)
  {
    hide Tree, LeavesUpto, IsCut, NoneBlocked, OthersKept, Translate, BlockOf;
    forall l | 1 <= l <= 3 ensures BlockOf(l, va) !in LeavesUpto(u.fmt, r, x) {
      NotInPrefix(u.fmt, r, x, va, l);
    }
  }

  lemma NotInPrefix(fmt: Format, r: Region, x: nat, va: nat, l: nat)
    requires Mappable(fmt, r) && IsCut(r, x) && !Before(r, x, va) && 1 <= l <= 3
    ensures BlockOf(l, va) !in LeavesUpto(fmt, r, x)
  {
    var c := BlockOf(l, va);
    InBlock(c, va);
    CutInside(r, x);
    hide LeavesUpto, BlockOf, PageAt;
    LeavesUptoAt(fmt, r, x, c);
    if c in LeavesUpto(fmt, r, x) {
      assert First(c) < x < End(c);
      ChosenIsPageAt(r, c, x);
    }
  }

  // ---- Unmapping ------------------------------------------------------------------

  /** Every page of the region is a leaf, as `map` leaves it. */
  ghost predicate AllMapped(u: View, r: Region) {
    forall b: Block | Chosen(r, b) :: b in u.leaves
  }

  ghost predicate UnmappedUpto(u: View, v: View, r: Region, x: nat)
    requires Mappable(u.fmt, r)
  {
    && v.fmt == u.fmt && v.root == u.root && Tree(v) && OthersKept(u, v) && v.tables == u.tables
    && IsCut(r, x)
    && v.leaves == u.leaves - LeavesUpto(u.fmt, r, x).Keys
  }

  lemma UnmappedUptoStart(u: View, r: Region)
    requires Typed(u.h, u.roles) && Tree(u) && Mappable(u.fmt, r)
    ensures UnmappedUpto(u, u, r, Base(r))
  {
    hide Tree, Typed, OthersKept, IsCut, LeavesUpto;
    NothingKept(u);
    NothingBeforeStart(u.fmt, r);
    StartIsCut(r);
  }

  /** At a cut, `unmap_page` finds the page the region has there. */
  lemma UnmapFindsPage(u: View, v: View, v': View, r: Region, x: nat, res: Result<nat>)
    requires Mappable(u.fmt, r) && UnmappedUpto(u, v, r, x) && AllMapped(u, r) && x < Limit(r)
    requires PageUnmapped(v, v', x, res)
    ensures res == Ok(PageLevel(r, x)) && PageAt(r, x) in v.leaves && v'.leaves == v.leaves - {PageAt(r, x)}
  {
    var b := PageAt(r, x);
    assert b == BlockOf(b.level, x) && b.level == PageLevel(r, x);
    hide Tree, PageAt, PageLevel, LeavesUpto, IsCut, OthersKept, BlockOf;
    CutInside(r, x);
    PageAtChosen(r, x);
    NewLeafElsewhere(u.fmt, r, x, b.level);
    assert b in v.leaves;
    if res.Ok? {
      if res.value < b.level { OneLeaf(v, x, res.value, b.level); }
      if b.level < res.value { OneLeaf(v, x, b.level, res.value); }
    }
  }

  lemma UnmappedUptoNext(u: View, v: View, v': View, r: Region, x: nat)
    requires Mappable(u.fmt, r) && UnmappedUpto(u, v, r, x) && AllMapped(u, r) && x < Limit(r)
    requires v'.fmt == v.fmt && v'.root == v.root && PageUnmapped(v, v', x, Ok(PageLevel(r, x)))
    ensures UnmappedUpto(u, v', r, End(PageAt(r, x)))
  {
    hide Tree, IsCut, LeavesUpto, PageLevel;
    UnmapFindsPage(u, v, v', r, x, Ok(PageLevel(r, x)));
    OthersKeptTransitive(u, v, v');
    hide OthersKept;
    NextCut(r, x);
    LeavesUptoStep(u.fmt, r, x);
  }

  // ---- The loops, in addresses ------------------------------------------------------

  lemma PageMappedAt(v: View, v': View, r: Region, x: nat, level: nat, w: Word, res: Status)
    requires r.start < TWO64 && Base(r) <= x < TWO48 && 1 <= level <= 3
    requires PageMapped(v, v', At(r, x), level, w, res)
    ensures PageMapped(v, v', x, level, w, res)
  {
    hide Tree, OthersKept, BlockOf;
    forall l | 1 <= l <= 5 ensures BlockOf(l, At(r, x)) == BlockOf(l, x) { AtPosition(r, x, l); }
    assert Blocked(v, At(r, x), level) <==> Blocked(v, x, level);
  }

  lemma PageUnmappedAt(v: View, v': View, r: Region, x: nat, res: Result<nat>)
    requires r.start < TWO64 && Base(r) <= x < TWO48
    requires PageUnmapped(v, v', At(r, x), res)
    ensures PageUnmapped(v, v', x, res)
  {
    hide Tree, OthersKept, BlockOf;
    forall l | 1 <= l <= 5 ensures BlockOf(l, At(r, x)) == BlockOf(l, x) { AtPosition(r, x, l); }
  }

  /** What the loop of `map` is about to do at a cut. */
  lemma NextPage(fmt: Format, r: Region, x: nat)
    requires Mappable(fmt, r) && IsCut(r, x) && x < Limit(r)
    ensures var level := PageLevel(r, x);
            && 0 <= At(r, x) < TWO64 && Greedy(r, At(r, x), Limit(r) - x) == level
            && x + Size(level) == End(PageAt(r, x)) <= Limit(r) && IsCut(r, x + Size(level))
            && MapFn(r.mapper, At(r, x)) < TWO52 && PageAt(r, x).level == level && Candidate(r, PageAt(r, x))
            && PageWord(fmt, r, PageAt(r, x))
               == SetLeaf(fmt, ZERO, AlignDown(level, MapFn(r.mapper, At(r, x))), r.flags, level > 1)
            && At(r, x) % Size(level) == 0
            && (x + Size(level) < Limit(r) ==> (At(r, x) + Size(level)) % TWO64 == At(r, x + Size(level)))
  {
    hide IsCut, PageLevel, Greedy, SetLeaf, MapFn, At, BlockOf;
    CutInside(r, x);
    CutFirst(r, x);
    PageAtChosen(r, x);
    GreedyIsClosedForm(r, x);
    NextCut(r, x);
    PageTargetFits(fmt, r, PageAt(r, x));
    FirstAligned(PageAt(r, x));
    AlignedAt(r, x, PageLevel(r, x));
    AtNext(r, x, Size(PageLevel(r, x)));
  }

  lemma CutFirst(r: Region, x: nat)
    requires IsCut(r, x) && x < Limit(r)
    ensures First(PageAt(r, x)) == x && PageAt(r, x).level == PageLevel(r, x)
  {
  }

  lemma AtNext(r: Region, x: nat, n: nat)
    requires r.start < TWO64 && Limit(r) <= TWO48 && Base(r) <= x < Limit(r) && x + n <= Limit(r)
    ensures 0 <= At(r, x) < TWO64
    ensures x + n < Limit(r) ==> (At(r, x) + n) % TWO64 == At(r, x + n)
  {
  }

  lemma PageTables(v: View, v': View, va: nat, level: nat, w: Word, res: Status)
    requires 1 <= level <= 3 && PageMapped(v, v', va, level, w, res)
    ensures Tree(v')
    ensures forall c <- v'.tables :: c in v.tables || (2 <= c.level <= 4 && c == BlockOf(c.level, va))
  {
    hide Tree;
  }

  /** One turn of the loop of `map`. */
  lemma MapTurn(u: View, v: View, v': View, r: Region, x: nat, w: Word, res: Status)
    requires Mappable(u.fmt, r) && MappedUpto(u, v, r, x) && Gained(u, v, r, x) && x < Limit(r) && 0 <= At(r, x)
    requires v'.fmt == v.fmt && v'.root == v.root && Candidate(r, PageAt(r, x)) && w == PageWord(u.fmt, r, PageAt(r, x))
    requires PageMapped(v, v', At(r, x), PageLevel(r, x), w, res)
    ensures Tree(v')
    ensures res.Failed? ==> MapEnded(u, v', r, x, res)
    ensures res.Done? ==> MappedUpto(u, v', r, x + Size(PageLevel(r, x))) && Gained(u, v', r, x + Size(PageLevel(r, x)))
  {
    hide Tree, OthersKept, LeavesUpto, NoneBlocked, PageMapped, MapEnded, Gained, PageLevel, PageWord, IsCut;
    CutInside(r, x);
    NextCut(r, x);
    PageTables(v, v', At(r, x), PageLevel(r, x), w, res);
    AtPosition(r, x, 2);
    AtPosition(r, x, 3);
    AtPosition(r, x, 4);
    PageMappedAt(v, v', r, x, PageLevel(r, x), w, res);
    if res.Failed? {
      MapFails(u, v, v', r, x, w, res.error);
    } else {
      MappedUptoNext(u, v, v', r, x);
      GainedNext(u, v, v', r, x, x + Size(PageLevel(r, x)));
    }
  }

  lemma MapAllDone(u: View, v: View, r: Region)
    requires Mappable(u.fmt, r) && MappedUpto(u, v, r, Limit(r)) && Gained(u, v, r, Limit(r))
    ensures MapEnded(u, v, r, Limit(r), Done)
  {
    hide MappedUpto, Gained;
  }

  lemma StartAt(r: Region)
    ensures At(r, Base(r)) == r.start
  {
  }

  /** What `unmap` keeps however it ends: it only ever removes leaves. */
  ghost predicate Shrunk(u: View, v: View) {
    && v.fmt == u.fmt && v.root == u.root && Tree(v) && OthersKept(u, v) && v.tables == u.tables
    && forall b <- v.leaves :: b in u.leaves && v.leaves[b] == u.leaves[b]
  }

  lemma ShrunkNext(u: View, v: View, v': View, va: nat, res: Result<nat>)
    requires Shrunk(u, v) && v'.fmt == v.fmt && v'.root == v.root && PageUnmapped(v, v', va, res)
    ensures Shrunk(u, v') && Tree(v')
  {
    hide Tree, OthersKept;
    OthersKeptTransitive(u, v, v');
  }

  /** One turn of the loop of `unmap` over a region all of whose pages are mapped. */
  lemma UnmapTurn(u: View, v: View, v': View, r: Region, x: nat, res: Result<nat>)
    requires Mappable(u.fmt, r) && UnmappedUpto(u, v, r, x) && AllMapped(u, r) && x < Limit(r) && 0 <= At(r, x)
    requires v'.fmt == v.fmt && v'.root == v.root && PageUnmapped(v, v', At(r, x), res)
    ensures res == Ok(PageLevel(r, x)) && UnmappedUpto(u, v', r, x + Size(PageLevel(r, x)))
  {
    hide Tree, OthersKept, LeavesUpto, PageUnmapped, AllMapped, PageLevel, IsCut;
    CutInside(r, x);
    NextCut(r, x);
    PageUnmappedAt(v, v', r, x, res);
    UnmapFindsPage(u, v, v', r, x, res);
    UnmappedUptoNext(u, v, v', r, x);
  }

  lemma UnmappedCut(u: View, v: View, r: Region, x: nat)
    requires Mappable(u.fmt, r) && UnmappedUpto(u, v, r, x)
    ensures IsCut(r, x) && Base(r) <= x <= Limit(r)
  {
  }

  lemma ShrunkStart(u: View)
    requires Typed(u.h, u.roles) && Tree(u)
    ensures Shrunk(u, u)
  {
    NothingKept(u);
  }

  // ---- Map, then unmap ---------------------------------------------------------------

  /** A region that `map` has mapped is one that `unmap` can unmap. */
  lemma MappedIsAllMapped(u: View, v: View, r: Region)
    requires Mappable(u.fmt, r) && MappedUpto(u, v, r, Limit(r))
    ensures AllMapped(v, r)
  {
    hide Tree, LeavesUpto, NoneBlocked, OthersKept, IsCut;
    forall b: Block | Chosen(r, b) ensures b in v.leaves {
      LeavesUptoAt(u.fmt, r, Limit(r), b);
    }
  }

  /** Mapping a region and unmapping it again gives back the leaves, so the answer at
      every address, whatever tables are left behind. */
  lemma MapThenUnmap(u: View, v: View, v': View, r: Region)
    requires Mappable(u.fmt, r) && Tree(u) && MappedUpto(u, v, r, Limit(r)) && UnmappedUpto(v, v', r, Limit(r))
    ensures v'.leaves == u.leaves
    ensures forall va: nat :: Lookup(v'.fmt, v'.leaves, va) == Lookup(u.fmt, u.leaves, va)
  {
    hide Tree, LeavesUpto, OthersKept, IsCut, Lookup, Candidate, PageLevel;
    var added := RegionLeaves(u.fmt, r);
    forall b: Block | b in added ensures b !in u.leaves {
      LeavesUptoAt(u.fmt, r, Limit(r), b);
      ChosenFits(r, b);
      assert !Blocked(u, First(b), b.level);
      InBlock(b, First(b));
    }
  }

  // ---- The loops of `map` and `unmap` ------------------------------------------------------

  /** `map` is at position `x`, with `size` bytes to go from `va`; on a tree, the pages before
      that are mapped. */
  ghost predicate MapLoop(u: View, v: View, r: Region, tree: bool, x: nat, va: nat, size: nat)
    requires Mappable(u.fmt, r)
  {
    && IsCut(r, x) && x <= Limit(r) && size == Limit(r) - x && (size > 0 ==> va == At(r, x))
    && (tree ==> MappedUpto(u, v, r, x) && Gained(u, v, r, x))
  }

  lemma MapLoopStart(u: View, r: Region, tree: bool)
    requires Mappable(u.fmt, r) && (tree ==> Typed(u.h, u.roles) && Tree(u))
    ensures MapLoop(u, u, r, tree, Base(r), r.start, r.size)
  {
    hide Tree, Typed, MappedUpto, Gained, IsCut, At, Base;
    StartIsCut(r);
    StartAt(r);
    if tree { MappedUptoStart(u, r); }
  }

  lemma MapLoopPage(u: View, v: View, r: Region, tree: bool, x: nat, va: nat, size: nat)
    requires Mappable(u.fmt, r) && MapLoop(u, v, r, tree, x, va, size) && size > 0
    ensures var level := Greedy(r, va, size);
            1 <= level <= 3 && level == PageLevel(r, x) && Size(level) <= size && MapFn(r.mapper, va) < TWO52
  {
    hide MappedUpto, Gained, IsCut, Greedy, PageLevel, MapFn, At, PageWord, Candidate, PageAt, End, SetLeaf, Mappable;
    NextPage(u.fmt, r, x);
  }

  lemma MapLoopNext(u: View, v: View, v': View, r: Region, tree: bool, x: nat, va: nat, size: nat, w: Word, res: Status)
    requires Mappable(u.fmt, r) && MapLoop(u, v, r, tree, x, va, size) && size > 0
    requires v'.fmt == v.fmt == u.fmt && v'.root == v.root && MapFn(r.mapper, va) < TWO52
    requires var level := Greedy(r, va, size);
             && 1 <= level <= 3 && level == PageLevel(r, x) && Size(level) <= size
             && w == SetLeaf(u.fmt, ZERO, AlignDown(level, MapFn(r.mapper, va)), r.flags, level > 1)
             && (tree ==> PageMapped(v, v', va, level, w, res))
    ensures tree ==> Tree(v') && (res.Failed? ==> MapEnded(u, v', r, x, res))
    ensures var n := Size(Greedy(r, va, size));
            res.Done? ==> MapLoop(u, v', r, tree, x + n, (va + n) % TWO64, size - n)
  {
    hide Tree, MappedUpto, Gained, IsCut, Greedy, PageLevel, MapFn, At, PageWord, Candidate, PageAt, End, SetLeaf,
         MapEnded, PageMapped, Mappable;
    NextPage(u.fmt, r, x);
    if tree { MapTurn(u, v, v', r, x, w, res); }
  }

  lemma MapLoopEnd(u: View, v: View, r: Region, x: nat, va: nat)
    requires Mappable(u.fmt, r) && MapLoop(u, v, r, true, x, va, 0)
    ensures MapEnded(u, v, r, x, Done)
  {
    hide MappedUpto, Gained, IsCut, MapEnded, Mappable;
    MapAllDone(u, v, r);
  }

  /** `unmap` is at position `x`; on a tree only pages have gone, and if the whole region was
      mapped they are the pages before that. */
  ghost predicate UnmapLoop(u: View, v: View, r: Region, tree: bool, covered: bool, x: nat, va: nat, size: nat) {
    && (tree ==> Shrunk(u, v))
    && (covered ==>
          && tree && Mappable(u.fmt, r) && AllMapped(u, r) && x <= Limit(r) && size == Limit(r) - x
          && (size > 0 ==> va == At(r, x)) && UnmappedUpto(u, v, r, x))
  }

  lemma UnmapLoopStart(u: View, r: Region, tree: bool, covered: bool)
    requires tree ==> Typed(u.h, u.roles) && Tree(u)
    requires covered ==> tree && Mappable(u.fmt, r) && AllMapped(u, r)
    ensures UnmapLoop(u, u, r, tree, covered, Base(r), r.start, r.size) && (tree ==> Shrunk(u, u))
  {
    hide Tree, Typed, Shrunk, UnmappedUpto, AllMapped, At, Base;
    if tree { ShrunkStart(u); }
    if covered {
      StartAt(r);
      UnmappedUptoStart(u, r);
    }
  }

  lemma UnmapLoopNext(u: View, v: View, v': View, r: Region, tree: bool, covered: bool, x: nat, va: nat, size: nat,
                      res: Result<nat>)
    requires UnmapLoop(u, v, r, tree, covered, x, va, size) && size > 0 && (res.Ok? ==> 1 <= res.value <= 3)
    requires v'.fmt == v.fmt == u.fmt && v'.root == v.root && (tree ==> PageUnmapped(v, v', va, res))
    ensures tree ==> Tree(v') && Shrunk(u, v')
    ensures covered ==> res.Ok? && IsAligned(res.value, va) && Size(res.value) <= size
    ensures res.Ok? && Size(res.value) <= size ==>
              var n := Size(res.value); UnmapLoop(u, v', r, tree, covered, x + n, (va + n) % TWO64, size - n)
  {
    hide Tree, Shrunk, UnmappedUpto, AllMapped, PageUnmapped, At, PageLevel, PageAt, PageWord, Candidate, Greedy,
         MapFn, SetLeaf, End, IsCut;
    if tree { ShrunkNext(u, v, v', va, res); }
    if covered {
      UnmappedCut(u, v, r, x);
      NextPage(u.fmt, r, x);
      UnmapTurn(u, v, v', r, x, res);
    }
  }

  lemma UnmapLoopEnd(u: View, v: View, r: Region, x: nat, va: nat)
    requires UnmapLoop(u, v, r, true, true, x, va, 0)
    ensures UnmappedUpto(u, v, r, Limit(r))
  {
    hide Shrunk, UnmappedUpto, AllMapped;
  }

  lemma MappableFlags(fmt: Format, r: Region)
    requires Mappable(fmt, r)
    ensures fmt.X86? ==> r.flags != {}
  {
  }
}
