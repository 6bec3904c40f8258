/** Sets of regions: overlap, the neighbour test, and the leaves a set of regions asks for. */
module RegionSets {
  import opened Pte
  import opened Blocks
  import opened Tables
  import opened Regions
  import opened Steps
  import opened RegionMaps

  // ---- Overlap ---------------------------------------------------------------------

  ghost predicate Overlap(a: Region, b: Region) {
    a.start < b.start + b.size && b.start < a.start + a.size
  }

  /** `is_overlap_with`, whose two additions wrap at 2^64. */
  predicate IsOverlapWith(a: Region, b: Region) {
    var p0, p1 := a.start, (a.start + a.size) % TWO64;
    var p2, p3 := b.start, (b.start + b.size) % TWO64;
    !(p1 <= p2 || p0 >= p3)
  }

  /** The test is right about regions that fit the address space, except that it never
      sees an overlap with a region that ends at 2^64. */
  lemma OverlapExact(a: Region, b: Region)
    requires a.start + a.size <= TWO64 && b.start + b.size <= TWO64
    ensures IsOverlapWith(a, b) <==> Overlap(a, b) && a.start + a.size < TWO64 && b.start + b.size < TWO64
  {
  }

  /** So an insert above such a region would be let through. */
  lemma OverlapMissedAtTop()
    ensures var top := Region(TWO64 - 0x2000, 0x2000, {READ}, Offset(0));
            Overlap(top, top) && !IsOverlapWith(top, top)
  {
  }

  // ---- The two address spaces ---------------------------------------------------------

  /** Addresses told apart by their low 48 bits: canonical virtual addresses of a host
      table, or guest-physical addresses below 2^48. */
  datatype Window = Canonical | Low

  predicate InWindow(w: Window, va: nat) {
    if w.Low? then va < TWO48 else va < TWO47 || TWO64 - TWO47 <= va < TWO64
  }

  /** The whole region lies in one part of the window and does not end at 2^64. */
  predicate RegionIn(w: Window, r: Region) {
    if w.Low? then r.start + r.size <= TWO48
    else r.start + r.size <= TWO47 || (TWO64 - TWO47 <= r.start && r.start + r.size < TWO64)
  }

  ghost predicate Usable(fmt: Format, w: Window, r: Region) {
    r.size > 0 ==> Mappable(fmt, r) && RegionIn(w, r)
  }

  /** In a window, a region holds the addresses at its positions, and no others. */
  lemma WindowPosition(w: Window, r: Region, va: nat)
    requires RegionIn(w, r) && r.size > 0 && InWindow(w, va)
    ensures Contains(r, va) <==> Base(r) <= va % TWO48 < Limit(r)
  {
    hide Base;
    RegionBase(w, r);
    LowBits(w, va);
  }

  /** The low 48 bits of an address of the window: the address, less the gap if it is above. */
  lemma LowBits(w: Window, va: nat)
    requires InWindow(w, va)
    ensures va % TWO48 == if w.Canonical? && va >= TWO47 then va - (TWO64 - TWO48) else va
  {
    if w.Canonical? && va >= TWO47 {
      DivUnique(TWO48, 0xffff, va - (TWO64 - TWO48));
    } else {
      LowAddress(va);
    }
  }

  lemma RegionBase(w: Window, r: Region)
    requires RegionIn(w, r) && r.size > 0
    ensures InWindow(w, r.start)
    ensures Base(r) == if w.Canonical? && r.start >= TWO47 then r.start - (TWO64 - TWO48) else r.start
  {
    LowBits(w, r.start);
  }

  lemma WindowOverlap(w: Window, a: Region, b: Region)
    requires RegionIn(w, a) && RegionIn(w, b) && a.size > 0 && b.size > 0
    ensures Overlap(a, b) <==> Base(a) < Limit(b) && Base(b) < Limit(a)
  {
    hide Base;
    RegionBase(w, a);
    RegionBase(w, b);
  }

  // ---- The ordered map of regions -------------------------------------------------------

  type RegionMap = map<nat, Region>

  ghost predicate Disjoint(fmt: Format, w: Window, regions: RegionMap) {
    && (forall s <- regions :: regions[s].start == s && regions[s].size > 0 && Usable(fmt, w, regions[s]))
    && (forall s <- regions, t <- regions | s != t :: !Overlap(regions[s], regions[t]))
  }

  predicate IsMax(ks: set<nat>, m: nat) {
    m in ks && forall k <- ks :: k <= m
  }

  predicate IsMin(ks: set<nat>, m: nat) {
    m in ks && forall k <- ks :: m <= k
  }

  lemma MaxAdd(ks: set<nat>, a: nat, m: nat)
    requires a in ks && IsMax(ks - {a}, m)
    ensures IsMax(ks, if m < a then a else m)
  {
    assert forall k <- ks :: k == a || k in ks - {a};
  }

  lemma MinAdd(ks: set<nat>, a: nat, m: nat)
    requires a in ks && IsMin(ks - {a}, m)
    ensures IsMin(ks, if a < m then a else m)
  {
    assert forall k <- ks :: k == a || k in ks - {a};
  }

  lemma {:induction false} MaxExists(ks: set<nat>)
    requires ks != {}
    ensures exists m :: IsMax(ks, m)
  {
    var a :| a in ks;
    if ks - {a} == {} {
      assert forall k <- ks :: k == a || k in ks - {a};
      assert IsMax(ks, a);
    } else {
      hide IsMax;
      MaxExists(ks - {a});
      var m :| IsMax(ks - {a}, m);
      MaxAdd(ks, a, m);
    }
  }

  lemma {:induction false} MinExists(ks: set<nat>)
    requires ks != {}
    ensures exists m :: IsMin(ks, m)
  {
    var a :| a in ks;
    if ks - {a} == {} {
      assert forall k <- ks :: k == a || k in ks - {a};
      assert IsMin(ks, a);
    } else {
      hide IsMin;
      MinExists(ks - {a});
      var m :| IsMin(ks - {a}, m);
      MinAdd(ks, a, m);
    }
  }

  function MaxOf(ks: set<nat>): (m: nat)
    requires ks != {}
    ensures m in ks && forall k <- ks :: k <= m
  {
    MaxExists(ks);
    var m :| IsMax(ks, m);
    m
  }

  function MinOf(ks: set<nat>): (m: nat)
    requires ks != {}
    ensures m in ks && forall k <- ks :: m <= k
  {
    MinExists(ks);
    var m :| IsMin(ks, m);
    m
  }

  /** `test_free_area`: only the last region that starts before the new one and the first
      one that does not are compared with it. */
  predicate TestFreeArea(regions: RegionMap, r: Region) {
    var before, from := set s | s in regions && s < r.start, set s | s in regions && s >= r.start;
    && (before != {} ==> !IsOverlapWith(regions[MaxOf(before)], r))
    && (from != {} ==> !IsOverlapWith(regions[MinOf(from)], r))
  }

  /** Looking at the two neighbours is as good as looking at every region. */
  lemma NeighboursDecide(fmt: Format, w: Window, regions: RegionMap, r: Region)
    requires Disjoint(fmt, w, regions) && r.size > 0 && Usable(fmt, w, r)
    ensures TestFreeArea(regions, r) <==> forall s <- regions :: !Overlap(regions[s], r)
  {
    hide Usable, Overlap, IsOverlapWith;
    var before, from := set s | s in regions && s < r.start, set s | s in regions && s >= r.start;
    forall s <- regions ensures IsOverlapWith(regions[s], r) <==> Overlap(regions[s], r) {
      FitsSpace(fmt, w, regions[s]);
      FitsSpace(fmt, w, r);
      OverlapExact(regions[s], r);
    }
    if TestFreeArea(regions, r) {
      forall s <- regions ensures !Overlap(regions[s], r) {
        if s < r.start {
          assert s in before;
          FarBefore(regions[s], regions[MaxOf(before)], r);
        } else {
          assert s in from;
          FarAfter(regions[s], regions[MinOf(from)], r);
        }
      }
    }
  }

  lemma FitsSpace(fmt: Format, w: Window, r: Region)
    requires Usable(fmt, w, r) && r.size > 0
    ensures r.start + r.size < TWO64
  {
  }

  lemma FarBefore(a: Region, b: Region, r: Region)
    requires a.start <= b.start < r.start && (a == b || !Overlap(a, b)) && !Overlap(b, r) && b.size > 0 && r.size > 0
    ensures !Overlap(a, r)
  {
  }

  lemma FarAfter(a: Region, b: Region, r: Region)
    requires r.start <= b.start <= a.start && (a == b || !Overlap(a, b)) && !Overlap(b, r) && b.size > 0
    ensures !Overlap(a, r)
  {
  }

  // ---- The leaves of a set ----------------------------------------------------------------

  ghost predicate Claimed(regions: RegionMap, b: Block) {
    exists s <- regions :: Chosen(regions[s], b)
  }

  /** The entry the region asks for at a page of it. */
  ghost function Wanted(fmt: Format, r: Region, b: Block): Word {
    if Mappable(fmt, r) && Chosen(r, b) then PageWord(fmt, r, b) else ZERO
  }

  /** The leaves hold the pages of the regions, perhaps among others. */
  ghost predicate Covers(fmt: Format, regions: RegionMap, leaves: LeafMap) {
    forall s <- regions, b: Block | Chosen(regions[s], b) ::
      b in leaves && leaves[b] == Wanted(fmt, regions[s], b)
  }

  /** And nothing else. */
  ghost predicate Agree(fmt: Format, regions: RegionMap, leaves: LeafMap) {
    Covers(fmt, regions, leaves) && forall b <- leaves :: Claimed(regions, b)
  }

  /** Regions that do not overlap choose no common page, nor nested ones. */
  lemma ChosenApart(w: Window, a: Region, b: Region, c: Block, d: Block)
    requires RegionIn(w, a) && RegionIn(w, b) && a.size > 0 && b.size > 0 && !Overlap(a, b)
    requires Chosen(a, c) && Chosen(b, d)
    ensures End(c) <= First(d) || End(d) <= First(c)
  {
    WindowOverlap(w, a, b);
  }

  /** Every address of the window is answered by the region that holds it, if there is one. */
  lemma AgreeMeaning(v: View, w: Window, regions: RegionMap, va: nat)
    requires Tree(v) && Disjoint(v.fmt, w, regions) && Agree(v.fmt, regions, v.leaves) && InWindow(w, va)
    ensures (forall s <- regions :: !Contains(regions[s], va)) ==> Lookup(v.fmt, v.leaves, va) == Err(NotMapped)
    ensures forall s <- regions | Contains(regions[s], va) ::
              Lookup(v.fmt, v.leaves, va) == Ok(Target(v.fmt, regions[s], va))
  {
    hide Tree, Chosen, Target, Translate, PageAt, BlockOf, Disjoint;
    forall s <- regions | Contains(regions[s], va)
      ensures Lookup(v.fmt, v.leaves, va) == Ok(Target(v.fmt, regions[s], va))
    {
      DisjointUsable(v.fmt, w, regions, s);
      HeldBy(v, w, regions, s, va);
    }
    if forall s <- regions :: !Contains(regions[s], va) {
      forall l | 1 <= l <= 3 ensures BlockOf(l, va) !in v.leaves {
        if BlockOf(l, va) in v.leaves {
          var s :| s in regions && Chosen(regions[s], BlockOf(l, va));
          DisjointUsable(v.fmt, w, regions, s);
          ChosenHolds(w, regions[s], l, va);
        }
      }
    }
  }

  lemma DisjointUsable(fmt: Format, w: Window, regions: RegionMap, s: nat)
    requires Disjoint(fmt, w, regions) && s in regions
    ensures var r := regions[s]; r.start == s && r.size > 0 && Mappable(fmt, r) && RegionIn(w, r)
  {
  }

  lemma ChosenHolds(w: Window, r: Region, l: nat, va: nat)
    requires RegionIn(w, r) && r.size > 0 && InWindow(w, va) && 1 <= l <= 3 && Chosen(r, BlockOf(l, va))
    ensures Contains(r, va)
  {
    InBlock(BlockOf(l, va), va);
    WindowPosition(w, r, va);
  }

  lemma HeldBy(v: View, w: Window, regions: RegionMap, s: nat, va: nat)
    requires Tree(v) && Disjoint(v.fmt, w, regions) && Covers(v.fmt, regions, v.leaves) && s in regions
    requires Mappable(v.fmt, regions[s]) && Contains(regions[s], va)
    ensures Lookup(v.fmt, v.leaves, va) == Ok(Target(v.fmt, regions[s], va))
  {
    hide Tree, Chosen, Target, Translate, PageAt, BlockOf, Disjoint, LeavesUpto, Lookup, Wanted;
    var r := regions[s];
    var b := PageAt(r, va % TWO48);
    PageAtBlock(r, va);
    LeafTarget(v.fmt, r, va);
    ChosenLeaf(v.fmt, r, b);
    assert b in v.leaves && v.leaves[b] == Wanted(v.fmt, r, b);
    LookupOf(v, va, b.level);
  }

  // ---- How inserting and deleting a region changes the leaves ----------------------------

  lemma AgreeEmpty(fmt: Format, w: Window)
    ensures Disjoint(fmt, w, map[]) && Agree(fmt, map[], map[])
  {
  }

  lemma DisjointAdd(fmt: Format, w: Window, regions: RegionMap, r: Region)
    requires Disjoint(fmt, w, regions) && r.size > 0 && Usable(fmt, w, r)
    requires forall s <- regions :: !Overlap(regions[s], r)
    ensures r.start !in regions && Disjoint(fmt, w, regions[r.start := r])
  {
    assert r.start in regions ==> Overlap(regions[r.start], r);
    assert forall s <- regions :: Overlap(r, regions[s]) <==> Overlap(regions[s], r);
    hide Overlap, Usable;
  }

  lemma DisjointDrop(fmt: Format, w: Window, regions: RegionMap, s: nat)
    requires Disjoint(fmt, w, regions)
    ensures Disjoint(fmt, w, regions - {s})
  {
  }

  /** Pages of a region that overlaps none of the set disturb nothing. */
  lemma CoversMore(fmt: Format, w: Window, regions: RegionMap, leaves: LeafMap, r: Region, x: nat)
    requires Disjoint(fmt, w, regions) && Covers(fmt, regions, leaves)
    requires r.size > 0 && Mappable(fmt, r) && RegionIn(w, r) && forall s <- regions :: !Overlap(regions[s], r)
    ensures Covers(fmt, regions, leaves + LeavesUpto(fmt, r, x))
  {
    hide Chosen, LeavesUpto, Usable, Wanted, Mappable, RegionIn, Overlap, Disjoint;
    forall s <- regions, b: Block | Chosen(regions[s], b)
      ensures b !in LeavesUpto(fmt, r, x)
    {
      LeavesUptoAt(fmt, r, x, b);
      DisjointUsable(fmt, w, regions, s);
      NotBoth(w, regions[s], r, b);
    }
  }

  /** Regions that do not overlap never choose the same page. */
  lemma NotBoth(w: Window, a: Region, b: Region, c: Block)
    requires RegionIn(w, a) && RegionIn(w, b) && a.size > 0 && b.size > 0 && !Overlap(a, b) && Chosen(a, c)
    ensures !Chosen(b, c)
  {
    hide Chosen, RegionIn, Overlap, First, End;
    ChosenLevel(a, c);
    NonEmptyBlock(c);
    if Chosen(b, c) { ChosenApart(w, a, b, c, c); }
  }

  lemma CoversAdd(fmt: Format, regions: RegionMap, leaves: LeafMap, r: Region)
    requires Mappable(fmt, r) && Covers(fmt, regions, leaves + RegionLeaves(fmt, r))
    ensures Covers(fmt, regions[r.start := r], leaves + RegionLeaves(fmt, r))
  {
    hide Chosen, LeavesUpto, Wanted, Mappable;
    forall b: Block | Chosen(r, b)
      ensures b in RegionLeaves(fmt, r) && RegionLeaves(fmt, r)[b] == Wanted(fmt, r, b)
    {
      ChosenLeaf(fmt, r, b);
    }
  }

  lemma AgreeAdd(fmt: Format, regions: RegionMap, leaves: LeafMap, r: Region)
    requires Mappable(fmt, r) && Agree(fmt, regions, leaves) && r.start !in regions
    requires Covers(fmt, regions[r.start := r], leaves + RegionLeaves(fmt, r))
    ensures Agree(fmt, regions[r.start := r], leaves + RegionLeaves(fmt, r))
  {
    hide Chosen, LeavesUpto, Wanted, Mappable, Covers;
    var regions' := regions[r.start := r];
    assert forall s <- regions :: s in regions' && regions'[s] == regions[s];
    assert r.start in regions' && regions'[r.start] == r;
    forall b <- leaves + RegionLeaves(fmt, r) ensures Claimed(regions', b) {
      ChosenLeaf(fmt, r, b);
      if b in leaves {
        var s :| s in regions && Chosen(regions[s], b);
        assert s in regions' && Chosen(regions'[s], b);
      }
    }
  }

  lemma ChosenLeaf(fmt: Format, r: Region, b: Block)
    requires Mappable(fmt, r)
    ensures Chosen(r, b) <==> b in RegionLeaves(fmt, r)
    ensures Chosen(r, b) ==> RegionLeaves(fmt, r)[b] == Wanted(fmt, r, b)
  {
    LeavesUptoAt(fmt, r, Limit(r), b);
  }

  /** Two regions of a set never claim the same page. */
  lemma OnePage(fmt: Format, w: Window, regions: RegionMap, s: nat, t: nat, b: Block)
    requires Disjoint(fmt, w, regions) && s in regions && t in regions && Chosen(regions[s], b) && Chosen(regions[t], b)
    ensures s == t
  {
    if s != t {
      DisjointUsable(fmt, w, regions, s);
      DisjointUsable(fmt, w, regions, t);
      ChosenApart(w, regions[s], regions[t], b, b);
    }
  }

  lemma CoversDrop(fmt: Format, w: Window, regions: RegionMap, leaves: LeafMap, s: nat)
    requires Disjoint(fmt, w, regions) && Covers(fmt, regions, leaves) && s in regions && Mappable(fmt, regions[s])
    ensures Covers(fmt, regions - {s}, leaves - RegionLeaves(fmt, regions[s]).Keys)
  {
    hide Chosen, LeavesUpto, Usable, Wanted, Mappable, Disjoint;
    forall t <- regions, b: Block | t != s && Chosen(regions[t], b)
      ensures b !in RegionLeaves(fmt, regions[s])
    {
      ChosenLeaf(fmt, regions[s], b);
      if Chosen(regions[s], b) { OnePage(fmt, w, regions, s, t, b); }
    }
  }

  /** Pages that no recorded region asks for; a `map` that fails part-way leaves some. */
  ghost function Strays(regions: RegionMap, leaves: LeafMap): LeafMap {
    map b <- leaves | !Claimed(regions, b) :: leaves[b]
  }

  lemma AgreeIsNoStrays(fmt: Format, regions: RegionMap, leaves: LeafMap)
    ensures Agree(fmt, regions, leaves) <==> Covers(fmt, regions, leaves) && Strays(regions, leaves) == map[]
  {
    hide Claimed, Covers;
    if Strays(regions, leaves) == map[] {
      forall b <- leaves ensures Claimed(regions, b) {
        assert b !in Strays(regions, leaves);
      }
    }
  }

  lemma StraysDrop(fmt: Format, regions: RegionMap, leaves: LeafMap, s: nat)
    requires s in regions && Mappable(fmt, regions[s])
    ensures Strays(regions - {s}, leaves - RegionLeaves(fmt, regions[s]).Keys) == Strays(regions, leaves)
  {
    hide Chosen, LeavesUpto, Mappable;
    forall b: Block ensures Claimed(regions, b) <==> Claimed(regions - {s}, b) || b in RegionLeaves(fmt, regions[s]) {
      ChosenLeaf(fmt, regions[s], b);
      if Claimed(regions, b) {
        var t :| t in regions && Chosen(regions[t], b);
        assert t == s || t in regions - {s};
      }
    }
  }

  // ---- Why a region that overlaps none can still fail to map -----------------------------

  ghost predicate HasPage(leaves: LeafMap, c: Block)
    requires 1 <= c.level <= 5
  {
    exists b <- leaves :: 1 <= b.level <= 3 && First(c) <= First(b) && End(b) <= End(c)
  }

  /** No table is left without a page below it; `unmap` breaks this, `map` keeps it. */
  ghost predicate NoEmptyTables(v: View) {
    forall c <- v.tables | c != WHOLE :: 1 <= c.level <= 4 && HasPage(v.leaves, c)
  }

  /** The region needs one page where an earlier `unmap` has left a table. */
  ghost predicate Leftover(v: View, r: Region) {
    exists b: Block :: Chosen(r, b) && b in v.tables
  }

  /** With no overlap, only a table can be in the way of a page. */
  lemma OnlyTablesBlock(v: View, w: Window, regions: RegionMap, r: Region, x: nat)
    requires Disjoint(v.fmt, w, regions) && Agree(v.fmt, regions, v.leaves)
    requires Mappable(v.fmt, r) && RegionIn(w, r) && r.size > 0 && forall s <- regions :: !Overlap(regions[s], r)
    requires Base(r) <= x < Limit(r) && Blocked(v, x, PageLevel(r, x))
    ensures PageAt(r, x) in v.tables && PageAt(r, x) !in v.leaves
  {
    hide Chosen, Disjoint, Overlap, PageLevel, Candidate;
    forall l | 1 <= l <= 3 ensures BlockOf(l, x) !in v.leaves {
      if BlockOf(l, x) in v.leaves {
        var s :| s in regions && Chosen(regions[s], BlockOf(l, x));
        DisjointUsable(v.fmt, w, regions, s);
        ChosenSpans(regions[s], l, x);
        WindowOverlap(w, regions[s], r);
      }
    }
  }

  lemma ChosenSpans(r: Region, l: nat, x: nat)
    requires 1 <= l <= 3 && x < TWO48 && Chosen(r, BlockOf(l, x))
    ensures Base(r) <= x < Limit(r)
  {
    HoldsPosition(l, x);
  }

  /** Where every table has a page below it, nothing is left over for a free region. */
  lemma ChosenNotTable(v: View, w: Window, regions: RegionMap, r: Region, b: Block)
    requires Disjoint(v.fmt, w, regions) && Agree(v.fmt, regions, v.leaves) && NoEmptyTables(v)
    requires RegionIn(w, r) && r.size > 0 && forall s <- regions :: !Overlap(regions[s], r)
    requires Chosen(r, b)
    ensures b !in v.tables
  {
    hide Chosen, Disjoint, Overlap, First, End, RegionIn;
    ChosenLevel(r, b);
    if b in v.tables {
      var d :| d in v.leaves && 1 <= d.level <= 3 && First(b) <= First(d) && End(d) <= End(b);
      assert Claimed(regions, d);
      hide Agree, NoEmptyTables;
      var s :| s in regions && Chosen(regions[s], d);
      DisjointUsable(v.fmt, w, regions, s);
      ChosenApart(w, regions[s], r, d, b);
      NonEmptyBlock(d);
    }
  }

  lemma NothingLeftOver(v: View, w: Window, regions: RegionMap, r: Region)
    requires Disjoint(v.fmt, w, regions) && Agree(v.fmt, regions, v.leaves) && NoEmptyTables(v)
    requires RegionIn(w, r) && r.size > 0 && forall s <- regions :: !Overlap(regions[s], r)
    ensures !Leftover(v, r)
  {
    hide Chosen, Disjoint, Overlap, RegionIn, Agree, NoEmptyTables;
    forall b: Block | Chosen(r, b) ensures b !in v.tables {
      ChosenNotTable(v, w, regions, r, b);
    }
  }

  lemma ChosenLevel(r: Region, b: Block)
    requires Chosen(r, b)
    ensures 1 <= b.level <= 3
  {
  }

  lemma NonEmptyBlock(b: Block)
    requires 1 <= b.level <= 5
    ensures First(b) < End(b)
  {
  }

  /** A table gained by mapping a region has a page of the region below it. */
  lemma NewTableHasPage(u: View, v: View, r: Region, c: Block)
    requires Mappable(u.fmt, r) && MappedUpto(u, v, r, Limit(r)) && Gained(u, v, r, Limit(r))
    requires c in v.tables && c !in u.tables
    ensures 2 <= c.level <= 4 && HasPage(v.leaves, c)
  {
    var y: nat :| Base(r) <= y < Limit(r) && c == BlockOf(c.level, y);
    hide Tree, OthersKept, Gained, LeavesUpto, NoneBlocked, Chosen, PageLevel;
    var b := PageAt(r, y);
    PageAtChosen(r, y);
    ChosenLevel(r, b);
    MappedIsAllMapped(u, v, r);
    assert b in v.leaves;
    if b.level >= c.level {
      LeafNotAbove(v, y, b.level, c.level);
    }
    SameAbove(b, y, c.level);
    BlockInside(b, c);
  }

  lemma LeafNotAbove(v: View, x: nat, leaf: nat, table: nat)
    requires Tree(v) && 1 <= table <= leaf <= 3 && BlockOf(leaf, x) in v.leaves
    ensures BlockOf(table, x) !in v.tables
  {
    assert SlotOk(v, BlockOf(leaf, x));
    if table < leaf { NothingBelow(v, leaf, table, x); }
  }

  lemma {:induction false} BlockInside(b: Block, c: Block)
    requires 1 <= b.level <= c.level <= 5 && c == BlockOf(c.level, First(b)) && End(b) <= TWO48
    ensures First(c) <= First(b) && End(b) <= End(c)
    decreases c.level - b.level
  {
    if b.level == c.level {
      InBlock(b, First(b));
    } else {
      var m := BlockOf(c.level - 1, First(b));
      HoldsPosition(c.level - 1, First(b));
      BlockInside(b, m);
      ParentOf(c.level - 1, First(b));
      Nested(m);
    }
  }

  lemma NoEmptyTablesKept(u: View, v: View, r: Region)
    requires Mappable(u.fmt, r) && MappedUpto(u, v, r, Limit(r)) && Gained(u, v, r, Limit(r)) && NoEmptyTables(u)
    ensures NoEmptyTables(v)
  {
    hide Tree, Gained, LeavesUpto, NoneBlocked, IsCut;
    forall c <- v.tables | c != WHOLE ensures 1 <= c.level <= 4 && HasPage(v.leaves, c) {
      if c in u.tables {
        var b :| b in u.leaves && 1 <= b.level <= 3 && First(c) <= First(b) && End(b) <= End(c);
        assert b in v.leaves;
      } else {
        NewTableHasPage(u, v, r, c);
      }
    }
  }
}
