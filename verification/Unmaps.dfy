/** What `unmap` does to a region however its pages lie: pages of other sizes than `map` would
    choose, pages missing, pages that stick out. */
module Unmaps {
  import opened Pte
  import opened Blocks
  import opened Tables
  import opened Regions
  import opened Steps
  import opened RegionMaps

  /** The positions of the region do not wrap. */
  ghost predicate Placed(r: Region) {
    r.start < TWO64 && Limit(r) <= TWO48
  }

  ghost predicate Inside(r: Region, b: Block)
    requires 1 <= b.level <= 5
  {
    Base(r) <= First(b) && End(b) <= Limit(r)
  }

  /** The page at position `x` lies inside the region. */
  ghost predicate Tile(u: View, r: Region, x: nat) {
    exists l | 1 <= l <= 3 :: BlockOf(l, x) in u.leaves && Inside(r, BlockOf(l, x))
  }

  /** It does not. */
  ghost predicate SticksOut(u: View, r: Region, x: nat) {
    exists l | 1 <= l <= 3 :: BlockOf(l, x) in u.leaves && !Inside(r, BlockOf(l, x))
  }

  /** There is none. */
  ghost predicate Bare(u: View, x: nat) {
    forall l | 1 <= l <= 3 :: BlockOf(l, x) !in u.leaves
  }

  ghost predicate TiledUpto(u: View, r: Region, x: nat) {
    forall y | Base(r) <= y < x :: Tile(u, r, y)
  }

  /** Pages of whatever size fill the region, and none sticks out. */
  ghost predicate Tiled(u: View, r: Region) {
    TiledUpto(u, r, Limit(r))
  }

  /** Nothing is mapped in the region any more, and elsewhere all is as before. */
  ghost predicate Cleared(u: View, v: View, r: Region) {
    forall va: nat ::
      Lookup(v.fmt, v.leaves, va)
      == if Base(r) <= va % TWO48 < Limit(r) then Err(NotMapped) else Lookup(u.fmt, u.leaves, va)
  }

  /** The outcome of `unmap` on any tree: at the first position where the pages do not fill the
      region it fails if there is no page, and panics if there is one that sticks out. */
  ghost predicate UnmapEnded(u: View, v: View, r: Region, res: UnmapOutcome) {
    match res
    case Unmapped => Tiled(u, r) && Cleared(u, v, r)
    case NotUnmapped(e) => e.NotMapped? && exists x | Base(r) <= x < Limit(r) :: TiledUpto(u, r, x) && Bare(u, x)
    case Panicked => exists x | Base(r) <= x < Limit(r) :: TiledUpto(u, r, x) && SticksOut(u, r, x)
  }

  /** Two pages that share a position are one. */
  lemma SamePage(u: View, x: nat, l: nat, m: nat)
    requires Tree(u) && 1 <= l <= 3 && 1 <= m <= 3 && BlockOf(l, x) in u.leaves && BlockOf(m, x) in u.leaves
    ensures l == m
  {
    hide Tree;
    if l < m { OneLeaf(u, x, l, m); } else if m < l { OneLeaf(u, x, m, l); }
  }

  /** A page sticks out, is missing or is a tile: one of the three. */
  lemma OneKind(u: View, r: Region, x: nat)
    requires Tree(u)
    ensures Bare(u, x) <==> !Tile(u, r, x) && !SticksOut(u, r, x)
    ensures !(Tile(u, r, x) && SticksOut(u, r, x))
  {
    hide Tree, Inside;
    if Tile(u, r, x) && SticksOut(u, r, x) {
      var l: nat :| 1 <= l <= 3 && BlockOf(l, x) in u.leaves && Inside(r, BlockOf(l, x));
      var m: nat :| 1 <= m <= 3 && BlockOf(m, x) in u.leaves && !Inside(r, BlockOf(m, x));
      SamePage(u, x, l, m);
    }
  }

  /** `unmap` succeeds exactly on the regions that pages fill. */
  lemma UnmapExact(u: View, v: View, r: Region, res: UnmapOutcome)
    requires Tree(u) && UnmapEnded(u, v, r, res)
    ensures res.Unmapped? <==> Tiled(u, r)
  {
    hide Tree, Tile, SticksOut, Bare, Cleared;
    if !res.Unmapped? {
      var x: nat :| Base(r) <= x < Limit(r) && (Bare(u, x) || SticksOut(u, r, x));
      OneKind(u, r, x);
    }
  }

  /** The 4 KiB page at 0 is all there is to unmap, and a 2 MiB page lies over it. */
  lemma LargerPagePanics(u: View, v: View, r: Region, res: UnmapOutcome)
    requires Tree(u) && r.start == 0 && r.size == 0x1000 && Block(2, 0) in u.leaves && UnmapEnded(u, v, r, res)
    ensures res.Panicked?
  {
    hide Tree, Cleared, Tile, SticksOut, Bare;
    var x: nat := 0;
    if res.NotUnmapped? { x :| Base(r) <= x < Limit(r) && TiledUpto(u, r, x) && Bare(u, x); }
    UnderLargePage(u, r, x);
    OneKind(u, r, x);
  }

  lemma UnderLargePage(u: View, r: Region, x: nat)
    requires r.start == 0 && r.size == 0x1000 && Block(2, 0) in u.leaves && x < 0x1000
    ensures SticksOut(u, r, x)
  {
    assert BlockOf(2, x) == Block(2, 0) && !Inside(r, Block(2, 0));
  }

  /** A page that `unmap` has taken away on its way to position `x`. */
  ghost predicate Taken(r: Region, x: nat, b: Block)
    requires 1 <= b.level <= 5
  {
    Base(r) <= First(b) < x
  }

  ghost predicate Peeled(u: View, v: View, r: Region, x: nat) {
    && TiledUpto(u, r, x)
    && forall b <- u.leaves ::
         1 <= b.level <= 3 && (b in v.leaves <==> !Taken(r, x, b)) && (Taken(r, x, b) ==> End(b) <= x)
  }

  /** The loop of `unmap`, whatever pages it finds. */
  ghost predicate Peeling(u: View, v: View, r: Region, x: nat, va: nat, size: nat) {
    && Tree(u) && Shrunk(u, v) && Peeled(u, v, r, x)
    && Base(r) <= x <= Limit(r) && size == Limit(r) - x && (size > 0 ==> va == At(r, x))
  }

  lemma PeelingStart(u: View, r: Region)
    requires Typed(u.h, u.roles) && Tree(u)
    ensures Peeling(u, u, r, Base(r), r.start, r.size)
  {
    hide Typed;
    ShrunkStart(u);
    hide Shrunk;
    StartAt(r);
  }

  lemma PeelTiles(u: View, r: Region, x: nat, l: nat)
    requires 1 <= l <= 3 && x < Limit(r) <= TWO48 && BlockOf(l, x) in u.leaves && Inside(r, BlockOf(l, x))
    requires First(BlockOf(l, x)) == x && TiledUpto(u, r, x)
    ensures TiledUpto(u, r, End(BlockOf(l, x)))
  {
    hide Inside, First, End, BlockOf;
    var b := BlockOf(l, x);
    BlockLevel(l, x);
    InsideEnds(r, b);
    forall y: nat | x <= y < End(b) ensures Tile(u, r, y) {
      SmallMod(y);
      InBlock(b, y);
      assert BlockOf(l, y) in u.leaves && Inside(r, BlockOf(l, y));
    }
  }

  lemma InsideEnds(r: Region, b: Block)
    requires 1 <= b.level <= 5 && Inside(r, b)
    ensures Base(r) <= First(b) && End(b) <= Limit(r)
  {
  }

  lemma BlockLevel(l: nat, x: nat)
    requires 1 <= l <= 5
    ensures BlockOf(l, x).level == l
  {
  }

  lemma SmallMod(y: nat)
    requires y < TWO48
    ensures y % TWO48 == y
  {
  }

  /** A page that starts within another page is that page. */
  lemma StartsWithin(u: View, b: Block, c: Block)
    requires Tree(u) && b in u.leaves && c in u.leaves && 1 <= b.level <= 3 && 1 <= c.level <= 3
    requires First(b) <= First(c) < End(b) <= TWO48
    ensures c == b
  {
    hide Tree, BlockOf;
    var y := First(c);
    SmallMod(y);
    SizePositive(c.level);
    InBlock(b, y);
    InBlock(c, y);
    SamePage(u, y, b.level, c.level);
  }

  lemma PeelNext(u: View, v: View, v': View, r: Region, x: nat, l: nat)
    requires Tree(u) && Peeled(u, v, r, x) && Base(r) <= x < Limit(r) <= TWO48 && 1 <= l <= 3
    requires var b := BlockOf(l, x); b in u.leaves && First(b) == x && End(b) <= Limit(r) && v'.leaves == v.leaves - {b}
    ensures Peeled(u, v', r, x + Size(l))
  {
    hide Tree, TiledUpto, BlockOf, First, End, Size;
    var b := BlockOf(l, x);
    BlockLevel(l, x);
    SizePositive(l);
    AlignedEnd(l, x);
    PeelTiles(u, r, x, l);
    forall c <- u.leaves
      ensures c in v'.leaves <==> !Taken(r, x + Size(l), c)
      ensures Taken(r, x + Size(l), c) ==> End(c) <= x + Size(l)
    {
      if First(b) <= First(c) < End(b) { StartsWithin(u, b, c); }
    }
  }

  /** Where `unmap_page` finds nothing there was nothing. */
  lemma PeelBare(u: View, v: View, r: Region, x: nat)
    requires Peeled(u, v, r, x) && Base(r) <= x < TWO48 && Bare(v, x)
    ensures Bare(u, x)
  {
    hide TiledUpto, BlockOf;
    SmallMod(x);
    forall l | 1 <= l <= 3 ensures BlockOf(l, x) !in u.leaves {
      BlockLevel(l, x);
      InBlock(BlockOf(l, x), x);
    }
  }

  /** A page still there that does not start at `x`, or is too long, sticks out. */
  lemma PeelOut(u: View, v: View, r: Region, x: nat, l: nat)
    requires Peeled(u, v, r, x) && Base(r) <= x < Limit(r) <= TWO48 && 1 <= l <= 3
    requires BlockOf(l, x) in v.leaves && BlockOf(l, x) in u.leaves
    requires First(BlockOf(l, x)) != x || Size(l) > Limit(r) - x
    ensures SticksOut(u, r, x)
  {
    hide TiledUpto;
    var b := BlockOf(l, x);
    SmallMod(x);
    InBlock(b, x);
    assert !Inside(r, b);
  }

  lemma FirstIsAligned(r: Region, x: nat, l: nat)
    requires 1 <= l <= 3 && x < TWO48 && 0 <= At(r, x)
    ensures First(BlockOf(l, x)) == x <==> IsAligned(l, At(r, x))
  {
    hide At;
    AlignedAt(r, x, l);
    SmallMod(x);
  }

  /** One turn of that loop. */
  lemma PeelTurn(u: View, v: View, v': View, r: Region, x: nat, va: nat, size: nat, res: Result<nat>)
    requires Placed(r) && Peeling(u, v, r, x, va, size) && size > 0
    requires v'.fmt == v.fmt && v'.root == v.root && PageUnmapped(v, v', va, res)
    ensures match res
            case Err(e) => UnmapEnded(u, v', r, NotUnmapped(e))
            case Ok(l) =>
              if !IsAligned(l, va) || Size(l) > size then UnmapEnded(u, v', r, Panicked)
              else Peeling(u, v', r, x + Size(l), (va + Size(l)) % TWO64, size - Size(l))
  {
    hide Tree, OthersKept, BlockOf, At, First, End, Size, IsAligned, Peeled, TiledUpto, Bare, SticksOut;
    PeelStarts(u, v, r, x);
    AtNext(r, x, 0);
    PageUnmappedAt(v, v', r, x, res);
    ShrunkNext(u, v, v', va, res);
    match res
    case Err(e) =>
      assert Bare(v, x) by { NothingThere(v, v', x, e); }
      PeelBare(u, v, r, x);
    case Ok(l) =>
      FirstIsAligned(r, x, l);
      if !IsAligned(l, va) || Size(l) > size {
        PeelOut(u, v, r, x, l);
      } else {
        AlignedEnd(l, x);
        PeelNext(u, v, v', r, x, l);
        AtNext(r, x, Size(l));
      }
  }

  lemma PeelStarts(u: View, v: View, r: Region, x: nat)
    requires Peeled(u, v, r, x)
    ensures TiledUpto(u, r, x)
  {
  }

  lemma NothingThere(v: View, v': View, x: nat, e: PagingError)
    requires PageUnmapped(v, v', x, Err(e))
    ensures Bare(v, x)
  {
  }

  lemma AlignedEnd(l: nat, x: nat)
    requires 1 <= l <= 3 && First(BlockOf(l, x)) == x
    ensures End(BlockOf(l, x)) == x + Size(l)
  {
  }

  /** The loop has come to the end of the region. */
  lemma PeelingEnd(u: View, v: View, r: Region, x: nat, va: nat)
    requires Placed(r) && Peeling(u, v, r, x, va, 0)
    ensures UnmapEnded(u, v, r, Unmapped)
  {
    hide Tree, OthersKept, Taken, BlockOf, At;
    forall va: nat
      ensures Lookup(v.fmt, v.leaves, va)
              == if Base(r) <= va % TWO48 < Limit(r) then Err(NotMapped) else Lookup(u.fmt, u.leaves, va)
    {
      forall l | 1 <= l <= 3
        ensures BlockOf(l, va) in v.leaves <==>
                  BlockOf(l, va) in u.leaves && !(Base(r) <= va % TWO48 < Limit(r))
      {
        PeeledAt(u, v, r, va, l);
      }
    }
  }

  lemma PeeledAt(u: View, v: View, r: Region, va: nat, l: nat)
    requires Tree(u) && Shrunk(u, v) && Peeled(u, v, r, Limit(r)) && Limit(r) <= TWO48 && 1 <= l <= 3
    ensures BlockOf(l, va) in v.leaves <==> BlockOf(l, va) in u.leaves && !(Base(r) <= va % TWO48 < Limit(r))
  {
    hide Tree, OthersKept, BlockOf;
    var x, b := va % TWO48, BlockOf(l, va);
    SmallMod(x);
    BlockLevel(l, va);
    InBlock(b, va);
    InBlock(b, x);
    if b in u.leaves && Base(r) <= x < Limit(r) {
      assert Tile(u, r, x);
      var m: nat :| 1 <= m <= 3 && BlockOf(m, x) in u.leaves && Inside(r, BlockOf(m, x));
      SamePage(u, x, l, m);
    }
  }
}
