/** Whole runs of `insert`, `delete` and `clear`. */
module SetRuns {
  import opened Pte
  import opened Blocks
  import opened Tables
  import opened Regions
  import opened Steps
  import opened RegionMaps
  import opened RegionSets
  import opened MemorySets

  datatype SetOp = Insert(r: Region) | Delete(start: nat) | Clear

  ghost predicate Allowed(m: MemorySet, op: SetOp)
    reads m, m.pt
  {
    op.Insert? ==> Usable(m.pt.fmt, m.window, op.r)
  }

  datatype OpResult = InsertDone(res: InsertResult) | DeleteDone(found: bool) | ClearDone(panicked: bool)

  const RAN_OUT := InsertDone(MapFailed(NoMemory))

  ghost predicate MapFails(res: OpResult) {
    res.InsertDone? && res.res.MapFailed?
  }

  /** What an operation means for the recorded regions, tables aside. */
  ghost function After(regions: RegionMap, op: SetOp, res: OpResult): RegionMap {
    match op
    case Insert(r) =>
      if r.size == 0 || MapFails(res) || exists s <- regions :: Overlap(regions[s], r) then regions
      else regions[r.start := r]
    case Delete(start) => regions - {start}
    case Clear => map[]
  }

  /** And what it must answer. */
  ghost predicate Answers(regions: RegionMap, op: SetOp, res: OpResult) {
    match op
    case Insert(r) =>
      && res.InsertDone?
      && (res.res.Overlapped? <==> r.size > 0 && exists s <- regions :: Overlap(regions[s], r))
      && (r.size == 0 ==> res.res.Inserted?)
    case Delete(start) => res == DeleteDone(start in regions)
    case Clear => res == ClearDone(false)
  }

  /** The regions after the first `n` operations. */
  ghost function AfterAll(regions: RegionMap, script: seq<SetOp>, results: seq<OpResult>, n: nat): RegionMap
    requires n <= |script| && n <= |results|
    decreases n
  {
    if n == 0 then regions
    else After(AfterAll(regions, script, results, n - 1), script[n - 1], results[n - 1])
  }

  lemma {:induction false} AfterAllPrefix(
    regions: RegionMap, script: seq<SetOp>, results: seq<OpResult>, more: seq<OpResult>, n: nat)
    requires n <= |script| && n <= |results|
    ensures AfterAll(regions, script, results + more, n) == AfterAll(regions, script, results, n)
    decreases n
  {
    if n > 0 { AfterAllPrefix(regions, script, results, more, n - 1); }
  }

  /** The first `n` results are right for the regions recorded at their time. */
  ghost predicate AllAnswered(regions: RegionMap, script: seq<SetOp>, results: seq<OpResult>)
    requires |results| <= |script|
  {
    forall k | 0 <= k < |results| :: Answers(AfterAll(regions, script, results, k), script[k], results[k])
  }

  ghost predicate NoMapFails(results: seq<OpResult>) {
    forall k | 0 <= k < |results| :: !MapFails(results[k])
  }

  ghost predicate OnlyInserts(script: seq<SetOp>) {
    forall k | 0 <= k < |script| :: script[k].Insert?
  }

  /** The first `map` to fail fails for lack of memory. */
  ghost predicate FirstFailureIsMemory(results: seq<OpResult>) {
    forall k | 0 <= k < |results| && MapFails(results[k]) && NoMapFails(results[..k]) :: results[k].res.error.NoMemory?
  }

  /** One operation. */
  method Do(m: MemorySet, op: SetOp) returns (res: OpResult)
    requires m.Keeps() && Allowed(m, op)
    modifies m, m.pt, m.pt.mem, m.pt.mem.frames
    ensures m.Keeps() && Answers(old(m.regions), op, res) && m.regions == After(old(m.regions), op, res)
    ensures old(m.Agrees()) && !MapFails(res) ==> m.Agrees()
    ensures op.Insert? && old(m.Agrees() && NoEmptyTables(m.pt.Now())) ==>
              if MapFails(res) then res.res.error.NoMemory? else NoEmptyTables(m.pt.Now())
    ensures res == RAN_OUT ==> m.pt.mem.frames.free == {}
    ensures m.pt.Budget() == old(m.pt.Budget()) && old(m.pt.intrm) <= m.pt.intrm
  {
    hide Tree, Typed, Agree, Covers, Disjoint, NoEmptyTables, OthersKept, Usable, Overlap, Leftover, Strays,
         LeavesUpto;
    match op
    case Insert(r) =>
      var e := m.Insert(r);
      res := InsertDone(e);
    case Delete(start) =>
      var found := m.Delete(start);
      res := DeleteDone(found);
    case Clear =>
      var panicked := m.Clear();
      res := ClearDone(panicked);
  }

  lemma AllAnsweredNext(regions: RegionMap, script: seq<SetOp>, results: seq<OpResult>, res: OpResult)
    requires |results| < |script| && AllAnswered(regions, script, results)
    requires Answers(AfterAll(regions, script, results, |results|), script[|results|], res)
    ensures AllAnswered(regions, script, results + [res])
    ensures AfterAll(regions, script, results + [res], |results| + 1)
            == After(AfterAll(regions, script, results, |results|), script[|results|], res)
  {
    hide Answers, After;
    var more := results + [res];
    AfterAllPrefix(regions, script, results, [res], |results|);
    forall k | 0 <= k < |more| ensures Answers(AfterAll(regions, script, more, k), script[k], more[k]) {
      AfterAllPrefix(regions, script, results, [res], k);
    }
  }

  lemma FirstFailureNext(results: seq<OpResult>, res: OpResult)
    requires FirstFailureIsMemory(results)
    requires NoMapFails(results) && MapFails(res) ==> res.res.error.NoMemory?
    ensures FirstFailureIsMemory(results + [res])
  {
    var more := results + [res];
    assert forall k | 0 <= k < |results| :: more[k] == results[k] && more[..k] == results[..k];
    assert more[|results|] == res && more[..|results|] == results;
  }

  lemma NoMapFailsNext(results: seq<OpResult>, res: OpResult)
    ensures NoMapFails(results + [res]) <==> NoMapFails(results) && !MapFails(res)
  {
    var more := results + [res];
    assert forall k | 0 <= k < |results| :: more[k] == results[k];
    assert more[|results|] == res;
  }

  /** Runs the whole script, past any `map` that fails. In every run the recorded regions are
      those of the plain meaning, each answer is right, no `unwrap` panics, and the recorded
      regions keep all their pages. While no `map` has failed the table holds nothing else;
      and the first to fail in a run of inserts alone, from a set without empty tables such
      as a new one, fails for lack of memory. An insert that reports a lack of memory has found
      every frame of the pool taken, and no frame is lost. */
  method Run(m: MemorySet, script: seq<SetOp>) returns (results: seq<OpResult>)
    requires m.Keeps() && forall k | 0 <= k < |script| :: Allowed(m, script[k])
    modifies m, m.pt, m.pt.mem, m.pt.mem.frames
    ensures |results| == |script| && m.Keeps()
    ensures m.regions == AfterAll(old(m.regions), script, results, |script|)
    ensures AllAnswered(old(m.regions), script, results)
    ensures old(m.Agrees()) && NoMapFails(results) ==> m.Agrees()
    ensures old(m.Agrees() && NoEmptyTables(m.pt.Now())) && OnlyInserts(script) ==> FirstFailureIsMemory(results)
    ensures RAN_OUT in results ==> m.pt.mem.frames.free == {}
    ensures m.pt.Budget() == old(m.pt.Budget()) && old(m.pt.intrm) <= m.pt.intrm
  {
    hide Tree, Typed, Agree, Covers, Disjoint, NoEmptyTables, OthersKept, Usable, Answers, After, MapFails;
    ghost var agreed, before := m.Agrees(), m.regions;
    ghost var tidy := agreed && NoEmptyTables(m.pt.Now()) && OnlyInserts(script);
    results := [];
    for i := 0 to |script|
      invariant |results| == i && m.Keeps() && m.regions == AfterAll(before, script, results, i)
      invariant AllAnswered(before, script, results) && (tidy ==> FirstFailureIsMemory(results))
      invariant agreed && NoMapFails(results) ==> m.Agrees()
      invariant tidy && NoMapFails(results) ==> NoEmptyTables(m.pt.Now())
      invariant m.pt.Budget() == old(m.pt.Budget()) && old(m.pt.intrm) <= m.pt.intrm
      invariant RAN_OUT in results ==> m.pt.mem.frames.free == {}
    {
      assert Allowed(m, script[i]);
      var r := Do(m, script[i]);
      AllAnsweredNext(before, script, results, r);
      if tidy { FirstFailureNext(results, r); }
      NoMapFailsNext(results, r);
      results := results + [r];
    }
  }

  const SMALL := Region(0, 0x1000, {READ}, Offset(0))
  const LARGE := Region(0, 0x20_0000, {READ}, Offset(0))

  /** With deletes the promise fails: after inserting and deleting a 4K region, a 2M region
      at the same place overlaps nothing and cannot be inserted. */
  method LeftoverExample(m: MemorySet) returns (first: InsertResult, last: InsertResult)
    requires m.Agrees() && m.regions == map[]
    modifies m, m.pt, m.pt.mem, m.pt.mem.frames
    ensures first.Inserted? ==> last == MapFailed(AlreadyMapped)
    ensures !first.Inserted? ==> first == MapFailed(NoMemory) && m.pt.mem.frames.free == {}
  {
    hide Tree, Typed, Agree, Covers, Disjoint, NoEmptyTables, OthersKept, Usable, Leftover, Overlap;
    AgreeIsNoStrays(m.pt.fmt, m.regions, m.pt.leaves);
    ExamplesUsable(m.pt.fmt, m.window);
    last := Overlapped;
    ghost var v0 := m.pt.Now();
    first := m.Insert(SMALL);
    SmallNotLeftover(v0);
    if !first.Inserted? { return; }
    SmallNeedsTable(m.pt.Now(), m.regions);
    var _ := m.Delete(0);
    assert m.regions == map[];
    ghost var v := m.pt.Now();
    LargeNeedsPage(v);
    last := m.Insert(LARGE);
    LargeStops(v, m.pt.Now(), last.error);
  }

  lemma ExamplesUsable(fmt: Format, w: Window)
    ensures Usable(fmt, w, SMALL) && Usable(fmt, w, LARGE)
  {
  }

  lemma LargeNeedsPage(v: View)
    requires Block(2, 0) in v.tables
    ensures Leftover(v, LARGE)
  {
    assert Chosen(LARGE, Block(2, 0));
  }

  /** The large region is one page, so that page is where it stops. */
  lemma LargeStops(u: View, v: View, e: PagingError)
    requires Block(2, 0) in u.tables && Mappable(u.fmt, LARGE) && PrefixMapped(u, v, LARGE, e)
    ensures e.AlreadyMapped?
  {
    hide MappedUpto;
    var x: nat :| x < Limit(LARGE) && MappedUpto(u, v, LARGE, x)
                  && (e.AlreadyMapped? <==> PageAt(LARGE, x) in u.tables || PageAt(LARGE, x) in u.leaves);
    LargeOnePage(x);
  }

  lemma LargeOnePage(x: nat)
    requires x < Limit(LARGE)
    ensures PageAt(LARGE, x) == Block(2, 0)
  {
  }

  lemma SmallChosen()
    ensures Chosen(SMALL, Block(1, 0))
  {
  }

  /** No table stands where a small page goes. */
  lemma SmallNotLeftover(v: View)
    requires Tree(v)
    ensures !Leftover(v, SMALL)
  {
    hide SlotOk;
    forall b: Block | Chosen(SMALL, b) ensures b !in v.tables {
      SmallOnly(b);
      assert b in v.tables ==> TableOk(v, b);
    }
  }

  lemma SmallOnly(b: Block)
    requires Chosen(SMALL, b)
    ensures b.level == 1
  {
  }

  lemma SmallMapped(fmt: Format, regions: RegionMap, leaves: LeafMap)
    requires Covers(fmt, regions, leaves) && 0 in regions && regions[0] == SMALL
    ensures Block(1, 0) in leaves
  {
    hide Chosen, Wanted;
    SmallChosen();
  }

  lemma LeafHasTable(v: View, b: Block)
    requires Tree(v) && b in v.leaves
    ensures 1 <= b.level <= 3 && Parent(b) in v.tables
  {
    assert SlotOk(v, b);
  }

  lemma SmallNeedsTable(v: View, regions: RegionMap)
    requires Tree(v) && Covers(v.fmt, regions, v.leaves) && 0 in regions && regions[0] == SMALL
    ensures Block(2, 0) in v.tables
  {
    hide Tree, Covers;
    SmallMapped(v.fmt, regions, v.leaves);
    LeafHasTable(v, Block(1, 0));
  }
}
