/** Whole runs of frame allocations and drops. */
module FrameRuns {
  import opened Frames

  /** `Drop(k)` drops the k-th frame held; a run is taken at `at` if the bitmap finds it there. */
  datatype FrameOp = TakeOne | TakeMany(count: nat, align: nat, at: nat) | Drop(k: nat)

  /** Frame `i` held is the live run that starts at page `slots[i]`, and every live run is
      held. */
  ghost predicate Holds(a: FrameAllocator, held: seq<Frame>, slots: seq<nat>)
    reads a
  {
    && |slots| == |held| && Lists(a.live, slots)
    && forall i | 0 <= i < |slots| :: held[i] == Frame(a.At(slots[i]), a.live[slots[i]])
  }

  /** The keys of the map, each once. */
  ghost predicate Lists(live: map<nat, nat>, slots: seq<nat>) {
    && (forall s :: s in live <==> s in slots)
    && (forall i, j | 0 <= i < j < |slots| :: slots[i] != slots[j])
  }

  /** How many pages the frames have. */
  function TotalCount(held: seq<Frame>): nat {
    if held == [] then 0 else TotalCount(held[..|held| - 1]) + held[|held| - 1].count
  }

  predicate InPool(f: Frame, base: nat, pages: nat) {
    f.count > 0 && base <= f.start && f.start + f.count * PAGE <= base + pages * PAGE
  }

  predicate Clear(f: Frame, g: Frame) {
    f.start + f.count * PAGE <= g.start || g.start + g.count * PAGE <= f.start
  }

  lemma LiveInPool(a: FrameAllocator, s: nat)
    requires a.Valid() && s in a.live
    ensures InPool(Frame(a.At(s), a.live[s]), a.base, a.pages)
  {
    var last := s + a.live[s] - 1;
    assert last in Run(s, a.live[s]) && last in LivePages(a.live);
    assert last in Run(0, a.pages);
  }

  lemma LiveClear(a: FrameAllocator, s: nat, t: nat)
    requires a.Valid() && s in a.live && t in a.live && s != t
    ensures Clear(Frame(a.At(s), a.live[s]), Frame(a.At(t), a.live[t]))
  {
    assert Apart(s, a.live[s], t, a.live[t]);
  }

  lemma RunOne(i: nat)
    ensures Run(i, 1) == {i}
  {
  }

  lemma FreeNotLive(free: set<nat>, live: map<nat, nat>, pages: nat, s: nat, n: nat)
    requires Partition(free, live, pages) && n > 0 && Run(s, n) <= free
    ensures s !in live
  {
    assert s in Run(s, n);
    forall t <- live ensures t in LivePages(live) {
      assert t in Run(t, live[t]);
    }
  }

  lemma ListsAdd(live: map<nat, nat>, slots: seq<nat>, s: nat, n: nat)
    requires Lists(live, slots) && s !in live
    ensures Lists(live[s := n], slots + [s])
  {
  }

  lemma ListsDrop(live: map<nat, nat>, slots: seq<nat>, k: nat)
    requires Lists(live, slots) && k < |slots|
    ensures Lists(live - {slots[k]}, slots[..k] + slots[k + 1..])
  {
    var rest := slots[..k] + slots[k + 1..];
    assert forall i | 0 <= i < |rest| :: rest[i] == if i < k then slots[i] else slots[i + 1];
    forall s | s in live && s != slots[k] ensures s in rest {
      var i :| 0 <= i < |slots| && slots[i] == s;
      assert rest[if i < k then i else i - 1] == s;
    }
  }

  lemma {:induction false} RunCount(s: nat, n: nat)
    ensures |Run(s, n)| == n
  {
    RunNext(s, if n == 0 then 0 else n - 1);
    if n > 0 {
      RunCount(s, n - 1);
      assert s + n - 1 !in Run(s, n - 1);
    }
  }

  /** The pages of disjoint runs are as many as the runs are long together. */
  lemma {:induction false} LiveTotal(live: map<nat, nat>, slots: seq<nat>, held: seq<Frame>)
    requires Lists(live, slots) && |held| == |slots|
    requires forall i | 0 <= i < |slots| :: held[i].count == live[slots[i]]
    requires forall s <- live, t <- live | s != t :: Apart(s, live[s], t, live[t])
    ensures |LivePages(live)| == TotalCount(held)
    decreases |slots|
  {
    hide Lists, LivePages, Run, Apart;
    if slots == [] {
      LiveNone(live);
    } else {
      var k := |slots| - 1;
      HeldLive(live, slots, k);
      var s, rest := slots[k], live - {slots[k]};
      ListsDrop(live, slots, k);
      assert slots[..k] + slots[k + 1..] == slots[..k];
      forall i | 0 <= i < k ensures slots[i] in rest && rest[slots[i]] == live[slots[i]] {
        HeldLive(live, slots, i);
      }
      LiveTotal(rest, slots[..k], held[..k]);
      LiveAdd(rest, s, live[s]);
      assert live == rest[s := live[s]];
      RunCount(s, live[s]);
      RunClear(rest, s, live[s]);
    }
  }

  lemma LiveNone(live: map<nat, nat>)
    requires Lists(live, [])
    ensures LivePages(live) == {}
  {
    assert live == map[];
  }

  lemma RunClear(live: map<nat, nat>, s: nat, n: nat)
    requires forall t <- live :: Apart(s, n, t, live[t])
    ensures LivePages(live) !! Run(s, n)
  {
  }

  /** After any script of allocations and drops the frames held lie in the pool and clear
      of each other, and their pages and the free ones make up the pool. */
  method RunFrames(a: FrameAllocator, script: seq<FrameOp>) returns (held: seq<Frame>)
    requires a.Valid() && a.live == map[]
    requires forall k | 0 <= k < |script| && script[k].TakeMany? :: script[k].align > 0
    modifies a
    ensures a.Valid() && a.base == old(a.base) && a.pages == old(a.pages)
    ensures forall i | 0 <= i < |held| :: InPool(held[i], a.base, a.pages)
    ensures forall i, j | 0 <= i < j < |held| :: Clear(held[i], held[j])
    ensures |a.free| + TotalCount(held) == a.pages
  {
    held := [];
    ghost var slots: seq<nat> := [];
    hide Partition, Run, Lists;
    ListsNone();
    for k := 0 to |script|
      invariant a.Valid() && Holds(a, held, slots) && a.base == old(a.base) && a.pages == old(a.pages)
    {
      held, slots := DoFrame(a, script[k], held, slots);
    }
    HeldTotal(a, held, slots);
    forall i | 0 <= i < |held| ensures InPool(held[i], a.base, a.pages) {
      HeldLive(a.live, slots, i);
      LiveInPool(a, slots[i]);
    }
    forall i, j | 0 <= i < j < |held| ensures Clear(held[i], held[j]) {
      HeldLive(a.live, slots, i);
      HeldLive(a.live, slots, j);
      LiveClear(a, slots[i], slots[j]);
    }
  }

  lemma ListsNone()
    ensures Lists(map[], [])
  {
  }

  lemma HeldLive(live: map<nat, nat>, slots: seq<nat>, i: nat)
    requires Lists(live, slots) && i < |slots|
    ensures slots[i] in live && forall j | 0 <= j < |slots| && j != i :: slots[j] != slots[i]
  {
  }

  lemma HeldTotal(a: FrameAllocator, held: seq<Frame>, slots: seq<nat>)
    requires a.Valid() && Holds(a, held, slots)
    ensures |a.free| + TotalCount(held) == a.pages
  {
    LiveTotal(a.live, slots, held);
    Conservation(a.free, a.live, a.pages);
  }

  method DoFrame(a: FrameAllocator, op: FrameOp, held: seq<Frame>, ghost slots: seq<nat>)
    returns (held': seq<Frame>, ghost slots': seq<nat>)
    requires a.Valid() && Holds(a, held, slots) && (op.TakeMany? ==> op.align > 0)
    modifies a
    ensures a.Valid() && Holds(a, held', slots') && a.base == old(a.base) && a.pages == old(a.pages)
  {
    hide Partition, Run, Lists;
    ghost var free, live := a.free, a.live;
    held', slots' := held, slots;
    forall i | 0 <= i < |slots| ensures slots[i] in live { HeldLive(live, slots, i); }
    match op
    case TakeOne =>
      var r := a.Alloc();
      if r.Some? {
        ghost var i :| i in free && r.value == a.At(i) && a.live == live[i := 1];
        RunOne(i);
        FreeNotLive(free, live, a.pages, i, 1);
        ListsAdd(live, slots, i, 1);
        held', slots' := held + [Frame(r.value, 1)], slots + [i];
      }
    case TakeMany(count, align, at) =>
      var found := if at % align == 0 && Run(at, count) <= a.free then Some(at) else None;
      var r := a.AllocContiguous(count, align, found);
      if r.Some? && count > 0 {
        FreeNotLive(free, live, a.pages, at, count);
        ListsAdd(live, slots, at, count);
        held', slots' := held + [Frame(r.value, count)], slots + [at];
      }
    case Drop(k) =>
      if k < |held| {
        HeldLive(live, slots, k);
        LiveInPool(a, slots[k]);
        a.Drop(held[k]);
        ListsDrop(live, slots, k);
        held', slots' := held[..k] + held[k + 1..], slots[..k] + slots[k + 1..];
      }
  }

  // ---- In the hypervisor's memory ---------------------------------------------------------

  /** The frame lies above the per-CPU areas, the configuration and the start of the free
      memory. */
  ghost predicate Above(l: Layout, f: Frame) {
    && l.FreeStart() <= l.ToVirt(f.start) && l.Config() + l.configSize <= l.ToVirt(f.start)
    && forall id | 0 <= id < l.maxCpus :: l.PerCpu(id) + PER_CPU_SIZE <= l.ToVirt(f.start)
  }

  ghost predicate EndsInside(l: Layout, f: Frame) {
    l.ToVirt(f.start) + f.count * PAGE <= l.HvEnd()
  }

  lemma FramePlaced(l: Layout, base: nat, pages: nat, f: Frame)
    requires l.Ordered() && pages > 0 && InPool(f, base, pages)
    requires base == (l.ToPhys(l.FreeStart()) + 0xfff) / PAGE * PAGE
    requires pages == (l.PoolEnd() - l.FreeStart() + 0xfff) / PAGE
    ensures Above(l, f) && (l.Shift() <= l.size % PAGE ==> EndsInside(l, f))
  {
    hide l.FreeStart, l.PoolEnd, l.HvEnd, l.Shift, l.Config, l.PerCpu, l.Ordered;
    PoolShift(l, base, pages);
    PerCpuBelow(l);
  }

  lemma PerCpuBelow(l: Layout)
    ensures forall id | 0 <= id < l.maxCpus :: l.PerCpu(id) + PER_CPU_SIZE <= l.Config()
    ensures l.Config() + l.configSize <= l.FreeStart()
  {
  }

  /** From `frame::init` on: every frame ever held lies in the free memory, clear of the
      per-CPU areas and the configuration, and ends inside the hypervisor's memory wherever
      the whole pool does. */
  method InitAndRun(l: Layout, script: seq<FrameOp>) returns (held: seq<Frame>)
    requires l.Ordered() && l.ToPhys(l.FreeStart()) >= 0
    requires forall k | 0 <= k < |script| && script[k].TakeMany? :: script[k].align > 0
    ensures forall i | 0 <= i < |held| :: Above(l, held[i])
    ensures l.Shift() <= l.size % PAGE ==> forall i | 0 <= i < |held| :: EndsInside(l, held[i])
    ensures forall i, j | 0 <= i < j < |held| :: Clear(held[i], held[j])
  {
    hide Above, EndsInside;
    var a := InitPool(l);
    held := RunFrames(a, script);
    forall i | 0 <= i < |held|
      ensures Above(l, held[i]) && (l.Shift() <= l.size % PAGE ==> EndsInside(l, held[i]))
    {
      FramePlaced(l, a.base, a.pages, held[i]);
    }
  }
}
