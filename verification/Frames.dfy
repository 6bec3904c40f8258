/** The physical frame allocator, the frames it hands out, and the part of the
    hypervisor's memory it manages. */
module Frames {
  const PAGE: nat := 0x1000
  const PER_CPU_SIZE: nat := 512 * 1024
  const BITMAP_BITS: nat := 0x10_0000

  datatype Option<+T> = None | Some(value: T)

  /** A run of physical pages; `count` is zero for `Frame::from_paddr`. */
  datatype Frame = Frame(start: nat, count: nat)

  predicate Within(i: nat, s: nat, n: nat) {
    s <= i < s + n
  }

  /** The page numbers of a run. */
  function Run(s: nat, n: nat): set<nat> {
    set i: nat | i < s + n && Within(i, s, n)
  }

  lemma RunNext(s: nat, n: nat)
    ensures Run(s, 0) == {} && Run(s, n + 1) == Run(s, n) + {s + n}
  {
  }

  ghost function LivePages(live: map<nat, nat>): set<nat> {
    set s, i | s in live && i in Run(s, live[s]) :: i
  }

  ghost predicate Apart(s: nat, n: nat, t: nat, m: nat) {
    s + n <= t || t + m <= s
  }

  /** Live runs are disjoint from each other and from the free pages, and the free and
      the live pages together are the pool. */
  ghost predicate Partition(free: set<nat>, live: map<nat, nat>, pages: nat) {
    && (forall s <- live :: live[s] > 0)
    && (forall s <- live, t <- live | s != t :: Apart(s, live[s], t, live[t]))
    && LivePages(live) !! free
    && free + LivePages(live) == Run(0, pages)
  }

  class FrameAllocator {
    var base: nat
    var free: set<nat>
    /** Pages in the pool, and the runs handed out and not yet dropped. */
    ghost var pages: nat
    ghost var live: map<nat, nat>

    ghost predicate Valid()
      reads this
    {
      Partition(free, live, pages)
    }

    function At(i: nat): nat
      reads this
    {
      i * PAGE + base
    }

    ghost predicate Owns(f: Frame)
      reads this
    {
      f.count == 0 || exists s <- live :: f == Frame(At(s), live[s])
    }

    /** `FrameAllocator::empty`. */
    constructor ()
      ensures Valid() && free == {} && live == map[] && pages == 0
    {
      base, free, pages, live := 0, {}, 0, map[];
    }

    method Init(start: nat, size: nat)
      requires Valid() && pages == 0 && (size + 0xfff) / PAGE <= BITMAP_BITS
      modifies this
      ensures Valid() && live == map[] && pages == (size + 0xfff) / PAGE && free == Run(0, pages)
      ensures base == (start + 0xfff) / PAGE * PAGE
    {
      base := (start + 0xfff) / PAGE * PAGE;
      var n := (size + 0xfff) / PAGE;
      free := free + Run(0, n);
      pages, live := n, map[];
    }

    method Alloc() returns (r: Option<nat>)
      requires Valid()
      modifies this`free, this`live
      ensures Valid()
      ensures r.None? <==> old(free) == {}
      ensures r.None? ==> free == old(free) && live == old(live)
      ensures r.Some? ==> exists i <- old(free) ::
                r.value == At(i) && free == old(free) - {i} && live == old(live)[i := 1]
    {
      if free == {} { return None; }
      var i :| i in free;
      TakeRun(i, 1);
      assert Run(i, 1) == {i};
      r := Some(At(i));
    }

    /** The run search belongs to the bitmap crate: `found` is its answer. */
    method AllocContiguous(count: nat, align: nat, found: Option<nat>) returns (r: Option<nat>)
      requires Valid() && align > 0
      requires found.Some? ==> found.value % align == 0 && Run(found.value, count) <= free
      modifies this`free, this`live
      ensures Valid()
      ensures r.None? <==> found.None?
      ensures r.None? || count == 0 ==> free == old(free) && live == old(live)
      ensures r.Some? ==> r.value == At(found.value) && Owns(Frame(r.value, count))
      ensures r.Some? && count > 0 ==>
                free == old(free) - Run(found.value, count) && live == old(live)[found.value := count]
      // Aligned in pages from the pool base, so in memory only as far as the base is.
      ensures r.Some? && base % (align * PAGE) == 0 ==> r.value % (align * PAGE) == 0
    {
      if found.None? { return None; }
      if count > 0 { TakeRun(found.value, count); }
      r := Some(At(found.value));
      if base % (align * PAGE) == 0 { AlignedFromBase(base, found.value, align); }
    }

    method TakeRun(s: nat, n: nat)
      requires Valid() && n > 0 && Run(s, n) <= free
      modifies this`free, this`live
      ensures Valid() && free == old(free) - Run(s, n) && live == old(live)[s := n]
    {
      PartitionTake(free, live, pages, s, n);
      free := free - Run(s, n);
      live := live[s := n];
    }

    /** `dealloc_contiguous`: page by page. */
    method Dealloc(s: nat, n: nat)
      requires Valid() && s in live && live[s] == n
      modifies this`free, this`live
      ensures Valid() && free == old(free) + Run(s, n) && live == old(live) - {s}
    {
      PartitionDrop(free, live, pages, s);
      hide Run, Partition;
      RunNext(s, 0);
      for i := 0 to n
        invariant free == old(free) + Run(s, i) && live == old(live)
      {
        RunNext(s, i);
        free := free + {s + i};
      }
      live := live - {s};
    }

    /** `Drop`: a run goes back, a `from_paddr` frame does not. */
    method Drop(f: Frame)
      requires Valid() && Owns(f)
      modifies this`free, this`live
      ensures Valid()
      ensures f.count == 0 ==> free == old(free) && live == old(live)
      ensures f.count > 0 ==> exists s <- old(live) ::
                f == Frame(At(s), old(live)[s]) && free == old(free) + Run(s, f.count) && live == old(live) - {s}
    {
      hide Run, Partition;
      if f.count > 0 {
        ghost var owner: nat :| owner in live && f == Frame(At(owner), live[owner]);
        var s: nat := (f.start - base) / PAGE;
        assert s == owner;
        Dealloc(s, f.count);
      }
    }
  }

  lemma LiveAdd(live: map<nat, nat>, s: nat, n: nat)
    requires s !in live
    ensures LivePages(live[s := n]) == LivePages(live) + Run(s, n)
  {
    var live' := live[s := n];
    forall i: nat ensures i in LivePages(live') <==> i in LivePages(live) || i in Run(s, n) {
      assert s in live' && live'[s] == n;
      assert forall t <- live :: t in live' && live'[t] == live[t];
    }
  }

  lemma PartitionTake(free: set<nat>, live: map<nat, nat>, pages: nat, s: nat, n: nat)
    requires Partition(free, live, pages) && n > 0 && Run(s, n) <= free
    ensures Partition(free - Run(s, n), live[s := n], pages)
  {
    forall t <- live ensures t != s && Apart(s, n, t, live[t]) {
      var x := if s <= t then t else s;
      assert Within(x, t, live[t]) ==> x in Run(t, live[t]) && x in LivePages(live);
      assert Within(x, s, n) ==> x in Run(s, n);
    }
    LiveAdd(live, s, n);
  }

  lemma PartitionDrop(free: set<nat>, live: map<nat, nat>, pages: nat, s: nat)
    requires Partition(free, live, pages) && s in live
    ensures Partition(free + Run(s, live[s]), live - {s}, pages)
  {
    var rest := live - {s};
    LiveAdd(rest, s, live[s]);
    assert live == rest[s := live[s]];
    forall i <- LivePages(rest) ensures i !in Run(s, live[s]) {
      var t :| t in rest && i in Run(t, rest[t]);
      assert Apart(s, live[s], t, live[t]);
    }
  }

  /** Nothing is lost: free plus live pages is the size of the pool. */
  lemma Conservation(free: set<nat>, live: map<nat, nat>, pages: nat)
    requires Partition(free, live, pages)
    ensures |free| + |LivePages(live)| == pages
  {
    RunSize(pages);
  }

  lemma {:induction false} RunSize(n: nat)
    ensures |Run(0, n)| == n
  {
    if n == 0 {
      assert Run(0, 0) == {};
    } else {
      RunSize(n - 1);
      assert Within(n - 1, 0, n);
      assert Run(0, n) == Run(0, n - 1) + {n - 1};
    }
  }

  lemma AlignedFromBase(base: nat, i: nat, align: nat)
    requires align > 0 && base % (align * PAGE) == 0 && i % align == 0
    ensures (i * PAGE + base) % (align * PAGE) == 0
  {
    var d, q := align * PAGE, i / align;
    assert i * PAGE == q * d;
    assert i * PAGE + base == d * (q + base / d);
    Multiple(d, q + base / d);
  }

  lemma Multiple(d: nat, q: nat)
    requires d > 0
    ensures d * q % d == 0
  {
    var a := d * q;
    var k := a / d - q;
    assert d * k == -(a % d);
    assert k <= -1 ==> d * k + d <= 0;
    assert k >= 1 ==> d * k >= d;
  }

  // ---- Where the pool lies -----------------------------------------------------

  const HV_BASE: nat := 0xffff_ff00_0000_0000

  /** Header and configuration values that fix the layout of hypervisor memory. */
  datatype Layout = Layout(coreEnd: nat, maxCpus: nat, configSize: nat, physStart: nat, size: nat) {
    function PerCpu(id: nat): nat {
      coreEnd + id * PER_CPU_SIZE
    }

    function Config(): nat {
      coreEnd + maxCpus * PER_CPU_SIZE
    }

    function FreeStart(): nat {
      (Config() + configSize + 0xfff) / PAGE * PAGE
    }

    function HvEnd(): nat {
      HV_BASE + size
    }

    function PoolEnd(): nat {
      HvEnd() / PAGE * PAGE
    }

    function ToVirt(paddr: nat): int {
      paddr + HV_BASE - physStart
    }

    function ToPhys(va: nat): int {
      va - (HV_BASE - physStart)
    }

    /** How far the pool base is from a physical page boundary. */
    function Shift(): nat {
      (HV_BASE - physStart) % PAGE
    }

    /** The layout fits: the regions come in order, and the pool fits the bitmap. */
    predicate Ordered() {
      && HV_BASE <= coreEnd && FreeStart() <= PoolEnd()
      && (PoolEnd() - FreeStart()) / PAGE <= BITMAP_BITS
      && physStart <= HV_BASE
    }
  }

  /** `frame::init`. */
  method InitPool(l: Layout) returns (a: FrameAllocator)
    requires l.Ordered() && l.ToPhys(l.FreeStart()) >= 0
    ensures fresh(a) && a.Valid() && a.live == map[] && a.free == Run(0, a.pages)
    ensures a.base == (l.ToPhys(l.FreeStart()) + 0xfff) / PAGE * PAGE
    ensures a.pages == (l.PoolEnd() - l.FreeStart() + 0xfff) / PAGE
  {
    a := new FrameAllocator();
    a.Init(l.ToPhys(l.FreeStart()), l.PoolEnd() - l.FreeStart());
  }

  /** Every page of a pool set up by `frame::init` starts at or above the free memory
      and clear of the per-CPU areas and the configuration. All of them end within the
      hypervisor's memory exactly when rounding the pool base up to a physical page
      fits in the bytes that rounding the end down left over. */
  lemma PoolPlacement(l: Layout, base: nat, pages: nat)
    requires l.Ordered() && pages > 0
    requires base == (l.ToPhys(l.FreeStart()) + 0xfff) / PAGE * PAGE
    requires pages == (l.PoolEnd() - l.FreeStart() + 0xfff) / PAGE
    ensures forall i | 0 <= i < pages :: l.FreeStart() <= l.ToVirt(i * PAGE + base)
    ensures forall id | 0 <= id < l.maxCpus :: l.coreEnd <= l.PerCpu(id) && l.PerCpu(id) + PER_CPU_SIZE <= l.Config()
    ensures forall id, next | 0 <= id < next < l.maxCpus :: l.PerCpu(id) + PER_CPU_SIZE <= l.PerCpu(next)
    // Of the memory from the configuration to the end less than a page is lost on each side.
    ensures l.Config() + l.configSize <= l.FreeStart() < l.Config() + l.configSize + PAGE
    ensures l.FreeStart() + pages * PAGE <= l.HvEnd() < l.FreeStart() + pages * PAGE + PAGE
    ensures (forall i | 0 <= i < pages :: l.ToVirt(i * PAGE + base) + PAGE <= l.HvEnd())
            <==> l.Shift() <= l.size % PAGE
  {
    PoolShift(l, base, pages);
    var last := pages - 1;
    assert l.ToVirt(last * PAGE + base) + PAGE == l.PoolEnd() + l.Shift();
    assert l.HvEnd() == l.PoolEnd() + l.size % PAGE;
  }

  /** A layout whose last pool page ends past the hypervisor's memory: its memory starts in
      the middle of a page and has no slack at the end. */
  lemma PoolOverruns()
    ensures var l := Layout(HV_BASE, 1, 0x1000, 0x800, 0x10_0000);
            var base := (l.ToPhys(l.FreeStart()) + 0xfff) / PAGE * PAGE;
            var pages := (l.PoolEnd() - l.FreeStart() + 0xfff) / PAGE;
            l.Ordered() && pages > 0 && l.ToVirt((pages - 1) * PAGE + base) + PAGE > l.HvEnd()
  {
  }

  lemma PoolShift(l: Layout, base: nat, pages: nat)
    requires l.Ordered()
    requires base == (l.ToPhys(l.FreeStart()) + 0xfff) / PAGE * PAGE
    requires pages == (l.PoolEnd() - l.FreeStart() + 0xfff) / PAGE
    ensures l.ToVirt(base) == l.FreeStart() + l.Shift()
    ensures l.FreeStart() + pages * PAGE == l.PoolEnd()
    ensures l.HvEnd() == l.PoolEnd() + l.size % PAGE
  {
    var f, e := (l.Config() + l.configSize + 0xfff) / PAGE, l.HvEnd() / PAGE;
    var gap := HV_BASE - l.physStart;
    RoundUp(f - gap / PAGE, gap % PAGE, l.ToPhys(PAGE * f));
    RoundUp(e - f, 0, PAGE * (e - f));
    EndSlack(l.size);
  }

  /** Rounding up a number that is `less` short of a multiple of the page size. */
  lemma RoundUp(k: int, less: nat, x: int)
    requires less < PAGE && x == PAGE * k - less
    ensures (x + 0xfff) / PAGE == k
  {
    assert x + 0xfff == PAGE * k + (0xfff - less);
  }

  lemma EndSlack(size: nat)
    ensures (HV_BASE + size) % PAGE == size % PAGE
  {
  }
}
