/** A page table and its clone share every table below the root. */
module Clones {
  import opened Pte
  import opened Blocks
  import opened Tables
  import opened Regions
  import opened Steps
  import opened PageTables

  /** The operations that change a table. */
  datatype Op = DoMap(r: Region) | DoUnmap(r: Region) | DoUpdate(va: nat, paddr: nat, flags: MemFlags)

  ghost predicate Allowed(fmt: Format, op: Op) {
    match op
    case DoMap(r) => Mappable(fmt, r)
    case DoUnmap(_) => true
    case DoUpdate(_, paddr, _) => fmt.Ept? ==> paddr < TWO52
  }

  /** Equal root entries at an address's slot give equal answers at the address. */
  lemma SameSlotSameAnswer(fmt: Format, h: Heap, p: nat, q: nat, va: nat)
    requires Load(h, p, Index(4, va)) == Load(h, q, Index(4, va))
    ensures Query(fmt, h, p, va) == Query(fmt, h, q, va)
  {
  }

  /** The slots in `used` are set, and alike in both roots. */
  ghost predicate Linked(h: Heap, p: nat, q: nat, used: set<nat>) {
    forall i <- used :: !IsUnused(Load(h, p, i)) && Load(h, p, i) == Load(h, q, i)
  }

  lemma LinkedKept(h: Heap, roles: Roles, h': Heap, roles': Roles, p: nat, q: nat, used: set<nat>)
    requires p in roles && q in roles && p != q && roles[p].level == 4 && roles[q].level == 4
    requires Linked(h, p, q, used) && (RootsKept(h, roles, h', roles', p) || RootsKept(h, roles, h', roles', q))
    ensures Linked(h', p, q, used)
  {
  }

  method Apply(t: PageTable, op: Op)
    requires t.Valid() && Allowed(t.fmt, op)
    modifies t, t.mem, t.mem.frames
    ensures t.Valid() && RootsKept(old(t.mem.h), old(t.mem.roles), t.mem.h, t.mem.roles, t.root)
  {
    hide Typed, RootsKept;
    NothingKept(t.Now());
    match op
    case DoMap(r) => var _, _ := t.Map(r);
    case DoUnmap(r) => var _ := t.Unmap(r);
    case DoUpdate(va, paddr, flags) => var _ := t.Update(va, paddr, flags);
  }

  /** Clone, then run any interleaving of operations on the table (`true`) and on the clone
      (`false`). They answer alike at every address whose root slot was in use when the
      clone was made, right away and at the end. */
  method CloneAndRun(t: PageTable, script: seq<(bool, Op)>) returns (c: PageTable?)
    requires t.Valid() && forall k | 0 <= k < |script| :: Allowed(t.fmt, script[k].1)
    modifies t, t.mem, t.mem.frames
    ensures c != null && script == [] ==> forall va: nat :: t.Lookup(va) == c.Lookup(va)
    ensures c != null ==> forall va: nat | !IsUnused(old(Load(t.mem.h, t.root, Index(4, va)))) ::
                            t.Lookup(va) == c.Lookup(va)
  {
    c := t.Clone();
    if c == null { return; }
    forall va: nat ensures t.Lookup(va) == c.Lookup(va) {
      SameSlotSameAnswer(t.fmt, t.mem.h, t.root, c.root, va);
    }
    ghost var used := set i: nat | i < 512 && !IsUnused(Load(t.mem.h, t.root, i));
    hide Typed, RootsKept;
    for k := 0 to |script|
      invariant t.Valid() && c.Valid() && Linked(t.mem.h, t.root, c.root, used)
      invariant k == 0 ==> forall va: nat :: t.Lookup(va) == c.Lookup(va)
    {
      ghost var h, roles := t.mem.h, t.mem.roles;
      if script[k].0 { Apply(t, script[k].1); } else { Apply(c, script[k].1); }
      LinkedKept(h, roles, t.mem.h, t.mem.roles, t.root, c.root, used);
      StillThere(h, roles, t.mem.h, t.mem.roles, if script[k].0 then t.root else c.root, t.root);
      StillThere(h, roles, t.mem.h, t.mem.roles, if script[k].0 then t.root else c.root, c.root);
    }
    forall va: nat | !IsUnused(old(Load(t.mem.h, t.root, Index(4, va)))) ensures t.Lookup(va) == c.Lookup(va) {
      assert Index(4, va) in used;
      SameSlotSameAnswer(t.fmt, t.mem.h, t.root, c.root, va);
    }
  }

  lemma StillThere(h: Heap, roles: Roles, h': Heap, roles': Roles, root: nat, p: nat)
    requires RootsKept(h, roles, h', roles', root) && p in roles
    ensures p in roles' && roles'[p] == roles[p]
  {
  }
}
