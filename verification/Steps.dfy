/** What the single-page operations do to a table, as relations between the state
    before and the state after, and the invariants they keep. */
module Steps {
  import opened Pte
  import opened Blocks
  import opened Tables

  // ---- What an operation on one table leaves alone -----------------------------

  /** Frames keep their roles, other roots are untouched, and a root slot once set
      stays as it is. This holds even when tables share subtrees. */
  ghost predicate RootsKept(h: Heap, roles: Roles, h': Heap, roles': Roles, root: nat) {
    && (forall p <- roles :: p in roles' && roles'[p] == roles[p])
    && (forall p <- roles, i: nat | roles[p].level == 4 && (p != root || !IsUnused(Load(h, p, i))) ::
          Load(h', p, i) == Load(h, p, i))
  }

  lemma RootsKeptTransitive(h: Heap, roles: Roles, h1: Heap, roles1: Roles, h2: Heap, roles2: Roles, root: nat)
    requires RootsKept(h, roles, h1, roles1, root) && RootsKept(h1, roles1, h2, roles2, root)
    ensures RootsKept(h, roles, h2, roles2, root)
  {
  }

  /** Only frames of this table and frames without a role before are written, and the
      tables it gains are of the second kind. */
  ghost predicate OthersKept(v: View, v': View) {
    && (forall p <- v.roles :: p in v'.roles && v'.roles[p] == v.roles[p])
    && (forall p <- v.roles | p !in v.tables.Values :: p in v.h && p in v'.h && v'.h[p] == v.h[p])
    && (forall b <- v.tables :: b in v'.tables && v'.tables[b] == v.tables[b])
    && (forall b <- v'.tables | b !in v.tables :: v'.tables[b] !in v.roles)
  }

  lemma OthersKeptTransitive(u: View, v: View, w: View)
    requires OthersKept(u, v) && OthersKept(v, w)
    ensures OthersKept(u, w)
  {
    forall p <- u.roles | p !in u.tables.Values ensures p !in v.tables.Values {
    }
  }

  lemma TableKept(v: View, v': View, b: Block)
    requires OthersKept(v, v')
    ensures b in v.tables ==> b in v'.tables
  {
  }

  lemma NothingKept(v: View)
    requires Typed(v.h, v.roles)
    ensures OthersKept(v, v) && RootsKept(v.h, v.roles, v.h, v.roles, v.root)
  {
    assert forall p <- v.roles :: FrameOk(v.h, v.roles, p);
  }

  ghost predicate IsInner(tables: TableMap, q: nat) {
    exists b <- tables :: b != WHOLE && tables[b] == q
  }

  /** `intrm_tables` lists every table but the root, once. */
  ghost predicate Tracked(intrm: seq<nat>, tables: TableMap) {
    && (forall q :: q in intrm <==> IsInner(tables, q))
    && (forall i, j | 0 <= i < j < |intrm| :: intrm[i] != intrm[j])
  }

  lemma TrackedAdd(intrm: seq<nat>, tables: TableMap, b: Block, q: nat)
    requires Tracked(intrm, tables) && b !in tables && b != WHOLE && q !in tables.Values
    ensures Tracked(intrm + [q], tables[b := q])
  {
    var tables' := tables[b := q];
    forall x: nat ensures x in intrm + [q] <==> IsInner(tables', x) {
      assert b in tables' && tables'[b] == q;
      assert IsInner(tables, x) ==> IsInner(tables', x) by {
        if IsInner(tables, x) {
          var c :| c in tables && c != WHOLE && tables[c] == x;
          assert c in tables' && tables'[c] == x;
        }
      }
      assert x in intrm <==> IsInner(tables, x);
    }
    assert q !in intrm by { assert q in intrm ==> IsInner(tables, q); }
  }

  lemma LeafRootsKept(h: Heap, roles: Roles, p: nat, i: nat, w: Word, root: nat)
    requires p in roles && roles[p].level != 4 && p in h && i < |h[p]|
    ensures RootsKept(h, roles, Store(h, p, i, w), roles, root)
  {
  }

  // ---- One step down, creating the table if it is missing -----------------------

  /** How a page that is in the way is reported: an entry without the present bits, as EPT
      writes for a page with no access at all, passes for an unmapped one. */
  function InTheWay(fmt: Format, w: Word): PagingError {
    if IsPresent(fmt, w) then MappedToHugePage else NotMapped
  }

  /** A page larger than this level covers the address, and the error is its own. */
  ghost predicate Covering(v: View, va: nat, level: nat, e: PagingError) {
    exists l | 1 <= l <= 4 && level < l ::
      BlockOf(l, va) in v.leaves && e == InTheWay(v.fmt, v.leaves[BlockOf(l, va)])
  }

  /** The outcome of `next_table_mut_or_create` at the slot of block `b`. */
  ghost predicate Entered(v: View, v': View, b: Block, r: Result<nat>) {
    && v'.fmt == v.fmt && Tree(v') && v'.leaves == v.leaves && OthersKept(v, v')
    && (forall c <- v'.tables :: c in v.tables || c == b)
    && match r
       case Ok(q) => b in v'.tables && v'.tables[b] == q && b !in v.leaves
       case Err(e) =>
         v' == v && b !in v.tables && e == if b in v.leaves then InTheWay(v.fmt, v.leaves[b]) else NoMemory
  }

  lemma EnterExisting(v: View, b: Block)
    requires Typed(v.h, v.roles) && Tree(v) && 2 <= b.level <= 4 && !IsUnused(SlotWord(v, b))
    ensures Entered(v, v, b, NextTable(v.fmt, SlotWord(v, b)))
  {
    assert SlotOk(v, b);
    NothingKept(v);
  }

  lemma EnterNoMemory(v: View, b: Block)
    requires Typed(v.h, v.roles) && Tree(v) && 2 <= b.level <= 4 && IsUnused(SlotWord(v, b))
    ensures Entered(v, v, b, Err(NoMemory))
  {
    hide Typed, SlotOk, SlotWord, TableOk, OthersKept;
    UnusedSlot(v, b);
    NothingKept(v);
  }

  lemma EnterNew(v: View, b: Block, q: nat)
    requires Typed(v.h, v.roles) && Tree(v)
    requires 2 <= b.level <= 4 && Parent(b) in v.tables && IsUnused(SlotWord(v, b))
    requires q !in v.roles && q % 0x1000 == 0 && q < TWO52
    ensures b !in v.tables && q !in v.tables.Values
    ensures Writable(v, b) && Entered(v, LinkTable(v, b, q), b, Ok(q))
  {
    hide Typed, Tree, SlotWord, LinkTable, OthersKept, Parent;
    TreeLink(v, b, q);
    LinkFields(v, b, q);
    LinkOthersKept(v, b, q);
  }

  lemma LinkOthersKept(v: View, b: Block, q: nat)
    requires Typed(v.h, v.roles) && 2 <= b.level && Writable(v, b) && b != Parent(b) && q < TWO52
    requires q !in v.roles && b !in v.tables
    ensures OthersKept(v, LinkTable(v, b, q))
  {
    hide Typed, Parent, EmptyTable, SetTable;
    forall p <- v.roles ensures p in v.h { TypedFrame(v.h, v.roles, p); }
  }

  /** What `next_table_mut_or_create` does at slot `i` of the table `p` of this level:
      follow a used entry, or link a fresh zeroed frame into an unused one. */
  ghost predicate Stepped(fmt: Format, h: Heap, roles: Roles, h': Heap, roles': Roles, p: nat, i: nat, level: nat,
                          r: Result<nat>)
  {
    var w := Load(h, p, i);
    if !IsUnused(w) then
      r == NextTable(fmt, w) && h' == h && roles' == roles
    else if r.Err? then
      r == Err(NoMemory) && h' == h && roles' == roles
    else
      var q := r.value;
      && q !in roles && q % 0x1000 == 0 && q < TWO52 && 2 <= level
      && p in h && i < |h[p]| && p != q
      && h' == Store(h[q := EmptyTable()], p, i, SetTable(fmt, ZERO, q))
      && roles' == roles[q := Role(fmt, level - 1)]
  }

  lemma SteppedKept(fmt: Format, h: Heap, roles: Roles, h': Heap, roles': Roles, p: nat, i: nat, level: nat,
                    r: Result<nat>, root: nat)
    requires Typed(h, roles) && p in roles && roles[p] == Role(fmt, level) && 2 <= level <= 4
    requires level == 4 ==> p == root
    requires Stepped(fmt, h, roles, h', roles', p, i, level, r)
    ensures RootsKept(h, roles, h', roles', root)
    ensures r.Ok? ==> r.value in roles' && roles'[r.value] == Role(fmt, level - 1)
  {
    assert EntryOk(h, roles, p, i);
  }

  /** The same step in a tree. */
  lemma SteppedTree(v: View, b: Block, h': Heap, roles': Roles, r: Result<nat>) returns (v': View)
    requires Typed(v.h, v.roles) && Tree(v) && 2 <= b.level <= 4 && Parent(b) in v.tables
    requires Stepped(v.fmt, v.h, v.roles, h', roles', v.tables[Parent(b)], b.num % 512, b.level, r)
    ensures v' == v.(h := h', roles := roles', tables := v'.tables) && Entered(v, v', b, r)
    ensures v'.tables == if IsUnused(SlotWord(v, b)) && r.Ok? then v.tables[b := r.value] else v.tables
    ensures IsUnused(SlotWord(v, b)) && r.Ok? ==> b !in v.tables && r.value !in v.tables.Values
  {
    hide Tree, Entered, Typed;
    if !IsUnused(SlotWord(v, b)) {
      EnterExisting(v, b);
      v' := v;
    } else if r.Err? {
      EnterNoMemory(v, b);
      v' := v;
    } else {
      EnterNew(v, b, r.value);
      v' := LinkTable(v, b, r.value);
    }
  }

  // ---- The whole way down --------------------------------------------------------

  /** The outcome of `get_entry_mut_or_create`: no leaf changes, only tables on the way
      to the address appear, and it fails without running out of memory exactly when a
      larger page is in the way. */
  ghost predicate Reached(v: View, v': View, va: nat, level: nat, r: Result<nat>) {
    && 1 <= level <= 4
    && v'.fmt == v.fmt && Tree(v') && v'.leaves == v.leaves && OthersKept(v, v')
    && (forall c <- v'.tables :: c in v.tables || (level < c.level <= 4 && c == BlockOf(c.level, va)))
    && match r
       case Ok(p) =>
         && BlockOf(level + 1, va) in v'.tables && v'.tables[BlockOf(level + 1, va)] == p
         && forall l | level < l <= 4 :: BlockOf(l, va) !in v.leaves
       case Err(e) =>
         && !e.AlreadyMapped? && BlockOf(level + 1, va) !in v.tables
         && (!e.NoMemory? <==> exists l | level < l <= 4 :: BlockOf(l, va) in v.leaves)
         && (!e.NoMemory? ==> Covering(v, va, level, e))
  }

  lemma ReachedStart(v: View, va: nat)
    requires Typed(v.h, v.roles) && Tree(v)
    ensures Reached(v, v, va, 4, Ok(v.root))
  {
    NothingKept(v);
    assert BlockOf(5, va) == WHOLE;
  }

  lemma ReachedNext(u: View, v: View, v': View, va: nat, level: nat, r: Result<nat>)
    requires Tree(u) && 2 <= level <= 4 && BlockOf(level + 1, va) in v.tables
    requires Reached(u, v, va, level, Ok(v.tables[BlockOf(level + 1, va)])) && Entered(v, v', BlockOf(level, va), r)
    ensures Reached(u, v', va, level - 1, r)
  {
    hide Tree, OthersKept;
    OthersKeptTransitive(u, v, v');
    TableKept(u, v, BlockOf(level, va));
  }

  lemma ReachedDown(u: View, v: View, p: nat, va: nat, level: nat, h': Heap, roles': Roles, r: Result<nat>)
    returns (v': View)
    requires Typed(v.h, v.roles) && Tree(u) && 2 <= level <= 4 && Reached(u, v, va, level, Ok(p))
    requires Stepped(v.fmt, v.h, v.roles, h', roles', p, Index(level, va), level, r)
    ensures v' == v.(h := h', roles := roles', tables := v'.tables) && Reached(u, v', va, level - 1, r)
    ensures var b := BlockOf(level, va);
            if r.Ok? && IsUnused(Load(v.h, p, Index(level, va)))
            then b != WHOLE && b !in v.tables && r.value !in v.tables.Values && v'.tables == v.tables[b := r.value]
            else v'.tables == v.tables
  {
    hide Tree, Typed, Stepped, OthersKept;
    ParentOf(level, va);
    IndexOf(level, va);
    v' := SteppedTree(v, BlockOf(level, va), h', roles', r);
    ReachedNext(u, v, v', va, level, r);
    hide Reached, Entered;
  }

  /** A failed way down stays failed for deeper targets. */
  lemma ReachedFail(u: View, v: View, va: nat, level: nat, low: nat, e: PagingError)
    requires Reached(u, v, va, level, Err(e)) && Tree(u) && 1 <= low <= level <= 3
    ensures Reached(u, v, va, low, Err(e))
  {
    hide Tree, OthersKept;
    forall l | low < l <= level ensures BlockOf(l, va) !in u.leaves {
      NothingBelow(u, level + 1, l, va);
    }
    NothingBelow(u, level + 1, if low < level then low + 1 else low, va);
  }

  // ---- One page ------------------------------------------------------------------

  /** A page of this level at `va` cannot be mapped: its slot holds a table or a leaf, or
      a larger page covers it. */
  ghost predicate Blocked(v: View, va: nat, level: nat)
    requires 1 <= level <= 3
  {
    || BlockOf(level, va) in v.tables
    || exists l | level <= l <= 3 :: BlockOf(l, va) in v.leaves
  }

  /** The outcome of `map_page`: one leaf more, or an error that says why not. */
  ghost predicate PageMapped(v: View, v': View, va: nat, level: nat, w: Word, r: Status)
    requires 1 <= level <= 3
  {
    && Tree(v') && OthersKept(v, v')
    && (forall c <- v'.tables :: c in v.tables || (level < c.level <= 4 && c == BlockOf(c.level, va)))
    && match r
       case Done => !Blocked(v, va, level) && v'.leaves == v.leaves[BlockOf(level, va) := w]
       case Failed(e) =>
         && v'.leaves == v.leaves && (!e.NoMemory? <==> Blocked(v, va, level))
         && (e.AlreadyMapped? <==> BlockOf(level, va) in v.tables || BlockOf(level, va) in v.leaves)
         && (e.NoMemory? || e.AlreadyMapped? || Covering(v, va, level, e))
  }

  lemma SlotAt(v: View, va: nat, level: nat)
    requires Tree(v) && 1 <= level <= 4 && BlockOf(level + 1, va) in v.tables
    ensures Parent(BlockOf(level, va)) == BlockOf(level + 1, va)
    ensures Load(v.h, v.tables[BlockOf(level + 1, va)], Index(level, va)) == SlotWord(v, BlockOf(level, va))
    ensures Index(level, va) == BlockOf(level, va).num % 512
    ensures IsUnused(SlotWord(v, BlockOf(level, va)))
            <==> BlockOf(level, va) !in v.tables && BlockOf(level, va) !in v.leaves
  {
    ParentOf(level, va);
    IndexOf(level, va);
    assert SlotOk(v, BlockOf(level, va));
  }

  lemma NoTopLeaf(v: View, va: nat)
    requires Tree(v)
    ensures BlockOf(4, va) !in v.leaves
  {
  }

  lemma MappedFail(u: View, v: View, va: nat, level: nat, w: Word, e: PagingError)
    requires 1 <= level <= 3 && Tree(u) && Reached(u, v, va, level, Err(e))
    ensures PageMapped(u, v, va, level, w, Failed(e))
  {
    hide Tree, OthersKept;
    NoTopLeaf(u, va);
    NothingBelow(u, level + 1, level, va);
  }

  lemma MappedAlready(u: View, v: View, va: nat, level: nat, p: nat, w: Word)
    requires 1 <= level <= 3 && Tree(u) && Reached(u, v, va, level, Ok(p)) && !IsUnused(Load(v.h, p, Index(level, va)))
    ensures PageMapped(u, v, va, level, w, Failed(AlreadyMapped))
  {
    hide Tree, OthersKept;
    SlotAt(v, va, level);
  }

  lemma MappedOk(u: View, v: View, va: nat, level: nat, p: nat, w: Word) returns (v': View)
    requires Typed(v.h, v.roles) && 1 <= level <= 3 && Tree(u) && Reached(u, v, va, level, Ok(p))
    requires IsUnused(Load(v.h, p, Index(level, va))) && !IsUnused(w) && IsHuge(w) == (level > 1)
    ensures p in v.h && |v.h[p]| == 512
    ensures v' == v.(h := Store(v.h, p, Index(level, va), w), leaves := v.leaves[BlockOf(level, va) := w])
    ensures PageMapped(u, v', va, level, w, Done)
  {
    hide Tree, Typed, OthersKept;
    var b := BlockOf(level, va);
    SlotAt(v, va, level);
    TableKept(u, v, b);
    TreeLeaf(v, b, w);
    v' := SetLeafAt(v, b, w);
    LeafOthersKept(v, b, w);
    OthersKeptTransitive(u, v, v');
  }

  lemma LeafOthersKept(v: View, b: Block, w: Word)
    requires Typed(v.h, v.roles) && Writable(v, b)
    ensures OthersKept(v, SetLeafAt(v, b, w))
  {
    assert forall p <- v.roles :: FrameOk(v.h, v.roles, p);
  }

  /** The outcome of `unmap_page`: one leaf less, and the tables stay. */
  ghost predicate PageUnmapped(v: View, v': View, va: nat, r: Result<nat>) {
    && Tree(v') && OthersKept(v, v') && v'.tables == v.tables
    && match r
       case Ok(level) =>
         1 <= level <= 3 && BlockOf(level, va) in v.leaves && v'.leaves == v.leaves - {BlockOf(level, va)}
       case Err(e) => e.NotMapped? && v' == v && forall l | 1 <= l <= 3 :: BlockOf(l, va) !in v.leaves
  }

  /** The outcome of `update`: the entry the walk ends at is rewritten, used or not. */
  ghost predicate PageUpdated(v: View, v': View, va: nat, paddr: nat, flags: MemFlags, r: Result<nat>)
    requires v.fmt.Ept? ==> paddr < TWO52
  {
    && Tree(v') && OthersKept(v, v') && v'.tables == v.tables
    && match r
       case Err(e) =>
         e.NotMapped? && v' == v && BlockOf(2, va) !in v.tables && forall l | 1 <= l <= 3 :: BlockOf(l, va) !in v.leaves
       case Ok(level) =>
         && 1 <= level <= 3
         && var b := BlockOf(level, va);
         && (b in v.leaves || level == 1)
         && var w := SetLeaf(v.fmt, if b in v.leaves then v.leaves[b] else ZERO, paddr, flags, level > 1);
         && v'.leaves == PutLeaf(v.leaves, b, w)
  }

  lemma RewriteTree(v: View, va: nat, loc: Loc, w: Word) returns (v': View)
    requires Typed(v.h, v.roles) && Tree(v) && Walk(v.fmt, v.h, v.root, 4, va) == Ok(loc)
    requires 1 <= loc.level <= 3 && (IsUnused(w) || IsHuge(w) == (loc.level > 1))
    ensures loc.frame in v.h && |v.h[loc.frame]| == 512 && loc.index < 512
    ensures var b := BlockOf(loc.level, va);
            && v' == v.(h := Store(v.h, loc.frame, loc.index, w), leaves := PutLeaf(v.leaves, b, w))
            && Tree(v') && OthersKept(v, v')
            && (loc.level > 1 ==> b in v.leaves)
            && Load(v.h, loc.frame, loc.index) == if b in v.leaves then v.leaves[b] else ZERO
  {
    WalkFromRoot(v, va);
    var b := BlockOf(loc.level, va);
    assert SlotOk(v, b);
    TreeLeaf(v, b, w);
    hide Tree;
    LeafOthersKept(v, b, w);
    v' := SetLeafAt(v, b, w);
  }

  lemma UnmappedOk(v: View, va: nat, loc: Loc) returns (v': View)
    requires Typed(v.h, v.roles) && Tree(v) && Walk(v.fmt, v.h, v.root, 4, va) == Ok(loc)
    requires 1 <= loc.level <= 3 && !IsUnused(Load(v.h, loc.frame, loc.index))
    ensures loc.frame in v.h && loc.index < |v.h[loc.frame]|
    ensures v' == v.(h := Store(v.h, loc.frame, loc.index, ZERO), leaves := v'.leaves)
    ensures PageUnmapped(v, v', va, Ok(loc.level))
  {
    hide Tree, Typed, OthersKept;
    v' := RewriteTree(v, va, loc, ZERO);
  }

  lemma UpdatedOk(v: View, va: nat, loc: Loc, paddr: nat, flags: MemFlags) returns (v': View)
    requires Typed(v.h, v.roles) && Tree(v) && Walk(v.fmt, v.h, v.root, 4, va) == Ok(loc)
    requires 1 <= loc.level <= 3 && loc.frame in v.roles && (v.fmt.Ept? ==> paddr < TWO52)
    ensures loc.frame in v.h && loc.index < |v.h[loc.frame]|
    ensures var w := SetLeaf(v.fmt, Load(v.h, loc.frame, loc.index), paddr, flags, loc.level > 1);
            v' == v.(h := Store(v.h, loc.frame, loc.index, w), leaves := v'.leaves)
    ensures PageUpdated(v, v', va, paddr, flags, Ok(loc.level))
  {
    hide Tree, Typed, OthersKept;
    TypedFits(v.h, v.roles, loc.frame, loc.index);
    SetLeafAny(v.fmt, Load(v.h, loc.frame, loc.index), paddr, flags, loc.level > 1);
    v' := RewriteTree(v, va, loc, SetLeaf(v.fmt, Load(v.h, loc.frame, loc.index), paddr, flags, loc.level > 1));
  }

  /** Where the walk fails, or ends at an unused entry, no page is mapped. */
  lemma WalkFails(v: View, va: nat, paddr: nat, flags: MemFlags)
    requires Typed(v.h, v.roles) && Tree(v) && (v.fmt.Ept? ==> paddr < TWO52)
    ensures var r := Walk(v.fmt, v.h, v.root, 4, va);
            if r.Err? then
              PageUnmapped(v, v, va, Err(r.error)) && PageUpdated(v, v, va, paddr, flags, Err(r.error))
            else
              IsUnused(Load(v.h, r.value.frame, r.value.index)) ==> PageUnmapped(v, v, va, Err(NotMapped))
  {
    WalkFromRoot(v, va);
    NothingKept(v);
    match Walk(v.fmt, v.h, v.root, 4, va)
    case Err(_) =>
    case Ok(loc) => assert SlotOk(v, BlockOf(loc.level, va));
  }
}
