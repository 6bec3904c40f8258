/** Four-level tables in raw frames: the walk and the lookup, what keeps a heap of
    tables well typed, and when the tables under one root form a tree. */
module Tables {
  import opened Pte
  import opened Blocks

  datatype PagingError = NoMemory | NotMapped | AlreadyMapped | MappedToHugePage
  datatype Result<+T> = Ok(value: T) | Err(error: PagingError)
  datatype Status = Done | Failed(error: PagingError)

  /** How `unmap` ends; its two asserts panic. */
  datatype UnmapOutcome = Unmapped | NotUnmapped(error: PagingError) | Panicked

  /** Physical memory seen as tables: frame address to 512 entries. */
  type Heap = map<nat, seq<Word>>

  function EmptyTable(): seq<Word> { seq(512, _ => ZERO) }

  /** Reading outside the modelled frames yields zero; no table walked below has such a link. */
  function Load(h: Heap, p: nat, i: nat): Word {
    if p in h && i < |h[p]| then h[p][i] else ZERO
  }

  function Store(h: Heap, p: nat, i: nat, w: Word): Heap
    requires p in h && i < |h[p]|
  {
    h[p := h[p][i := w]]
  }

  function NextTable(fmt: Format, w: Word): Result<nat> {
    if !IsPresent(fmt, w) then Err(NotMapped)
    else if IsHuge(w) then Err(MappedToHugePage)
    else Ok(Addr(w))
  }

  lemma NextTableKinds(fmt: Format, w: Word)
    ensures NextTable(fmt, w).Err? ==>
              NextTable(fmt, w).error == if IsPresent(fmt, w) then MappedToHugePage else NotMapped
    ensures NextTable(fmt, w).Ok? <==> IsTable(fmt, w)
  {
  }

  /** The place of a terminal entry, and the level of the page it stands for. */
  datatype Loc = Loc(frame: nat, index: nat, level: nat)

  /** `get_entry_mut` from the table `p` of this level down. */
  function Walk(fmt: Format, h: Heap, p: nat, level: nat, va: nat): Result<Loc>
    requires 1 <= level <= 4
    decreases level
  {
    var i := Index(level, va);
    var w := Load(h, p, i);
    if level == 1 || (level < 4 && IsHuge(w)) then
      Ok(Loc(p, i, level))
    else
      match NextTable(fmt, w)
      case Err(e) => Err(e)
      case Ok(q) => Walk(fmt, h, q, level - 1, va)
  }

  datatype Mapping = Mapping(paddr: nat, flags: MemFlags, level: nat)

  function Translate(fmt: Format, w: Word, level: nat, va: nat): Mapping
    requires 1 <= level <= 3
  {
    Mapping(Addr(w) + va % Size(level), Flags(fmt, w), level)
  }

  function Query(fmt: Format, h: Heap, root: nat, va: nat): Result<Mapping> {
    match Walk(fmt, h, root, 4, va)
    case Err(e) => Err(e)
    case Ok(loc) =>
      var w := Load(h, loc.frame, loc.index);
      if IsUnused(w) then Err(NotMapped)
      else if 1 <= loc.level <= 3 then Ok(Translate(fmt, w, loc.level, va))
      else Err(NotMapped)
  }

  /** The answer comes from a page of this level at `paddr`. */
  ghost predicate IsPageOf(answer: Result<Mapping>, va: nat, level: nat, paddr: nat) {
    answer.Ok? && 1 <= level <= 3 && answer.value.level == level && answer.value.paddr == paddr + va % Size(level)
  }

  lemma FoundPage(fmt: Format, h: Heap, root: nat, va: nat, loc: Loc)
    requires Walk(fmt, h, root, 4, va) == Ok(loc) && 1 <= loc.level <= 3 && !IsUnused(Load(h, loc.frame, loc.index))
    ensures IsPageOf(Query(fmt, h, root, va), va, loc.level, Addr(Load(h, loc.frame, loc.index)))
  {
    hide Walk, Load, Addr, Flags;
  }

  // ---- Typed heaps: every frame has one format and one level -----------------

  datatype Role = Role(fmt: Format, level: nat)
  type Roles = map<nat, Role>

  ghost predicate EntryOk(h: Heap, roles: Roles, p: nat, i: nat)
    requires p in roles
  {
    var w, role := Load(h, p, i), roles[p];
    && w.Fits()
    && (role.level <= 1 || IsUnused(w) || (IsHuge(w) && role.level <= 3)
        || (IsTable(role.fmt, w) && Addr(w) in roles && roles[Addr(w)] == Role(role.fmt, role.level - 1)))
  }

  ghost predicate FrameOk(h: Heap, roles: Roles, p: nat)
    requires p in roles
  {
    p in h && |h[p]| == 512 && p % 0x1000 == 0 && p < TWO52 && 1 <= roles[p].level <= 4
  }

  /** Every table frame links, at every level above the last, only to frames of the
      next level; several roots may share subtrees. */
  ghost predicate Typed(h: Heap, roles: Roles) {
    && (forall p <- roles :: FrameOk(h, roles, p))
    && (forall p <- roles, i: nat :: EntryOk(h, roles, p, i))
  }

  lemma TypedFrame(h: Heap, roles: Roles, p: nat)
    requires Typed(h, roles) && p in roles
    ensures FrameOk(h, roles, p)
  {
  }

  lemma TypedFits(h: Heap, roles: Roles, p: nat, i: nat)
    requires Typed(h, roles) && p in roles
    ensures Load(h, p, i).Fits()
  {
    assert EntryOk(h, roles, p, i);
  }

  lemma TypedLink(h: Heap, roles: Roles, p: nat, i: nat, q: nat)
    requires Typed(h, roles) && p in roles && i < 512 && 2 <= roles[p].level && q !in roles
    requires IsUnused(Load(h, p, i)) && q % 0x1000 == 0 && q < TWO52
    ensures var role := roles[p];
            Typed(Store(h[q := EmptyTable()], p, i, SetTable(role.fmt, ZERO, q)),
                  roles[q := Role(role.fmt, role.level - 1)])
  {
    var role := roles[p];
    var h' := Store(h[q := EmptyTable()], p, i, SetTable(role.fmt, ZERO, q));
    var roles' := roles[q := Role(role.fmt, role.level - 1)];
    SetTableMeaning(role.fmt, ZERO, q);
    forall p' <- roles' ensures FrameOk(h', roles', p') {
      assert p' in roles ==> FrameOk(h, roles, p');
    }
    forall p' <- roles', i': nat ensures EntryOk(h', roles', p', i') {
      if p' in roles { assert EntryOk(h, roles, p', i'); }
    }
  }

  lemma TypedZero(h: Heap, roles: Roles, q: nat, role: Role)
    requires Typed(h, roles) && q !in roles && q % 0x1000 == 0 && q < TWO52 && 1 <= role.level <= 4
    ensures Typed(h[q := EmptyTable()], roles[q := role])
  {
    var h', roles' := h[q := EmptyTable()], roles[q := role];
    forall p <- roles' ensures FrameOk(h', roles', p) {
      assert p in roles ==> FrameOk(h, roles, p);
    }
    forall p <- roles', i: nat ensures EntryOk(h', roles', p, i) {
      assert p in roles ==> EntryOk(h, roles, p, i);
    }
  }

  lemma TypedCopy(h: Heap, roles: Roles, p: nat, q: nat)
    requires Typed(h, roles) && p in roles && q in roles && p in h && roles[q] == roles[p] && roles[q].level == 4
    ensures Typed(h[q := h[p]], roles)
  {
    var h' := h[q := h[p]];
    forall p' <- roles ensures FrameOk(h', roles, p') {
      assert FrameOk(h, roles, p') && FrameOk(h, roles, p);
    }
    forall p' <- roles, i: nat ensures EntryOk(h', roles, p', i) {
      assert EntryOk(h, roles, p', i) && EntryOk(h, roles, p, i);
    }
  }

  lemma TypedLeaf(h: Heap, roles: Roles, p: nat, i: nat, w: Word)
    requires Typed(h, roles) && p in roles && i < 512
    requires w.Fits() && (roles[p].level == 1 || (roles[p].level <= 3 && (IsUnused(w) || IsHuge(w))))
    ensures Typed(Store(h, p, i, w), roles)
  {
    var h' := Store(h, p, i, w);
    forall p' <- roles ensures FrameOk(h', roles, p') {
      assert FrameOk(h, roles, p');
    }
    forall p' <- roles, i': nat ensures EntryOk(h', roles, p', i') {
      assert EntryOk(h, roles, p', i');
    }
  }

  /** A walk through a typed heap stays inside it and ends at an entry of its level. */
  lemma {:induction false} WalkTyped(fmt: Format, h: Heap, roles: Roles, p: nat, level: nat, va: nat)
    requires Typed(h, roles) && 1 <= level <= 4 && p in roles && roles[p] == Role(fmt, level)
    ensures match Walk(fmt, h, p, level, va)
            case Err(e) => e.NotMapped? || e.MappedToHugePage?
            case Ok(loc) =>
              && loc.frame in roles && roles[loc.frame] == Role(fmt, loc.level)
              && 1 <= loc.level <= 3 && loc.index == Index(loc.level, va)
              && (loc.level > 1 ==> IsHuge(Load(h, loc.frame, loc.index)))
    decreases level
  {
    assert EntryOk(h, roles, p, Index(level, va));
    var w := Load(h, p, Index(level, va));
    if level > 1 && IsTable(fmt, w) && !IsUnused(w) {
      WalkTyped(fmt, h, roles, Addr(w), level - 1, va);
    }
  }

  // ---- Trees: the blocks under one root ----------------------------------------

  /** The tables under a root, by the block they cover, and the terminal entries. */
  type TableMap = map<Block, nat>
  type LeafMap = map<Block, Word>

  /** One page table inside its memory. */
  datatype View = View(fmt: Format, root: nat, h: Heap, roles: Roles, tables: TableMap, leaves: LeafMap)

  ghost function SlotWord(v: View, b: Block): Word {
    if Parent(b) in v.tables then Load(v.h, v.tables[Parent(b)], b.num % 512) else ZERO
  }

  /** The slot of block `b` is unused, links to the table of `b`, or is the leaf of `b`. */
  ghost predicate SlotOk(v: View, b: Block) {
    var w := SlotWord(v, b);
    && (b in v.tables ==> b.level > 1 && IsTable(v.fmt, w) && Addr(w) == v.tables[b])
    && (b in v.leaves ==> b.level <= 3 && (b.level == 1 || IsHuge(w)) && !IsUnused(w) && v.leaves[b] == w)
    && (IsUnused(w) || b in v.tables || b in v.leaves)
  }

  ghost predicate Injective(tables: TableMap) {
    forall b <- tables, c <- tables :: tables[b] == tables[c] ==> b == c
  }

  ghost predicate TableOk(v: View, b: Block)
    requires b in v.tables
  {
    && 2 <= b.level <= 5 && (b.level == 5 ==> b == WHOLE)
    && v.tables[b] in v.roles && v.roles[v.tables[b]] == Role(v.fmt, b.level - 1)
  }

  /** The frames in `tables` form a tree under the root: each is linked from the slot
      of its own block, no frame covers two blocks, and the slots that hold no link
      hold exactly `leaves`. */
  ghost predicate Tree(v: View) {
    && WHOLE in v.tables && v.tables[WHOLE] == v.root
    && Injective(v.tables)
    && (forall b <- v.tables :: TableOk(v, b))
    && (forall b <- v.leaves :: 1 <= b.level <= 3)
    && (forall b: Block | 1 <= b.level <= 4 :: SlotOk(v, b))
  }

  lemma TreeEmpty(fmt: Format, h: Heap, roles: Roles, root: nat)
    requires root in h && h[root] == EmptyTable() && root in roles && roles[root] == Role(fmt, 4)
    ensures Tree(View(fmt, root, h, roles, map[WHOLE := root], map[]))
  {
  }

  ghost predicate Writable(v: View, b: Block) {
    Parent(b) in v.tables && v.tables[Parent(b)] in v.h && |v.h[v.tables[Parent(b)]]| == 512
  }

  ghost function StoreSlot(v: View, b: Block, w: Word): View
    requires Writable(v, b)
  {
    v.(h := Store(v.h, v.tables[Parent(b)], b.num % 512, w))
  }

  /** A store into one slot is read back at that slot and nowhere else. */
  lemma SlotAfterStore(v: View, b: Block, w: Word, c: Block)
    requires Injective(v.tables) && Writable(v, b)
    ensures SlotWord(StoreSlot(v, b, w), c) == if c == b then w else SlotWord(v, c)
  {
    if Parent(c) == Parent(b) && c.num % 512 == b.num % 512 {
      SlotOfParent(b, c);
    }
  }

  ghost function AllocTable(v: View, b: Block, q: nat): View
    requires 2 <= b.level
  {
    View(v.fmt, v.root, v.h[q := EmptyTable()], v.roles[q := Role(v.fmt, b.level - 1)], v.tables[b := q], v.leaves)
  }

  /** Adding a zeroed frame as the table of a block that had none adds no entry. */
  lemma SlotAfterAlloc(v: View, b: Block, q: nat, c: Block)
    requires 2 <= b.level && b !in v.tables && forall d <- v.tables :: v.tables[d] != q
    ensures SlotWord(AllocTable(v, b, q), c) == SlotWord(v, c)
  {
  }

  /** A zeroed frame `q` becomes the table of block `b`. */
  ghost function LinkTable(v: View, b: Block, q: nat): View
    requires 2 <= b.level && Writable(v, b) && b != Parent(b) && q < TWO52
  {
    StoreSlot(AllocTable(v, b, q), b, SetTable(v.fmt, ZERO, q))
  }

  lemma TreeWritable(v: View, b: Block)
    requires Typed(v.h, v.roles) && Tree(v) && Parent(b) in v.tables
    ensures Writable(v, b)
  {
    assert TableOk(v, Parent(b)) && FrameOk(v.h, v.roles, v.tables[Parent(b)]);
  }

  lemma SlotAfterLink(v: View, b: Block, q: nat, c: Block)
    requires Injective(v.tables) && b !in v.tables && b !in v.leaves && forall d <- v.tables :: v.tables[d] != q
    requires 2 <= b.level && Writable(v, b) && q % 0x1000 == 0 && q < TWO52
    requires SlotOk(v, c)
    ensures SlotOk(LinkTable(v, b, q), c)
  {
    SetTableMeaning(v.fmt, ZERO, q);
    SlotAfterAlloc(v, b, q, c);
    SlotAfterStore(AllocTable(v, b, q), b, SetTable(v.fmt, ZERO, q), c);
  }

  /** Linking a zeroed frame into an unused slot grows the tree by one table and no leaf. */
  lemma TreeLink(v: View, b: Block, q: nat)
    requires Typed(v.h, v.roles) && Tree(v)
    requires 2 <= b.level <= 4 && Parent(b) in v.tables && IsUnused(SlotWord(v, b))
    requires q !in v.roles && q % 0x1000 == 0 && q < TWO52
    ensures Writable(v, b) && b !in v.tables && b !in v.leaves && q !in v.tables.Values
    ensures Tree(LinkTable(v, b, q))
  {
    hide Typed, SlotOk, SlotWord, TableOk, LinkTable, Parent;
    TreeWritable(v, b);
    UnusedSlot(v, b);
    forall c <- v.tables ensures v.tables[c] != q { TableHasRole(v, c); }
    LinkFields(v, b, q);
    var v' := LinkTable(v, b, q);
    forall c <- v'.tables ensures TableOk(v', c) { TableAfterLink(v, b, q, c); }
    forall c: Block | 1 <= c.level <= 4 ensures SlotOk(v', c) { SlotAfterLink(v, b, q, c); }
  }

  lemma UnusedSlot(v: View, b: Block)
    requires SlotOk(v, b) && IsUnused(SlotWord(v, b))
    ensures b !in v.tables && b !in v.leaves
  {
  }

  lemma TableHasRole(v: View, c: Block)
    requires c in v.tables && TableOk(v, c)
    ensures v.tables[c] in v.roles
  {
  }

  lemma LinkFields(v: View, b: Block, q: nat)
    requires 2 <= b.level && Writable(v, b) && b != Parent(b) && q < TWO52
    ensures var v' := LinkTable(v, b, q);
            && v'.fmt == v.fmt && v'.root == v.root && v'.leaves == v.leaves
            && v'.tables == v.tables[b := q] && v'.roles == v.roles[q := Role(v.fmt, b.level - 1)]
  {
  }

  lemma TableAfterLink(v: View, b: Block, q: nat, c: Block)
    requires 2 <= b.level <= 4 && Writable(v, b) && b != Parent(b) && q < TWO52 && q !in v.roles
    requires c in v.tables ==> TableOk(v, c)
    requires c in v.tables || c == b
    ensures c in LinkTable(v, b, q).tables && TableOk(LinkTable(v, b, q), c)
  {
    hide LinkTable;
    LinkFields(v, b, q);
  }

  /** The leaves once block `b` holds `w`; an entry that is all zero is none. */
  ghost function PutLeaf(leaves: LeafMap, b: Block, w: Word): LeafMap {
    if IsUnused(w) then leaves - {b} else leaves[b := w]
  }

  /** A terminal entry is written at block `b`, or cleared. */
  ghost function SetLeafAt(v: View, b: Block, w: Word): View
    requires Writable(v, b)
  {
    View(v.fmt, v.root, StoreSlot(v, b, w).h, v.roles, v.tables, PutLeaf(v.leaves, b, w))
  }

  /** Writing a terminal entry, or clearing one, changes that leaf and nothing else. */
  lemma TreeLeaf(v: View, b: Block, w: Word)
    requires Typed(v.h, v.roles) && Tree(v)
    requires 1 <= b.level <= 3 && Parent(b) in v.tables && b !in v.tables
    requires IsUnused(w) || b.level == 1 || IsHuge(w)
    ensures Writable(v, b) && Tree(SetLeafAt(v, b, w))
  {
    hide Typed, SlotOk, SlotWord, Parent;
    TreeWritable(v, b);
    var v' := SetLeafAt(v, b, w);
    forall c <- v'.tables ensures TableOk(v', c) {
      assert TableOk(v, c);
    }
    forall c: Block | 1 <= c.level <= 4 ensures SlotOk(v', c) {
      SlotAfterLeaf(v, b, w, c);
    }
  }

  lemma SlotAfterLeaf(v: View, b: Block, w: Word, c: Block)
    requires Injective(v.tables) && Writable(v, b) && SlotOk(v, c) && 1 <= b.level <= 3 && b !in v.tables
    requires IsUnused(w) || b.level == 1 || IsHuge(w)
    ensures SlotOk(SetLeafAt(v, b, w), c)
  {
    SlotAfterStore(v, b, w, c);
    LeafSlotWord(v, b, w, c);
    hide SlotWord, StoreSlot, Parent;
  }

  lemma LeafSlotWord(v: View, b: Block, w: Word, c: Block)
    requires Writable(v, b)
    ensures SlotWord(SetLeafAt(v, b, w), c) == SlotWord(StoreSlot(v, b, w), c)
  {
  }

  /** A tree depends only on the frames of its own tables. */
  lemma TreeFrame(v: View, h': Heap, roles': Roles)
    requires Tree(v)
    requires forall b <- v.tables :: v.tables[b] in v.h && v.tables[b] in h' && h'[v.tables[b]] == v.h[v.tables[b]]
    requires forall b <- v.tables :: v.tables[b] in roles' && roles'[v.tables[b]] == v.roles[v.tables[b]]
    ensures Tree(v.(h := h', roles := roles'))
  {
    var v' := v.(h := h', roles := roles');
    forall b <- v.tables ensures TableOk(v', b) {
      assert TableOk(v, b);
    }
    forall b: Block | 1 <= b.level <= 4 ensures SlotOk(v', b) {
      assert SlotOk(v, b);
    }
  }

  // ---- The flat meaning of a tree ----------------------------------------------

  /** The meaning of a set of leaves: the leaf whose block holds the address, if any. */
  function Lookup(fmt: Format, leaves: LeafMap, va: nat): Result<Mapping> {
    if BlockOf(3, va) in leaves then Ok(Translate(fmt, leaves[BlockOf(3, va)], 3, va))
    else if BlockOf(2, va) in leaves then Ok(Translate(fmt, leaves[BlockOf(2, va)], 2, va))
    else if BlockOf(1, va) in leaves then Ok(Translate(fmt, leaves[BlockOf(1, va)], 1, va))
    else Err(NotMapped)
  }

  /** Below a block that has no table there is nothing. */
  lemma {:induction false} NothingBelow(v: View, level: nat, low: nat, va: nat)
    requires Tree(v)
    requires 1 <= low < level <= 4 && BlockOf(level, va) !in v.tables
    ensures BlockOf(low, va) !in v.tables && BlockOf(low, va) !in v.leaves
    decreases level - low
  {
    hide Typed, TableOk, Load, Index;
    ParentOf(low, va);
    if low + 1 < level {
      NothingBelow(v, level, low + 1, va);
    }
    assert SlotOk(v, BlockOf(low, va));
  }

  /** A walk result agrees with the tree: it is the slot of one block of the address,
      and no other block of the address at or below `level` is a leaf. */
  ghost predicate EndsRight(v: View, level: nat, va: nat, r: Result<Loc>) {
    match r
    case Err(e) =>
      e.NotMapped? && BlockOf(2, va) !in v.tables && forall l | 1 <= l <= level <= 5 :: BlockOf(l, va) !in v.leaves
    case Ok(loc) =>
      && 1 <= loc.level <= 3 && loc.level <= level
      && var b := BlockOf(loc.level, va);
      && Parent(b) in v.tables && loc == Loc(v.tables[Parent(b)], b.num % 512, loc.level)
      && b !in v.tables && (loc.level > 1 ==> b in v.leaves)
      && forall l | 1 <= l <= level <= 5 && l != loc.level :: BlockOf(l, va) !in v.leaves
  }

  lemma TreeSlot(v: View, b: Block)
    requires Tree(v) && 1 <= b.level <= 4
    ensures SlotOk(v, b)
  {
  }

  lemma WalkStops(v: View, level: nat, va: nat)
    requires Typed(v.h, v.roles) && Tree(v)
    requires 1 <= level <= 4 && BlockOf(level + 1, va) in v.tables && BlockOf(level, va) !in v.tables
    ensures EndsRight(v, level, va, Walk(v.fmt, v.h, v.tables[BlockOf(level + 1, va)], level, va))
  {
    hide Tree, Typed, Load, Parent;
    ParentOf(level, va);
    IndexOf(level, va);
    TreeSlot(v, BlockOf(level, va));
    forall l | 1 <= l < level ensures BlockOf(l, va) !in v.leaves && BlockOf(l, va) !in v.tables {
      NothingBelow(v, level, l, va);
    }
    hide BlockOf;
  }

  lemma WalkEnters(v: View, level: nat, va: nat)
    requires Tree(v)
    requires 1 <= level <= 4 && BlockOf(level + 1, va) in v.tables && BlockOf(level, va) in v.tables
    ensures level > 1 && BlockOf(level, va) !in v.leaves
    ensures Walk(v.fmt, v.h, v.tables[BlockOf(level + 1, va)], level, va)
            == Walk(v.fmt, v.h, v.tables[BlockOf(level, va)], level - 1, va)
  {
    ParentOf(level, va);
    IndexOf(level, va);
    assert SlotOk(v, BlockOf(level, va));
  }

  lemma {:induction false} WalkEnds(v: View, level: nat, va: nat)
    requires Typed(v.h, v.roles) && Tree(v)
    requires 1 <= level <= 4 && BlockOf(level + 1, va) in v.tables
    ensures EndsRight(v, level, va, Walk(v.fmt, v.h, v.tables[BlockOf(level + 1, va)], level, va))
    decreases level
  {
    hide Tree, Typed, BlockOf, Load, Index;
    if BlockOf(level, va) in v.tables {
      WalkEnters(v, level, va);
      WalkEnds(v, level - 1, va);
    } else {
      WalkStops(v, level, va);
    }
  }

  lemma WalkFromRoot(v: View, va: nat)
    requires Typed(v.h, v.roles) && Tree(v)
    ensures EndsRight(v, 4, va, Walk(v.fmt, v.h, v.root, 4, va))
  {
    assert BlockOf(5, va) == WHOLE;
    WalkEnds(v, 4, va);
  }

  /** The walk through raw frames computes the flat meaning of the tree's leaves. */
  lemma QueryIsLookup(v: View, va: nat)
    requires Typed(v.h, v.roles) && Tree(v)
    ensures Query(v.fmt, v.h, v.root, va) == Lookup(v.fmt, v.leaves, va)
  {
    WalkFromRoot(v, va);
    match Walk(v.fmt, v.h, v.root, 4, va)
    case Err(_) =>
    case Ok(loc) => assert SlotOk(v, BlockOf(loc.level, va));
  }
}
