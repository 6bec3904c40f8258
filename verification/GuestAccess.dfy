/** `GuestPtr`: reading and writing guest memory by guest-virtual address, across pages
    of any size, through guest tables that lie in the same memory. */
module GuestAccess {
  import opened Pte
  import opened Blocks
  import opened Tables
  import opened Words

  type Byte = b: nat | b < 256

  /** Physical memory by byte; an address that is absent reads as zero. */
  type Bytes = map<nat, Byte>

  function Peek(m: Bytes, a: nat): Byte {
    if a in m then m[a] else 0
  }

  /** `copy_nonoverlapping` of the bytes to address `a`. */
  function Poke(m: Bytes, a: nat, data: seq<Byte>): (m': Bytes)
    ensures forall x: nat :: Peek(m', x) == if a <= x < a + |data| then data[x - a] else Peek(m, x)
    decreases |data|
  {
    if data == [] then m else Poke(m[a := data[0]], a + 1, data[1..])
  }

  // ---- The same memory, read as tables -----------------------------------------------

  /** The little-endian number in `n` bytes. */
  function Number(m: Bytes, a: nat, n: nat): nat
    decreases n
  {
    if n == 0 then 0 else Peek(m, a) + 256 * Number(m, a + 1, n - 1)
  }

  function TableAt(m: Bytes, p: nat): seq<Word> {
    seq(512, i requires 0 <= i < 512 => Decode(Number(m, p + 8 * i, 8)))
  }

  function AsTables(m: Bytes): Heap {
    map p | p in (set a | a in m :: PageDown(a)) :: TableAt(m, p)
  }

  function Find(m: Bytes, root: nat, va: nat): Result<Mapping> {
    Query(X86, AsTables(m), root, va)
  }

  /** The frames that a walk reads. */
  ghost function Visits(h: Heap, p: nat, level: nat, va: nat): set<nat>
    requires 1 <= level <= 4
    decreases level
  {
    var w := Load(h, p, Index(level, va));
    if level == 1 || (level < 4 && IsHuge(w)) || NextTable(X86, w).Err? then {p}
    else {p} + Visits(h, NextTable(X86, w).value, level - 1, va)
  }

  function Pow256(n: nat): (p: nat)
    ensures p > 0
  {
    if n == 0 then 1 else 256 * Pow256(n - 1)
  }

  /** The number is made of these bytes and no others, the lowest first. */
  lemma {:induction false} NumberBytes(m: Bytes, a: nat, n: nat, j: nat)
    ensures Number(m, a, n) < Pow256(n)
    ensures j < n ==> Number(m, a, n) / Pow256(j) % 256 == Peek(m, a + j)
    decreases n
  {
    if n > 0 {
      NumberBytes(m, a + 1, n - 1, if j == 0 then 0 else j - 1);
      var rest := Number(m, a + 1, n - 1);
      if j == 0 {
        DivUnique(256, rest, Peek(m, a));
      } else {
        HigherByte(Peek(m, a), rest, j);
      }
    }
  }

  lemma HigherByte(low: Byte, rest: nat, j: nat)
    requires j > 0
    ensures (low + 256 * rest) / Pow256(j) == rest / Pow256(j - 1)
  {
    var x := low + 256 * rest;
    DivUnique(256, rest, low);
    DivDiv(x, 256, Pow256(j - 1));
  }

  /** The bytes of a word as it lies in memory. */
  function BytesOf(w: nat, n: nat): (s: seq<Byte>)
    ensures |s| == n
    decreases n
  {
    if n == 0 then [] else [w % 256] + BytesOf(w / 256, n - 1)
  }

  ghost predicate HasBytes(m: Bytes, a: nat, s: seq<Byte>) {
    forall j | 0 <= j < |s| :: Peek(m, a + j) == s[j]
  }

  lemma {:induction false} NumberOfBytes(m: Bytes, a: nat, w: nat, n: nat)
    requires w < Pow256(n) && HasBytes(m, a, BytesOf(w, n))
    ensures Number(m, a, n) == w
    decreases n
  {
    if n > 0 {
      var s, rest := BytesOf(w, n), BytesOf(w / 256, n - 1);
      assert s[0] == w % 256 && forall j | 0 <= j < |rest| :: rest[j] == s[j + 1];
      NumberOfBytes(m, a + 1, w / 256, n - 1);
    }
  }

  lemma {:induction false} NumberSame(m: Bytes, m': Bytes, a: nat, n: nat)
    requires forall x | a <= x < a + n :: Peek(m, x) == Peek(m', x)
    ensures Number(m, a, n) == Number(m', a, n)
    decreases n
  {
    if n > 0 { NumberSame(m, m', a + 1, n - 1); }
  }

  lemma {:induction false} NumberZero(m: Bytes, a: nat, n: nat)
    requires forall x | a <= x < a + n :: Peek(m, x) == 0
    ensures Number(m, a, n) == 0
    decreases n
  {
    if n > 0 { NumberZero(m, a + 1, n - 1); }
  }

  lemma PeekAbsent(m: Bytes, x: nat)
    requires x !in m
    ensures Peek(m, x) == 0
  {
  }

  /** A table entry is the word at its address. */
  lemma LoadIsWord(m: Bytes, p: nat, i: nat)
    requires p % 0x1000 == 0 && i < 512
    ensures Load(AsTables(m), p, i) == Decode(Number(m, p + 8 * i, 8))
  {
    hide Decode, Number, Peek;
    if p !in AsTables(m) {
      forall x | p <= x < p + 0x1000 ensures Peek(m, x) == 0 {
        assert PageDown(x) == p;
        PeekAbsent(m, x);
      }
      NumberZero(m, p + 8 * i, 8);
      DecodeZero();
    }
  }

  /** A 64-bit word stored in an entry is the entry that the tables then hold. */
  lemma StoredWord(m: Bytes, p: nat, i: nat, w: nat)
    requires p % 0x1000 == 0 && i < 512 && w < TWO64
    ensures Load(AsTables(Poke(m, p + 8 * i, BytesOf(w, 8))), p, i) == Decode(w)
  {
    hide Load, AsTables, Decode, Number, Peek, BytesOf, Poke;
    var a, m' := p + 8 * i, Poke(m, p + 8 * i, BytesOf(w, 8));
    assert Pow256(8) == TWO64;
    assert HasBytes(m', a, BytesOf(w, 8));
    NumberOfBytes(m', a, w, 8);
    LoadIsWord(m', p, i);
  }

  lemma LoadSame(m: Bytes, m': Bytes, p: nat, i: nat)
    requires p % 0x1000 == 0 && i < 512 && forall x | p <= x < p + 0x1000 :: Peek(m, x) == Peek(m', x)
    ensures Load(AsTables(m), p, i) == Load(AsTables(m'), p, i)
  {
    hide Load, AsTables, Decode, Number, Peek;
    LoadIsWord(m, p, i);
    LoadIsWord(m', p, i);
    NumberSame(m, m', p + 8 * i, 8);
  }

  /** The two memories hold the same bytes in these frames. */
  ghost predicate SameIn(m: Bytes, m': Bytes, frames: set<nat>) {
    forall x: nat | PageDown(x) in frames :: Peek(m, x) == Peek(m', x)
  }

  lemma LoadSameIn(m: Bytes, m': Bytes, frames: set<nat>, p: nat, i: nat)
    requires p % 0x1000 == 0 && i < 512 && p in frames && SameIn(m, m', frames)
    ensures Load(AsTables(m), p, i) == Load(AsTables(m'), p, i)
  {
    forall x | p <= x < p + 0x1000 ensures Peek(m, x) == Peek(m', x) {
      assert PageDown(x) == p;
    }
    LoadSame(m, m', p, i);
  }

  lemma SameInLess(m: Bytes, m': Bytes, frames: set<nat>, fewer: set<nat>)
    requires SameIn(m, m', frames) && fewer <= frames
    ensures SameIn(m, m', fewer)
  {
  }

  /** A walk depends only on the frames it reads. */
  lemma {:induction false} WalkSame(m: Bytes, m': Bytes, p: nat, level: nat, va: nat)
    requires 1 <= level <= 4 && p % 0x1000 == 0
    requires SameIn(m, m', Visits(AsTables(m), p, level, va))
    ensures Walk(X86, AsTables(m'), p, level, va) == Walk(X86, AsTables(m), p, level, va)
    ensures Visits(AsTables(m'), p, level, va) == Visits(AsTables(m), p, level, va)
    ensures match Walk(X86, AsTables(m), p, level, va)
            case Err(_) => true
            case Ok(loc) => loc.frame % 0x1000 == 0 && loc.index < 512 && loc.frame in Visits(AsTables(m), p, level, va)
    decreases level
  {
    hide AsTables, Load, Index, SameIn;
    LoadSameIn(m, m', Visits(AsTables(m), p, level, va), p, Index(level, va));
    var w := Load(AsTables(m), p, Index(level, va));
    if level > 1 && !(level < 4 && IsHuge(w)) && NextTable(X86, w).Ok? {
      var q := NextTable(X86, w).value;
      SameInLess(m, m', Visits(AsTables(m), p, level, va), Visits(AsTables(m), q, level - 1, va));
      WalkSame(m, m', q, level - 1, va);
    }
  }

  // ---- One page -------------------------------------------------------------------------

  lemma DivParent(level: nat, va: nat)
    requires 1 <= level <= 4
    ensures va / Size(level) / 512 == va / Size(level + 1)
  {
  }

  /** Addresses on one page use the same slots at every level above it. */
  lemma {:induction false} SameSlots(page: nat, level: nat, va: nat, vb: nat)
    requires 1 <= page <= level <= 4 && va / Size(page) == vb / Size(page)
    ensures va / Size(level) == vb / Size(level) && Index(level, va) == Index(level, vb)
    decreases level
  {
    if page < level {
      SameSlots(page, level - 1, va, vb);
      DivParent(level - 1, va);
      DivParent(level - 1, vb);
    }
  }

  lemma {:induction false} WalkSamePage(h: Heap, p: nat, level: nat, va: nat, vb: nat, loc: Loc)
    requires 1 <= level <= 4 && Walk(X86, h, p, level, va) == Ok(loc)
    requires 1 <= loc.level <= 4 && va / Size(loc.level) == vb / Size(loc.level)
    ensures loc.level <= level && Walk(X86, h, p, level, vb) == Ok(loc)
    decreases level
  {
    WalkDescends(h, p, level, va);
    SameSlots(loc.level, level, va, vb);
    hide Load, Index, Size;
    if loc.level < level {
      WalkSamePage(h, NextTable(X86, Load(h, p, Index(level, va))).value, level - 1, va, vb, loc);
    }
  }

  lemma {:induction false} WalkDescends(h: Heap, p: nat, level: nat, va: nat)
    requires 1 <= level <= 4
    ensures match Walk(X86, h, p, level, va)
            case Err(_) => true
            case Ok(loc) =>
              && 1 <= loc.level <= 3 && loc.level <= level
              && (loc.level == level || NextTable(X86, Load(h, p, Index(level, va))).Ok?)
              && (loc.level == level ||
                  Walk(X86, h, NextTable(X86, Load(h, p, Index(level, va))).value, level - 1, va) == Ok(loc))
    decreases level
  {
    hide Load, Index;
    var w := Load(h, p, Index(level, va));
    if level > 1 && !(level < 4 && IsHuge(w)) && NextTable(X86, w).Ok? {
      WalkDescends(h, NextTable(X86, w).value, level - 1, va);
    }
  }

  lemma QueryParts(h: Heap, root: nat, va: nat)
    ensures match Query(X86, h, root, va)
            case Err(_) => true
            case Ok(a) =>
              && Walk(X86, h, root, 4, va).Ok?
              && var loc := Walk(X86, h, root, 4, va).value;
              && 1 <= a.level <= 3 && loc.level == a.level
              && a == Translate(X86, Load(h, loc.frame, loc.index), loc.level, va)
              && !IsUnused(Load(h, loc.frame, loc.index))
  {
    hide Load, Walk, Addr, Flags;
  }

  lemma QueryFrom(h: Heap, root: nat, va: nat, loc: Loc)
    requires Walk(X86, h, root, 4, va) == Ok(loc) && 1 <= loc.level <= 3 && !IsUnused(Load(h, loc.frame, loc.index))
    ensures Query(X86, h, root, va) == Ok(Translate(X86, Load(h, loc.frame, loc.index), loc.level, va))
  {
    hide Load, Walk, Translate;
  }

  /** Translation is an offset over the rest of the page. */
  lemma QuerySamePage(h: Heap, root: nat, va: nat, n: nat)
    requires Query(X86, h, root, va).Ok? && 1 <= Query(X86, h, root, va).value.level <= 3
    requires var d := Size(Query(X86, h, root, va).value.level); va % d + n < d
    ensures var a := Query(X86, h, root, va).value;
            Query(X86, h, root, va + n) == Ok(Mapping(a.paddr + n, a.flags, a.level))
  {
    hide Load, Flags, Walk, Query, Size, IsUnused, Addr;
    QueryParts(h, root, va);
    var loc := Walk(X86, h, root, 4, va).value;
    var d := Size(loc.level);
    SizePositive(loc.level);
    DivUnique(d, va / d, va % d + n);
    assert d * (va / d) + (va % d + n) == va + n;
    WalkSamePage(h, root, 4, va, va + n, loc);
    QueryFrom(h, root, va + n, loc);
  }

  // ---- Reading -------------------------------------------------------------------------------

  datatype GuestError = NullPointer | Misaligned | Fault(error: PagingError)
  datatype Access<+T> = Got(value: T) | Refused(error: GuestError)

  /** `check_raw`: null and misaligned pointers are refused before anything is read. */
  function CheckRaw(addr: nat, align: nat): Access<nat>
    requires align > 0
  {
    if addr == 0 then Refused(NullPointer) else if addr % align != 0 then Refused(Misaligned) else Got(addr)
  }

  /** The pointer is one that may be followed. */
  ghost predicate Aligned(va: nat, align: nat)
    requires align > 0
  {
    va != 0 && va % align == 0
  }

  /** How any other is refused. */
  ghost predicate RefusedAs(va: nat, align: nat, e: GuestError)
    requires align > 0
  {
    (va == 0 ==> e == NullPointer) && (va != 0 && va % align != 0 ==> e == Misaligned)
  }

  lemma CheckExact(va: nat, align: nat)
    requires align > 0
    ensures CheckRaw(va, align).Got? <==> Aligned(va, align)
    ensures CheckRaw(va, align).Refused? ==> RefusedAs(va, align, CheckRaw(va, align).error)
  {
  }

  /** The address of byte `i` of the range; 64-bit addresses wrap. */
  function At(va: nat, i: nat): nat {
    (va + i) % TWO64
  }

  /** What the guest's tables say of byte `i` of the range. */
  function Spot(m: Bytes, root: nat, va: nat, i: nat): Result<Mapping> {
    Find(m, root, At(va, i))
  }

  /** The first `n` bytes of the range are mapped. */
  ghost predicate Mapped(m: Bytes, root: nat, va: nat, n: nat) {
    forall i: nat | i < n :: Spot(m, root, va, i).Ok?
  }

  /** The next one faults. */
  ghost predicate FaultsAt(m: Bytes, root: nat, va: nat, n: nat, e: PagingError) {
    Mapped(m, root, va, n) && Spot(m, root, va, n) == Err(e)
  }

  function Copied(m: Bytes, a: nat, n: nat): (s: seq<Byte>)
    ensures |s| == n && forall j: nat | j < n :: s[j] == Peek(m, a + j)
    decreases n
  {
    if n == 0 then [] else Copied(m, a, n - 1) + [Peek(m, a + n - 1)]
  }

  /** How much of the range lies in the page that `a` translates. */
  function Chunk(a: Mapping, va: nat, left: nat): (n: nat)
    requires 1 <= a.level <= 3
    ensures n <= left && (left > 0 ==> n > 0)
  {
    var room := Size(a.level) - va % Size(a.level);
    if room < left then room else left
  }

  /** Bytes `k` to `k + n` of the range lie together, starting where `a` points. */
  ghost predicate Together(m: Bytes, root: nat, va: nat, k: nat, n: nat, a: Mapping) {
    forall i: nat | k <= i < k + n :: Spot(m, root, va, i) == Ok(Mapping(a.paddr + (i - k), a.flags, a.level))
  }

  lemma ChunkTogether(m: Bytes, root: nat, va: nat, k: nat, left: nat)
    requires Spot(m, root, va, k).Ok?
    ensures var a := Spot(m, root, va, k).value;
            && 1 <= a.level <= 3
            && At(At(va, k), Chunk(a, At(va, k), left)) == At(va, k + Chunk(a, At(va, k), left))
            && Together(m, root, va, k, Chunk(a, At(va, k), left), a)
  {
    hide Query, AsTables, At;
    QueryParts(AsTables(m), root, At(va, k));
    var a := Spot(m, root, va, k).value;
    var n := Chunk(a, At(va, k), left);
    AddWraps(va, k, n);
    hide Size;
    forall i: nat | k <= i < k + n ensures Spot(m, root, va, i) == Ok(Mapping(a.paddr + (i - k), a.flags, a.level)) {
      Offset(a.level, va, k, i - k);
      QuerySamePage(AsTables(m), root, At(va, k), i - k);
    }
  }

  lemma Offset(level: nat, va: nat, k: nat, j: nat)
    requires 1 <= level <= 3 && At(va, k) % Size(level) + j < Size(level)
    ensures At(va, k + j) == At(va, k) + j
  {
    var b := At(va, k);
    StaysBelow(level, b, j);
    DivUnique(TWO64, (va + k) / TWO64, b + j);
    assert TWO64 * ((va + k) / TWO64) + (b + j) == va + (k + j);
  }

  lemma StaysBelow(level: nat, b: nat, j: nat)
    requires 1 <= level <= 3 && b < TWO64 && b % Size(level) + j < Size(level)
    ensures b + j < TWO64
  {
  }

  lemma AddWraps(va: nat, k: nat, n: nat)
    ensures At(At(va, k), n) == At(va, k + n)
  {
    var x := va + k;
    DivShift(TWO64, x / TWO64, x % TWO64 + n);
    assert TWO64 * (x / TWO64) + (x % TWO64 + n) == x + n;
  }

  /** `GuestPtr::read`: each byte comes from where the guest's tables send its address. */
  method Read(m: Bytes, root: nat, va: nat, size: nat, align: nat) returns (r: Access<seq<Byte>>)
    requires align > 0 && va < TWO64 && root % 0x1000 == 0
    ensures r.Got? <==> Aligned(va, align) && Mapped(m, root, va, size)
    ensures r.Got? ==> |r.value| == size
    ensures r.Got? ==> forall i: nat | i < size :: r.value[i] == Peek(m, Spot(m, root, va, i).value.paddr)
    ensures !Aligned(va, align) ==> r.Refused? && RefusedAs(va, align, r.error)
    ensures r.Refused? && Aligned(va, align) ==>
              r.error.Fault? && exists n: nat | n < size :: FaultsAt(m, root, va, n, r.error.error)
  {
    hide Find, Peek, Size, At, Chunk, CheckRaw, Aligned, RefusedAs;
    CheckExact(va, align);
    var c := CheckRaw(va, align);
    if c.Refused? {
      return Refused(c.error);
    }
    var data: seq<Byte>, gvaddr, left := [], va, size;
    StartOf(va);
    while left > 0
      invariant 0 <= left <= size && gvaddr == At(va, |data|) && |data| == size - left
      invariant Mapped(m, root, va, |data|)
      invariant forall i: nat | i < |data| :: data[i] == Peek(m, Spot(m, root, va, i).value.paddr)
    {
      var q := Find(m, root, gvaddr);
      if q.Err? {
        assert FaultsAt(m, root, va, |data|, q.error);
        return Refused(Fault(q.error));
      }
      ChunkTogether(m, root, va, |data|, left);
      var n := Chunk(q.value, gvaddr, left);
      data := data + Copied(m, q.value.paddr, n);
      gvaddr := At(gvaddr, n);
      left := left - n;
    }
    return Got(data);
  }

  lemma StartOf(va: nat)
    requires va < TWO64
    ensures At(va, 0) == va
  {
  }

  lemma FindLevel(m: Bytes, root: nat, va: nat)
    ensures Find(m, root, va).Ok? ==> 1 <= Find(m, root, va).value.level <= 3
  {
    QueryParts(AsTables(m), root, va);
  }

  // ---- Writing -------------------------------------------------------------------------------

  datatype Outcome = Outcome(m: Bytes, status: Status)

  /** What `_write` leaves, page by page; each page is looked up in the memory as it then is. */
  function WritePages(m: Bytes, root: nat, va: nat, data: seq<Byte>): Outcome
    decreases |data|
  {
    if data == [] then Outcome(m, Done) else
    match Find(m, root, va)
    case Err(e) => Outcome(m, Failed(e))
    case Ok(a) =>
      FindLevel(m, root, va);
      var n := Chunk(a, va, |data|);
      WritePages(Poke(m, a.paddr, data[..n]), root, At(va, n), data[n..])
  }

  /** The plain meaning of a write: the first `n` bytes, one at a time and in order, each
      where the tables sent its address before the write began. */
  ghost function WriteBytes(m: Bytes, root: nat, va: nat, data: seq<Byte>, n: nat): Bytes
    requires n <= |data|
    decreases n
  {
    if n == 0 then m
    else
      var was, spot := WriteBytes(m, root, va, data, n - 1), Spot(m, root, va, n - 1);
      if spot.Ok? then was[spot.value.paddr := data[n - 1]] else was
  }

  /** No byte of the range lies in a frame that translating the range reads. */
  ghost predicate MissesTables(m: Bytes, root: nat, va: nat, size: nat) {
    forall i: nat, j: nat | i < size && j < size && Spot(m, root, va, i).Ok? ::
      PageDown(Spot(m, root, va, i).value.paddr) !in Visits(AsTables(m), root, 4, At(va, j))
  }

  ghost predicate SameBytes(m: Bytes, m': Bytes) {
    forall x: nat :: Peek(m, x) == Peek(m', x)
  }

  class Ram {
    var bytes: Bytes
  }

  /** `GuestPtr::_write`. */
  method Write(ram: Ram, root: nat, va: nat, data: seq<Byte>, align: nat) returns (r: Access<nat>)
    requires align > 0 && va < TWO64 && root % 0x1000 == 0
    modifies ram
    ensures !Aligned(va, align) ==> r.Refused? && RefusedAs(va, align, r.error) && ram.bytes == old(ram.bytes)
    ensures Aligned(va, align) ==>
              var o := WritePages(old(ram.bytes), root, va, data);
              && ram.bytes == o.m
              && r == if o.status.Done? then Got(|data|) else Refused(Fault(o.status.error))
    // And when the range misses the tables: the bytes up to the first fault, one by one.
    ensures Aligned(va, align) && MissesTables(old(ram.bytes), root, va, |data|) ==>
              WroteBytes(old(ram.bytes), ram.bytes, root, va, data, r)
  {
    hide Find, Size, At, Chunk, CheckRaw, Aligned, RefusedAs, MissesTables, WroteBytes;
    CheckExact(va, align);
    ghost var before := ram.bytes;
    var c := CheckRaw(va, align);
    if c.Refused? {
      return Refused(c.error);
    }
    var gvaddr, src := va, data;
    while |src| > 0
      invariant WritePages(ram.bytes, root, gvaddr, src) == WritePages(old(ram.bytes), root, va, data)
    {
      var q := Find(ram.bytes, root, gvaddr);
      if q.Err? {
        if MissesTables(before, root, va, |data|) { PagesWrote(before, root, va, data); }
        return Refused(Fault(q.error));
      }
      FindLevel(ram.bytes, root, gvaddr);
      var n := Chunk(q.value, gvaddr, |src|);
      ram.bytes := Poke(ram.bytes, q.value.paddr, src[..n]);
      gvaddr := At(gvaddr, n);
      src := src[n..];
    }
    if MissesTables(before, root, va, |data|) { PagesWrote(before, root, va, data); }
    return Got(|data|);
  }

  lemma {:induction false} BytesElsewhere(m: Bytes, root: nat, va: nat, data: seq<Byte>, n: nat, x: nat)
    requires n <= |data|
    requires forall i: nat | i < n && Spot(m, root, va, i).Ok? :: Spot(m, root, va, i).value.paddr != x
    ensures Peek(WriteBytes(m, root, va, data, n), x) == Peek(m, x)
    decreases n
  {
    hide Spot;
    if n > 0 { BytesElsewhere(m, root, va, data, n - 1, x); }
  }

  lemma FindSame(m: Bytes, m': Bytes, root: nat, va: nat)
    requires root % 0x1000 == 0 && SameIn(m, m', Visits(AsTables(m), root, 4, va))
    ensures Find(m', root, va) == Find(m, root, va)
  {
    hide AsTables, Load, SameIn, Walk, Visits, Translate, IsUnused;
    WalkSame(m, m', root, 4, va);
    var w := Walk(X86, AsTables(m), root, 4, va);
    if w.Ok? {
      LoadSameIn(m, m', Visits(AsTables(m), root, 4, va), w.value.frame, w.value.index);
    }
  }

  /** Writing bytes that miss the tables leaves every translation in the range as it was. */
  lemma SpotKept(m: Bytes, m': Bytes, root: nat, va: nat, data: seq<Byte>, n: nat, j: nat)
    requires root % 0x1000 == 0 && n <= |data| && j < |data| && MissesTables(m, root, va, |data|)
    requires SameBytes(m', WriteBytes(m, root, va, data, n))
    ensures Spot(m', root, va, j) == Spot(m, root, va, j)
  {
    hide Find, Visits, AsTables, WriteBytes, PageDown, At, Peek;
    var way := Visits(AsTables(m), root, 4, At(va, j));
    forall x: nat | PageDown(x) in way ensures Peek(m, x) == Peek(m', x) {
      BytesElsewhere(m, root, va, data, n, x);
    }
    FindSame(m, m', root, At(va, j));
  }

  lemma {:induction false} BytesTogether(m: Bytes, root: nat, va: nat, data: seq<Byte>, k: nat, n: nat, a: Mapping,
                                         x: nat)
    requires k + n <= |data| && Together(m, root, va, k, n, a)
    ensures Peek(WriteBytes(m, root, va, data, k + n), x)
            == if a.paddr <= x < a.paddr + n then data[k + (x - a.paddr)] else Peek(WriteBytes(m, root, va, data, k), x)
    decreases n
  {
    hide Spot;
    if n > 0 { BytesTogether(m, root, va, data, k, n - 1, a, x); }
  }

  lemma PokeTogether(m: Bytes, mid: Bytes, root: nat, va: nat, data: seq<Byte>, k: nat, n: nat, a: Mapping)
    requires k + n <= |data| && Together(m, root, va, k, n, a) && SameBytes(mid, WriteBytes(m, root, va, data, k))
    ensures SameBytes(Poke(mid, a.paddr, data[k..k + n]), WriteBytes(m, root, va, data, k + n))
  {
    hide Spot, Together, WriteBytes, Peek;
    var got, want := Poke(mid, a.paddr, data[k..k + n]), WriteBytes(m, root, va, data, k + n);
    forall x: nat ensures Peek(got, x) == Peek(want, x) {
      BytesTogether(m, root, va, data, k, n, a, x);
    }
  }

  /** How far a write gets: to the end, or to the first byte that faults. */
  ghost predicate Reaches(m: Bytes, root: nat, va: nat, size: nat, n: nat, s: Status) {
    match s
    case Done => n == size && Mapped(m, root, va, size)
    case Failed(e) => n < size && FaultsAt(m, root, va, n, e)
  }

  lemma {:induction false} PagesFrom(m: Bytes, mid: Bytes, root: nat, va: nat, data: seq<Byte>, k: nat) returns (n: nat)
    requires root % 0x1000 == 0 && k <= |data| && MissesTables(m, root, va, |data|)
    requires Mapped(m, root, va, k) && SameBytes(mid, WriteBytes(m, root, va, data, k))
    ensures n <= |data| && Reaches(m, root, va, |data|, n, WritePages(mid, root, At(va, k), data[k..]).status)
    ensures SameBytes(WritePages(mid, root, At(va, k), data[k..]).m, WriteBytes(m, root, va, data, n))
    decreases |data| - k
  {
    hide Find, MissesTables, SameBytes, WriteBytes, At, Chunk, Together;
    n := k;
    if k < |data| {
      SpotKept(m, mid, root, va, data, k, k);
      var q := Find(mid, root, At(va, k));
      if q.Ok? {
        ChunkTogether(m, root, va, k, |data| - k);
        var c := Chunk(q.value, At(va, k), |data| - k);
        PokeTogether(m, mid, root, va, data, k, c, q.value);
        TogetherMapped(m, root, va, k, c, q.value);
        assert data[k..][..c] == data[k..k + c] && data[k..][c..] == data[k + c..];
        n := PagesFrom(m, Poke(mid, q.value.paddr, data[k..k + c]), root, va, data, k + c);
      }
    }
  }

  lemma TogetherMapped(m: Bytes, root: nat, va: nat, k: nat, n: nat, a: Mapping)
    requires Mapped(m, root, va, k) && Together(m, root, va, k, n, a)
    ensures Mapped(m, root, va, k + n)
  {
    hide Spot;
  }

  /** Page by page is byte by byte, as long as the range misses the tables; a write that
      faults has written exactly the bytes before the fault. */
  lemma PagesAreBytes(m: Bytes, root: nat, va: nat, data: seq<Byte>) returns (n: nat)
    requires root % 0x1000 == 0 && va < TWO64 && MissesTables(m, root, va, |data|)
    ensures n <= |data| && Reaches(m, root, va, |data|, n, WritePages(m, root, va, data).status)
    ensures SameBytes(WritePages(m, root, va, data).m, WriteBytes(m, root, va, data, n))
  {
    hide MissesTables, WritePages, Reaches;
    StartOf(va);
    assert data[0..] == data;
    n := PagesFrom(m, m, root, va, data, 0);
  }

  /** Memory has become what writing the bytes one by one makes of it: all of them, or those
      before the first that faults. */
  ghost predicate WroteBytes(m: Bytes, m': Bytes, root: nat, va: nat, data: seq<Byte>, r: Access<nat>) {
    && (r.Got? || r.error.Fault?)
    && exists n: nat ::
         && n <= |data| && SameBytes(m', WriteBytes(m, root, va, data, n))
         && Reaches(m, root, va, |data|, n, if r.Got? then Done else Failed(r.error.error))
  }

  lemma PagesWrote(m: Bytes, root: nat, va: nat, data: seq<Byte>)
    requires root % 0x1000 == 0 && va < TWO64 && MissesTables(m, root, va, |data|)
    ensures var o := WritePages(m, root, va, data);
            var r: Access<nat> := if o.status.Done? then Got(|data|) else Refused(Fault(o.status.error));
            WroteBytes(m, o.m, root, va, data, r)
  {
    hide MissesTables, WritePages, Reaches, SameBytes, WriteBytes;
    var n := PagesAreBytes(m, root, va, data);
  }

  /** Bytes of the range that share a place are given the same value. */
  ghost predicate AliasesAgree(m: Bytes, root: nat, va: nat, data: seq<Byte>) {
    forall i: nat, j: nat | i < j < |data| && Spot(m, root, va, i).Ok? && Spot(m, root, va, j).Ok?
                            && Spot(m, root, va, i).value.paddr == Spot(m, root, va, j).value.paddr ::
      data[i] == data[j]
  }

  /** The last byte written to a place is the one that stays. */
  lemma {:induction false} LastWins(m: Bytes, root: nat, va: nat, data: seq<Byte>, n: nat, i: nat) returns (last: nat)
    requires i < n <= |data| && Spot(m, root, va, i).Ok?
    ensures i <= last < n && Spot(m, root, va, last).Ok?
    ensures Spot(m, root, va, last).value.paddr == Spot(m, root, va, i).value.paddr
    ensures Peek(WriteBytes(m, root, va, data, n), Spot(m, root, va, i).value.paddr) == data[last]
    decreases n
  {
    hide Spot;
    if Spot(m, root, va, n - 1).Ok? && Spot(m, root, va, n - 1).value.paddr == Spot(m, root, va, i).value.paddr {
      last := n - 1;
    } else {
      last := LastWins(m, root, va, data, n - 1, i);
    }
  }

  lemma {:induction false} FirstHolds(m: Bytes, root: nat, va: nat, data: seq<Byte>, n: nat, i: nat)
    requires i < n <= |data| && Spot(m, root, va, i).Ok? && AliasesAgree(m, root, va, data)
    ensures Peek(WriteBytes(m, root, va, data, n), Spot(m, root, va, i).value.paddr) == data[i]
  {
    hide Spot, WriteBytes;
    var last := LastWins(m, root, va, data, n, i);
  }

  /** A write followed by a read of the same pointer gives the data back exactly when bytes
      that share a place agree. */
  method WriteThenRead(ram: Ram, root: nat, va: nat, data: seq<Byte>, align: nat) returns (r: Access<seq<Byte>>)
    requires align > 0 && va < TWO64 && root % 0x1000 == 0
    requires MissesTables(ram.bytes, root, va, |data|)
    modifies ram
    ensures Aligned(va, align) && Mapped(old(ram.bytes), root, va, |data|) ==>
              r.Got? && (r.value == data <==> AliasesAgree(old(ram.bytes), root, va, data))
  {
    hide Aligned, WritePages, WriteBytes, Peek, Spot, MissesTables, AliasesAgree, SameBytes;
    var w := Write(ram, root, va, data, align);
    r := Read(ram.bytes, root, va, |data|, align);
    if Aligned(va, align) && Mapped(old(ram.bytes), root, va, |data|) {
      ReadBack(old(ram.bytes), ram.bytes, root, va, data);
    }
  }

  ghost predicate HoldsAt(m: Bytes, root: nat, va: nat, data: seq<Byte>) {
    forall i: nat | i < |data| :: Spot(m, root, va, i).Ok? && Peek(m, Spot(m, root, va, i).value.paddr) == data[i]
  }

  lemma ReadBack(m: Bytes, m': Bytes, root: nat, va: nat, data: seq<Byte>)
    requires va < TWO64 && root % 0x1000 == 0 && MissesTables(m, root, va, |data|) && Mapped(m, root, va, |data|)
    requires m' == WritePages(m, root, va, data).m
    ensures Mapped(m', root, va, |data|)
    ensures HoldsAt(m', root, va, data) <==> AliasesAgree(m, root, va, data)
  {
    hide WritePages, WriteBytes, Peek, Spot, MissesTables;
    var n := PagesAreBytes(m, root, va, data);
    assert n == |data|;
    forall i: nat | i < |data| ensures Spot(m', root, va, i) == Spot(m, root, va, i) {
      SpotKept(m, m', root, va, data, n, i);
    }
    if AliasesAgree(m, root, va, data) {
      forall i: nat | i < |data| ensures Peek(m', Spot(m, root, va, i).value.paddr) == data[i] {
        FirstHolds(m, root, va, data, n, i);
      }
    }
    if HoldsAt(m', root, va, data) {
      assert AliasesAgree(m, root, va, data);
    }
  }
}
