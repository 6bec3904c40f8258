/** Page sizes, the index arithmetic of a four-level table, and the aligned
    blocks of address space that table slots stand for. */
module Blocks {
  const TWO48: nat := 0x1_0000_0000_0000
  const TWO47: nat := 0x8000_0000_0000

  /** Bytes covered by one slot of a table at this level: 4K, 2M and 1G pages are
      slots of levels 1, 2 and 3; level 5 is the whole address space. */
  function Size(level: nat): nat
    requires 1 <= level <= 5
  {
    if level == 1 then 0x1000
    else if level == 2 then 0x20_0000
    else if level == 3 then 0x4000_0000
    else if level == 4 then 0x80_0000_0000
    else TWO48
  }

  lemma SizePositive(level: nat)
    requires 1 <= level <= 5
    ensures Size(level) > 0
  {
  }

  function AlignDown(level: nat, addr: nat): nat
    requires 1 <= level <= 3
  {
    addr - addr % Size(level)
  }

  /** `align_down` of an address. */
  function PageDown(addr: nat): nat {
    addr / 0x1000 * 0x1000
  }

  /** It is the one of the smallest page size. */
  lemma PageDownIsAlignDown(addr: nat)
    ensures PageDown(addr) == AlignDown(1, addr)
  {
  }

  predicate IsAligned(level: nat, addr: nat)
    requires 1 <= level <= 3
  {
    addr % Size(level) == 0
  }

  /** `p1_index` .. `p4_index`: `(vaddr >> (12 + 9 * (level - 1))) & 511`. */
  function Index(level: nat, va: nat): (i: nat)
    requires 1 <= level <= 4
    ensures i < 512
  {
    va / Size(level) % 512
  }

  /** The `num`-th aligned block of `Size(level)` bytes of the 48-bit address space. */
  datatype Block = Block(level: nat, num: nat)

  const WHOLE := Block(5, 0)

  function Parent(b: Block): Block {
    Block(b.level + 1, b.num / 512)
  }

  function BlockOf(level: nat, va: nat): Block
    requires 1 <= level <= 5
  {
    Block(level, va % TWO48 / Size(level))
  }

  function First(b: Block): nat
    requires 1 <= b.level <= 5
  {
    b.num * Size(b.level)
  }

  function End(b: Block): nat
    requires 1 <= b.level <= 5
  {
    b.num * Size(b.level) + Size(b.level)
  }

  lemma ParentOf(level: nat, va: nat)
    requires 1 <= level <= 4
    ensures Parent(BlockOf(level, va)) == BlockOf(level + 1, va)
  {
    var x := va % TWO48;
    if level == 1 {
      assert x / 0x1000 / 512 == x / 0x20_0000;
    } else if level == 2 {
      assert x / 0x20_0000 / 512 == x / 0x4000_0000;
    } else if level == 3 {
      assert x / 0x4000_0000 / 512 == x / 0x80_0000_0000;
    }
  }

  lemma DivUnique(d: nat, q: int, r: nat)
    requires r < d
    ensures (d * q + r) / d == q && (d * q + r) % d == r
  {
    var a := d * q + r;
    var k := a / d - q;
    assert d * k == r - a % d;
    assert k >= 1 ==> d * k >= d;
    assert k <= -1 ==> d * k + d <= 0;
  }

  /** Adding a multiple of the modulus to an address shifts its block numbers. */
  lemma DivShift(d: nat, k: int, x: int)
    requires 0 < d
    ensures (d * k + x) / d == k + x / d && (d * k + x) % d == x % d
  {
    assert d * k + x == d * (k + x / d) + x % d;
    DivUnique(d, k + x / d, x % d);
  }

  lemma IndexOf(level: nat, va: nat)
    requires 1 <= level <= 4
    ensures Index(level, va) == BlockOf(level, va).num % 512
  {
    var q, x := va / TWO48, va % TWO48;
    var n := if level == 1 then 0x800_0000 else if level == 2 then 0x4_0000 else if level == 3 then 512 else 1;
    assert va == Size(level) * (512 * (n * q)) + x;
    DivShift(Size(level), 512 * (n * q), x);
    DivShift(512, n * q, x / Size(level));
  }

  /** A block holds exactly the addresses whose low 48 bits lie between its ends. */
  lemma InBlock(b: Block, va: nat)
    requires 1 <= b.level <= 5
    ensures BlockOf(b.level, va) == b <==> First(b) <= va % TWO48 < End(b)
  {
  }

  /** Blocks nest: a block lies inside its parent. */
  lemma Nested(b: Block)
    requires 1 <= b.level <= 4
    ensures First(Parent(b)) <= First(b) && End(b) <= End(Parent(b))
  {
  }

  /** A slot is told apart from the other slots of its table by its index. */
  lemma SlotOfParent(b: Block, c: Block)
    requires Parent(b) == Parent(c) && b.num % 512 == c.num % 512
    ensures b == c
  {
  }
}
