/** The entry operations on 64-bit numbers, as the source writes them, and that the split
    form follows each of them. */
module Setters {
  import opened Pte
  import opened Blocks
  import opened Words

  const MASK: nat := 0xf_ffff_ffff_f000 // bits 12..52

  // ---- Bitwise operators ----------------------------------------------------------------

  function Digit(on: bool): nat {
    if on then 1 else 0
  }

  function And(x: nat, y: nat): nat {
    if x == 0 then 0 else Digit(x % 2 == 1 && y % 2 == 1) + 2 * And(x / 2, y / 2)
  }

  function Or(x: nat, y: nat): nat
    decreases x + y
  {
    if x == 0 && y == 0 then 0 else Digit(x % 2 == 1 || y % 2 == 1) + 2 * Or(x / 2, y / 2)
  }

  /** `x & !y`. */
  function AndNot(x: nat, y: nat): nat {
    if x == 0 then 0 else Digit(x % 2 == 1 && y % 2 == 0) + 2 * AndNot(x / 2, y / 2)
  }

  lemma FirstBit(x: nat)
    ensures HasBit(x, 0) <==> x % 2 == 1
  {
  }

  lemma NextBit(x: nat, i: nat)
    requires i > 0
    ensures HasBit(x, i) <==> HasBit(x / 2, i - 1)
  {
    HighBit(x, 1, i - 1, x / 2);
  }

  lemma JoinedBit(on: bool, rest: nat, i: nat)
    ensures HasBit(Digit(on) + 2 * rest, i) <==> if i == 0 then on else HasBit(rest, i - 1)
  {
    var x := Digit(on) + 2 * rest;
    hide HasBit;
    if i == 0 { FirstBit(x); } else { NextBit(x, i); }
  }

  lemma ZeroBit(i: nat)
    ensures !HasBit(0, i)
  {
  }

  lemma {:induction false} AndBit(x: nat, y: nat, i: nat)
    ensures HasBit(And(x, y), i) <==> HasBit(x, i) && HasBit(y, i)
    decreases i
  {
    hide HasBit, Digit;
    ZeroBit(i);
    if x > 0 {
      JoinedBit(x % 2 == 1 && y % 2 == 1, And(x / 2, y / 2), i);
      Split(x, y, i);
      if i > 0 { AndBit(x / 2, y / 2, i - 1); }
    }
  }

  /** A bit of a number is its last digit or a bit of its half. */
  lemma Split(x: nat, y: nat, i: nat)
    ensures HasBit(x, i) <==> if i == 0 then x % 2 == 1 else HasBit(x / 2, i - 1)
    ensures HasBit(y, i) <==> if i == 0 then y % 2 == 1 else HasBit(y / 2, i - 1)
  {
    hide HasBit;
    if i == 0 {
      FirstBit(x);
      FirstBit(y);
    } else {
      NextBit(x, i);
      NextBit(y, i);
    }
  }

  lemma {:induction false} OrBit(x: nat, y: nat, i: nat)
    ensures HasBit(Or(x, y), i) <==> HasBit(x, i) || HasBit(y, i)
    decreases i
  {
    hide HasBit, Digit;
    ZeroBit(i);
    if x + y > 0 {
      JoinedBit(x % 2 == 1 || y % 2 == 1, Or(x / 2, y / 2), i);
      Split(x, y, i);
      if i > 0 { OrBit(x / 2, y / 2, i - 1); }
    }
  }

  lemma {:induction false} AndNotBit(x: nat, y: nat, i: nat)
    ensures HasBit(AndNot(x, y), i) <==> HasBit(x, i) && !HasBit(y, i)
    decreases i
  {
    hide HasBit, Digit;
    ZeroBit(i);
    if x > 0 {
      JoinedBit(x % 2 == 1 && y % 2 == 0, AndNot(x / 2, y / 2), i);
      Split(x, y, i);
      if i > 0 { AndNotBit(x / 2, y / 2, i - 1); }
    }
  }

  // ---- Fields ---------------------------------------------------------------------------

  /** The number with ones at bits `lo` to `hi`. */
  function Ones(lo: nat, hi: nat): nat
    requires lo <= hi
    decreases hi - lo
  {
    if lo == hi then 0 else Pow2(hi - 1) + Ones(lo, hi - 1)
  }

  /** `set_bits(lo..hi, v)` of the bit_field crate. */
  function SetBits(w: nat, lo: nat, hi: nat, v: nat): nat
    requires lo <= hi && v < Pow2(hi - lo)
  {
    Or(AndNot(w, Ones(lo, hi)), Pow2(lo) * v)
  }

  lemma SmallBit(v: nat, n: nat, i: nat)
    requires v < Pow2(n) && n <= i
    ensures !HasBit(v, i)
  {
    Pow2Sum(n, i - n);
    assert Pow2(n) * Pow2(i - n) >= Pow2(n) by { Distribute(Pow2(n), 1, Pow2(i - n) - 1); }
    DivUnique(Pow2(i), 0, v);
  }

  lemma {:induction false} OnesBit(lo: nat, hi: nat, i: nat)
    requires lo <= hi
    ensures HasBit(Ones(lo, hi), i) <==> lo <= i < hi
    ensures Ones(lo, hi) < Pow2(hi)
    decreases hi - lo
  {
    hide HasBit;
    ZeroBit(i);
    if lo < hi {
      OnesBit(lo, hi - 1, i);
      OneAbove(hi - 1, Ones(lo, hi - 1), i);
    }
  }

  /** A one above a smaller number adds just that bit. */
  lemma OneAbove(n: nat, v: nat, i: nat)
    requires v < Pow2(n)
    ensures HasBit(Pow2(n) + v, i) <==> i == n || HasBit(v, i)
  {
    if i < n {
      LowBit(n, i, 1, v);
    } else if i == n {
      DivUnique(Pow2(n), 1, v);
    } else {
      SmallBit(Pow2(n) + v, n + 1, i);
      SmallBit(v, n, i);
    }
  }

  /** Shifting left moves the bits up. */
  lemma ShiftedBit(v: nat, lo: nat, i: nat)
    ensures HasBit(Pow2(lo) * v, i) <==> lo <= i && HasBit(v, i - lo)
  {
    hide HasBit, Pow2;
    if i < lo {
      LowBit(lo, i, v, 0);
      ZeroBit(i);
    } else {
      DivUnique(Pow2(lo), v, 0);
      HighBit(Pow2(lo) * v, lo, i - lo, v);
    }
  }

  lemma SetBitsBit(w: nat, lo: nat, hi: nat, v: nat, i: nat)
    requires lo <= hi && v < Pow2(hi - lo)
    ensures HasBit(SetBits(w, lo, hi, v), i) <==> if lo <= i < hi then HasBit(v, i - lo) else HasBit(w, i)
  {
    hide HasBit, Pow2;
    OrBit(AndNot(w, Ones(lo, hi)), Pow2(lo) * v, i);
    AndNotBit(w, Ones(lo, hi), i);
    OnesBit(lo, hi, i);
    ShiftedBit(v, lo, i);
    if hi <= i { SmallBit(v, hi - lo, i - lo); }
  }

  // ---- The split form, bit by bit -------------------------------------------------------

  lemma FieldBit(x: nat, i: nat)
    requires i < 40
    ensures HasBit(x / 0x1000 % 0x100_0000_0000, i) <==> HasBit(x, 12 + i)
  {
    hide HasBit;
    Pow2At40();
    assert Pow2(12) == 0x1000;
    var y := x / 0x1000;
    HighBit(x, 12, i, y);
    LowBit(40, i, y / 0x100_0000_0000, y % 0x100_0000_0000);
  }

  lemma Pow2At40()
    ensures Pow2(40) == 0x100_0000_0000
  {
    assert Pow2(10) == 0x400;
    Pow2Sum(10, 10);
    Pow2Sum(20, 20);
  }

  ghost predicate SameField(x: nat, y: nat) {
    forall i: nat | 12 <= i < 52 :: HasBit(x, i) <==> HasBit(y, i)
  }

  lemma FieldSame(x: nat, y: nat)
    requires SameField(x, y)
    ensures x / 0x1000 % 0x100_0000_0000 == y / 0x1000 % 0x100_0000_0000
  {
    hide HasBit;
    Pow2At40();
    var f, g := x / 0x1000 % 0x100_0000_0000, y / 0x1000 % 0x100_0000_0000;
    forall i: nat | i < 40 ensures HasBit(f, i) <==> HasBit(g, i) {
      FieldBit(x, i);
      FieldBit(y, i);
    }
    SameBits(f, g, 40);
  }

  /** The bits of the number outside the address field. */
  ghost predicate OtherBits(x: nat, bits: set<nat>) {
    && (forall i <- bits :: i < 12 || 52 <= i < 64)
    && (forall i: nat | i < 12 || 52 <= i < 64 :: HasBit(x, i) <==> i in bits)
  }

  lemma DecodeIs(x: nat, y: nat, bits: set<nat>)
    requires SameField(x, y) && OtherBits(x, bits)
    ensures Decode(x) == Word(y / 0x1000 % 0x100_0000_0000, bits)
  {
    hide HasBit;
    FieldSame(x, y);
    assert Decode(x).bits == bits;
  }

  lemma DecodeBits(w: nat)
    ensures OtherBits(w, Decode(w).bits) && Decode(w).frame == w / 0x1000 % 0x100_0000_0000
  {
    hide HasBit;
  }

  lemma {:induction false} OnesSum(lo: nat, hi: nat)
    requires lo <= hi
    ensures Ones(lo, hi) + Pow2(lo) == Pow2(hi)
    decreases hi - lo
  {
    if lo < hi { OnesSum(lo, hi - 1); }
  }

  lemma MaskBit(i: nat)
    ensures HasBit(MASK, i) <==> 12 <= i < 52
  {
    OnesSum(12, 52);
    Pow2At52();
    assert Pow2(12) == 0x1000;
    OnesBit(12, 52, i);
  }

  // ---- x86 and NPT ------------------------------------------------------------------------

  /** `(self.0 & !PHYS_ADDR_MASK) | (paddr & PHYS_ADDR_MASK)`. */
  function SetAddr64(w: nat, paddr: nat): nat {
    Or(AndNot(w, MASK), And(paddr, MASK))
  }

  lemma MaskedBit(w: nat, f: nat, i: nat)
    ensures HasBit(Or(And(w, MASK), f), i) <==> (12 <= i < 52 && HasBit(w, i)) || HasBit(f, i)
    ensures HasBit(Or(AndNot(f, MASK), And(w, MASK)), i) <==> if 12 <= i < 52 then HasBit(w, i) else HasBit(f, i)
  {
    hide HasBit, And, Or, AndNot;
    OrBit(And(w, MASK), f, i);
    OrBit(AndNot(f, MASK), And(w, MASK), i);
    AndBit(w, MASK, i);
    AndNotBit(f, MASK, i);
    MaskBit(i);
  }

  lemma SetAddrSplit(fmt: Format, w: nat, paddr: nat)
    requires !fmt.Ept?
    ensures Decode(SetAddr64(w, paddr)) == SetAddr(fmt, Decode(w), paddr)
  {
    hide HasBit, And, Or, AndNot, Decode;
    var x := SetAddr64(w, paddr);
    DecodeBits(w);
    forall i: nat ensures HasBit(x, i) <==> if 12 <= i < 52 then HasBit(paddr, i) else HasBit(w, i) {
      MaskedBit(paddr, w, i);
    }
    DecodeIs(x, paddr, Decode(w).bits);
  }

  /** `self.addr() | flags.bits()`. */
  function SetFlags64(w: nat, flags: nat): nat {
    Or(And(w, MASK), flags)
  }

  /** The number has ones at these bits only. */
  ghost predicate IsBits(x: nat, bits: set<nat>) {
    forall i: nat :: HasBit(x, i) <==> i in bits
  }

  lemma MaskedSplit(w: nat, f: nat, bits: set<nat>)
    requires IsBits(f, bits) && forall i <- bits :: i < 12 || 52 <= i < 64
    ensures Decode(Or(And(w, MASK), f)) == Word(w / 0x1000 % 0x100_0000_0000, bits)
  {
    hide HasBit, And, Or, Decode;
    var x := Or(And(w, MASK), f);
    forall i: nat ensures HasBit(x, i) <==> (12 <= i < 52 && HasBit(w, i)) || HasBit(f, i) {
      MaskedBit(w, f, i);
    }
    DecodeIs(x, w, bits);
  }

  /** `n` joined in with `|=` when the test holds. */
  function OrIf(x: nat, on: bool, n: nat): nat {
    if on then Or(x, n) else x
  }

  lemma OrIfBit(x: nat, bits: set<nat>, on: bool, position: nat)
    requires IsBits(x, bits)
    ensures IsBits(OrIf(x, on, Pow2(position)), bits + Bit(on, position))
  {
    hide HasBit, Or, Pow2;
    forall i: nat ensures HasBit(OrIf(x, on, Pow2(position)), i) <==> i in bits + Bit(on, position) {
      OrBit(x, Pow2(position), i);
      PowBit(position, i);
    }
  }

  lemma PowBit(n: nat, i: nat)
    ensures HasBit(Pow2(n), i) <==> i == n
  {
    hide HasBit, Pow2;
    OneAbove(n, 0, i);
    ZeroBit(i);
  }

  lemma NoBits()
    ensures IsBits(0, {})
  {
    hide HasBit;
    forall i: nat ensures !HasBit(0, i) { ZeroBit(i); }
  }

  /** `PTF::from(flags)`, with HUGE_PAGE, as a number: PRESENT is 1, WRITABLE 2,
      USER_ACCESSIBLE 4, NO_CACHE 16, HUGE_PAGE 128 and NO_EXECUTE the top bit. */
  function X86Number(flags: MemFlags, huge: bool): nat {
    OrIf(if flags == {} then 0
         else
           OrIf(OrIf(OrIf(OrIf(1, WRITE in flags, 2), EXECUTE !in flags, 0x8000_0000_0000_0000), USER in flags, 4),
                IO in flags, 16),
         huge, 128)
  }

  lemma SmallPowers()
    ensures Pow2(0) == 1 && Pow2(1) == 2 && Pow2(2) == 4 && Pow2(4) == 16 && Pow2(7) == 128
    ensures Pow2(63) == 0x8000_0000_0000_0000
  {
    assert Pow2(4) == 16 && Pow2(7) == 128 && Pow2(11) == 0x800;
    Pow2At52();
    Pow2Sum(52, 11);
  }

  lemma X86NumberBits(flags: MemFlags, huge: bool)
    ensures IsBits(X86Number(flags, huge), X86Bits(flags, huge))
  {
    hide Pow2, OrIf, IsBits;
    SmallPowers();
    NoBits();
    OrIfBit(0, {}, true, 0);
    assert OrIf(0, true, 1) == 1 by { OneAlone(); }
    var x1 := OrIf(1, WRITE in flags, 2);
    var x2 := OrIf(x1, EXECUTE !in flags, 0x8000_0000_0000_0000);
    var x3 := OrIf(x2, USER in flags, 4);
    var x4 := OrIf(x3, IO in flags, 16);
    var b1 := {} + Bit(true, 0) + Bit(WRITE in flags, 1);
    var b2 := b1 + Bit(EXECUTE !in flags, 63);
    var b3 := b2 + Bit(USER in flags, 2);
    var b4 := b3 + Bit(IO in flags, 4);
    OrIfBit(1, {} + Bit(true, 0), WRITE in flags, 1);
    OrIfBit(x1, b1, EXECUTE !in flags, 63);
    OrIfBit(x2, b2, USER in flags, 2);
    OrIfBit(x3, b3, IO in flags, 4);
    var x, b := if flags == {} then 0 else x4, if flags == {} then {} else b4;
    OrIfBit(x, b, huge, 7);
    assert b + Bit(huge, 7) == X86Bits(flags, huge);
  }

  lemma OneAlone()
    ensures OrIf(0, true, 1) == 1
  {
  }

  /** The argument `set_flags` gives the x86 entry: the NPT adds USER. */
  function Given(fmt: Format, flags: MemFlags): MemFlags {
    if fmt.Npt? then flags + {USER} else flags
  }

  lemma SetFlagsSplit(fmt: Format, w: nat, flags: MemFlags, huge: bool)
    requires !fmt.Ept?
    ensures Decode(SetFlags64(w, X86Number(Given(fmt, flags), huge))) == SetFlags(fmt, Decode(w), flags, huge)
  {
    hide HasBit, And, Or, IsBits, Decode, X86Number, X86Bits;
    DecodeBits(w);
    X86NumberBits(Given(fmt, flags), huge);
    X86BitsPlaced(Given(fmt, flags), huge);
    MaskedSplit(w, X86Number(Given(fmt, flags), huge), X86Bits(Given(fmt, flags), huge));
  }

  lemma X86BitsPlaced(flags: MemFlags, huge: bool)
    ensures forall i <- X86Bits(flags, huge) :: i < 12 || 52 <= i < 64
  {
  }

  lemma SevenBits()
    ensures IsBits(7, {0, 1, 2})
  {
    hide HasBit;
    forall i: nat ensures HasBit(7, i) <==> i in {0, 1, 2} {
      OnesSum(0, 3);
      OnesBit(0, 3, i);
      assert Pow2(0) == 1 && Pow2(3) == 8;
    }
  }

  /** `(paddr & PHYS_ADDR_MASK) | (PRESENT | WRITABLE | USER_ACCESSIBLE)`. */
  lemma SetTableSplit(fmt: Format, w: nat, paddr: nat)
    requires !fmt.Ept?
    ensures Decode(Or(And(paddr, MASK), 7)) == SetTable(fmt, Decode(w), paddr)
  {
    hide HasBit, And, Or, IsBits, Decode;
    SevenBits();
    MaskedSplit(paddr, 7, {0, 1, 2});
  }

  // ---- EPT --------------------------------------------------------------------------------

  lemma EptAddrFits(paddr: nat)
    requires paddr < TWO52
    ensures paddr / 0x1000 < Pow2(52 - 12) && paddr / 0x1000 % 0x100_0000_0000 == paddr / 0x1000
  {
    Pow2At40();
  }

  /** `set_bits(12..52, paddr >> 12)`. */
  function SetEptAddr64(w: nat, paddr: nat): nat
    requires paddr < TWO52
  {
    EptAddrFits(paddr);
    SetBits(w, 12, 52, paddr / 0x1000)
  }

  lemma SetEptAddrSplit(w: nat, paddr: nat)
    requires paddr < TWO52
    ensures Decode(SetEptAddr64(w, paddr)) == SetAddr(Ept, Decode(w), paddr)
  {
    hide HasBit, Decode, SetBits, Pow2;
    EptAddrFits(paddr);
    var x := SetEptAddr64(w, paddr);
    DecodeBits(w);
    forall i: nat ensures HasBit(x, i) <==> if 12 <= i < 52 then HasBit(paddr, i) else HasBit(w, i) {
      SetBitsBit(w, 12, 52, paddr / 0x1000, i);
      if 12 <= i < 52 { FieldBit(paddr, i - 12); }
    }
    DecodeIs(x, paddr, Decode(w).bits);
  }

  lemma LowPowers()
    ensures Pow2(12 - 0) == 0x1000 && Pow2(6 - 3) == 8
  {
  }

  /** `set_bits(0..12, flags)`, then `set_bits(3..6, memory type)`. */
  function SetEptLow64(w: nat, f: nat, t: nat): nat
    requires f < 0x1000 && t < 8
  {
    LowPowers();
    SetBits(SetBits(w, 0, 12, f), 3, 6, t)
  }

  lemma SetEptLowSplit(w: nat, f: nat, flagBits: set<nat>, t: nat, typeBits: set<nat>)
    requires f < 0x1000 && t < 8 && IsBits(f, flagBits)
    requires forall i: nat :: i in typeBits <==> 3 <= i && HasBit(t, i - 3)
    ensures Decode(SetEptLow64(w, f, t)) == SetEptLow(Decode(w), flagBits, typeBits)
  {
    hide HasBit, Decode, SetBits, Pow2;
    LowPowers();
    var y := SetBits(w, 0, 12, f);
    var x := SetBits(y, 3, 6, t);
    DecodeBits(w);
    forall i: nat ensures HasBit(x, i) <==>
        if 3 <= i < 6 then HasBit(t, i - 3) else if i < 12 then HasBit(f, i) else HasBit(w, i) {
      SetBitsBit(y, 3, 6, t, i);
      SetBitsBit(w, 0, 12, f, i);
    }
    forall i: nat | 6 <= i ensures i !in typeBits { SmallBit(t, 6 - 3, i - 3); }
    forall i: nat | 12 <= i ensures i !in flagBits { SmallBit(f, 12 - 0, i); }
    DecodeIs(x, w, SetEptLow(Decode(w), flagBits, typeBits).bits);
  }

  /** Write-back is memory type 6: bits 4 and 5 of the entry. */
  lemma WriteBackBits(i: nat)
    ensures i in {4, 5} <==> 3 <= i && HasBit(6, i - 3)
  {
    hide HasBit;
    OnesSum(1, 3);
    assert Pow2(1) == 2 && Pow2(3) == 8;
    if 3 <= i { OnesBit(1, 3, i - 3); }
  }

  /** `EPTFlags::from(flags)`, with HUGE_PAGE, as a number: READ is 1, WRITE 2, EXECUTE 4 and
      HUGE_PAGE 128. */
  function EptNumber(flags: MemFlags, huge: bool): nat {
    OrIf(OrIf(OrIf(OrIf(0, READ in flags, 1), WRITE in flags, 2), EXECUTE in flags, 4), huge, 128)
  }

  lemma EptNumberBits(flags: MemFlags, huge: bool)
    ensures IsBits(EptNumber(flags, huge), EptBits(flags, huge))
  {
    hide Pow2, OrIf, IsBits;
    SmallPowers();
    NoBits();
    var x1 := OrIf(0, READ in flags, 1);
    var x2 := OrIf(x1, WRITE in flags, 2);
    var x3 := OrIf(x2, EXECUTE in flags, 4);
    var b1 := {} + Bit(READ in flags, 0);
    var b2 := b1 + Bit(WRITE in flags, 1);
    var b3 := b2 + Bit(EXECUTE in flags, 2);
    OrIfBit(0, {}, READ in flags, 0);
    OrIfBit(x1, b1, WRITE in flags, 1);
    OrIfBit(x2, b2, EXECUTE in flags, 2);
    OrIfBit(x3, b3, huge, 7);
    assert b3 + Bit(huge, 7) == EptBits(flags, huge);
  }

  /** A number without ones from bit `n` on is below 2^n. */
  lemma {:induction false} BelowPow(x: nat, n: nat)
    requires forall i: nat | n <= i :: !HasBit(x, i)
    ensures x < Pow2(n)
    decreases x
  {
    if x > 0 {
      if n == 0 {
        assert !HasBit(x, 0);
        forall i: nat ensures !HasBit(x / 2, i) { HighBit(x, 1, i, x / 2); }
        BelowPow(x / 2, 0);
      } else {
        forall i: nat | n - 1 <= i ensures !HasBit(x / 2, i) { HighBit(x, 1, i, x / 2); }
        BelowPow(x / 2, n - 1);
      }
    }
  }

  lemma EptNumberSmall(flags: MemFlags, huge: bool)
    ensures EptNumber(flags, huge) < 0x1000
  {
    hide HasBit, EptNumber, Pow2;
    EptNumberBits(flags, huge);
    assert forall i <- EptBits(flags, huge) :: i < 12;
    BelowPow(EptNumber(flags, huge), 12);
    LowPowers();
  }

  /** `set_flags` of the EPT, with the write-back type. */
  lemma SetEptFlagsSplit(w: nat, flags: MemFlags, huge: bool)
    ensures EptNumber(flags, huge) < 0x1000
    ensures Decode(SetEptLow64(w, EptNumber(flags, huge), 6)) == SetFlags(Ept, Decode(w), flags, huge)
  {
    hide HasBit, Decode, SetEptLow64, IsBits, SetEptLow, EptBits, EptNumber;
    var typeBits: set<nat> := {4, 5};
    EptNumberBits(flags, huge);
    EptNumberSmall(flags, huge);
    forall i: nat ensures i in typeBits <==> 3 <= i && HasBit(6, i - 3) { WriteBackBits(i); }
    SetEptLowSplit(w, EptNumber(flags, huge), EptBits(flags, huge), 6, typeBits);
  }

  /** `set_table` of the EPT: READ, WRITE and EXECUTE, and memory type 0. */
  lemma SetEptTableSplit(w: nat, paddr: nat)
    requires paddr < TWO52
    ensures Decode(SetEptLow64(SetEptAddr64(w, paddr), 7, 0)) == SetTable(Ept, Decode(w), paddr)
  {
    hide HasBit, Decode, SetEptLow64, SetEptAddr64, IsBits, SetEptLow, SetAddr;
    SetEptAddrSplit(w, paddr);
    SevenBits();
    var typeBits: set<nat> := {};
    forall i: nat ensures i in typeBits <==> 3 <= i && HasBit(0, i - 3) { if 3 <= i { ZeroBit(i - 3); } }
    SetEptLowSplit(SetEptAddr64(w, paddr), 7, {0, 1, 2}, 0, typeBits);
  }

  // ---- Getters ------------------------------------------------------------------------------

  /** `addr`, `is_unused`, `is_huge` and `is_present` of the number are those of its split
      form; the EPT's `is_present` looks at bits 0..3. */
  lemma GettersSplit(fmt: Format, w: nat)
    requires w < TWO64
    ensures Addr(Decode(w)) == And(w, MASK)
    ensures IsUnused(Decode(w)) <==> w == 0
    ensures IsHuge(Decode(w)) <==> HasBit(w, 7)
    ensures IsPresent(fmt, Decode(w)) <==> if fmt.Ept? then w % 8 != 0 else w % 2 == 1
  {
    hide HasBit, And, Or;
    LowThree(w);
    DecodeExact(w, 0);
    DecodeZero();
    AddrIsMask(w);
  }

  lemma LowDigits(w: nat)
    ensures w % 8 == 4 * (w / 2 / 2 % 2) + 2 * (w / 2 % 2) + w % 2
  {
    DivUnique(8, w / 2 / 2 / 2, 4 * (w / 2 / 2 % 2) + 2 * (w / 2 % 2) + w % 2);
  }

  lemma LowThree(w: nat)
    ensures HasBit(w, 0) <==> w % 2 == 1
    ensures w % 8 != 0 <==> HasBit(w, 0) || HasBit(w, 1) || HasBit(w, 2)
  {
    hide HasBit;
    LowDigits(w);
    FirstBit(w);
    FirstBit(w / 2);
    FirstBit(w / 2 / 2);
    NextBit(w, 1);
    NextBit(w, 2);
    NextBit(w / 2, 1);
  }

  lemma AddrIsMask(w: nat)
    ensures w / 0x1000 % 0x100_0000_0000 * 0x1000 == And(w, MASK)
  {
    hide HasBit, And;
    var a, b := w / 0x1000 % 0x100_0000_0000 * 0x1000, And(w, MASK);
    Pow2At52();
    forall i: nat ensures HasBit(a, i) <==> HasBit(b, i) {
      AndBit(w, MASK, i);
      MaskBit(i);
      FieldAt(w, i);
    }
    AndBelow(w, MASK);
    SameBits(a, b, 52);
  }

  lemma FieldAt(w: nat, i: nat)
    ensures HasBit(w / 0x1000 % 0x100_0000_0000 * 0x1000, i) <==> 12 <= i < 52 && HasBit(w, i)
  {
    hide HasBit;
    var f := w / 0x1000 % 0x100_0000_0000;
    assert Pow2(12) == 0x1000;
    ShiftedBit(f, 12, i);
    if 12 <= i < 52 { FieldBit(w, i - 12); }
    if 52 <= i {
      Pow2At40();
      SmallBit(f, 40, i - 12);
    }
  }

  lemma {:induction false} AndBelow(x: nat, y: nat)
    ensures And(x, y) <= y
    decreases x
  {
    if x > 0 { AndBelow(x / 2, y / 2); }
  }
}
