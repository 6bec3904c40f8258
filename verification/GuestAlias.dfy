/** A guest that maps two pages onto one frame. */
module GuestAlias {
  import opened Pte
  import opened Blocks
  import opened Tables
  import opened Words
  import opened GuestAccess

  /** Tables at pages 1 to 4; addresses 0x1000 and 0x2000 both lead to the frame at 0x8000. */
  const ALIASED: Bytes := map[
    0x1000 := 3, 0x1001 := 0x20, 0x2000 := 3, 0x2001 := 0x30, 0x3000 := 3, 0x3001 := 0x40,
    0x4008 := 3, 0x4009 := 0x80, 0x4010 := 3, 0x4011 := 0x80]

  /** The number `frame * 0x1000 + 3` is a present entry that is not huge. */
  lemma LinkNumber(frame: nat)
    requires frame < 16
    ensures var w := Decode(frame * 0x1000 + 3);
            w.frame == frame && 0 in w.bits && 7 !in w.bits
  {
    assert Pow2(7) == 128;
  }

  lemma Entry(p: nat, i: nat, frame: nat)
    requires p % 0x1000 == 0 && i < 512 && frame < 16
    requires Peek(ALIASED, p + 8 * i) == 3 && Peek(ALIASED, p + 8 * i + 1) == 16 * frame
    requires forall x | p + 8 * i + 2 <= x < p + 8 * i + 8 :: Peek(ALIASED, x) == 0
    ensures var w := Load(AsTables(ALIASED), p, i);
            w.frame == frame && IsTable(X86, w) && !IsHuge(w) && !IsUnused(w)
  {
    hide AsTables, Load, Decode, Peek;
    LoadIsWord(ALIASED, p, i);
    NumberZero(ALIASED, p + 8 * i + 2, 6);
    LinkNumber(frame);
  }

  lemma TopEntries()
    ensures var h := AsTables(ALIASED);
            && NextTable(X86, Load(h, 0x1000, 0)) == Ok(0x2000)
            && NextTable(X86, Load(h, 0x2000, 0)) == Ok(0x3000) && !IsHuge(Load(h, 0x2000, 0))
            && NextTable(X86, Load(h, 0x3000, 0)) == Ok(0x4000) && !IsHuge(Load(h, 0x3000, 0))
  {
    hide AsTables, Load, Decode;
    Entry(0x1000, 0, 2);
    Entry(0x2000, 0, 3);
    Entry(0x3000, 0, 4);
  }

  lemma PageEntries(i: nat)
    requires 1 <= i <= 2
    ensures var w := Load(AsTables(ALIASED), 0x4000, i); Addr(w) == 0x8000 && !IsUnused(w)
  {
    hide AsTables, Load, Decode;
    if i == 1 { Entry(0x4000, 1, 8); } else { Entry(0x4000, 2, 8); }
  }

  lemma Indices(va: nat)
    requires 0x1000 <= va < 0x3000
    ensures Index(4, va) == 0 && Index(3, va) == 0 && Index(2, va) == 0 && Index(1, va) == va / 0x1000
  {
  }

  lemma AliasWalk(va: nat)
    requires 0x1000 <= va < 0x3000
    ensures var h := AsTables(ALIASED);
            && Walk(X86, h, 0x1000, 4, va) == Ok(Loc(0x4000, va / 0x1000, 1))
            && Visits(h, 0x1000, 4, va) == {0x1000, 0x2000, 0x3000, 0x4000}
  {
    hide AsTables, Load, Index;
    TopEntries();
    Indices(va);
    var h := AsTables(ALIASED);
    assert Walk(X86, h, 0x3000, 2, va) == Walk(X86, h, 0x4000, 1, va);
    assert Visits(h, 0x3000, 2, va) == {0x3000} + Visits(h, 0x4000, 1, va);
  }

  lemma AliasFind(va: nat)
    requires 0x1000 <= va < 0x3000
    ensures Find(ALIASED, 0x1000, va).Ok? && Find(ALIASED, 0x1000, va).value.paddr == 0x8000 + va % 0x1000
  {
    hide AsTables, Load, Walk;
    PageEntries(va / 0x1000);
    AliasWalk(va);
  }

  lemma AliasSpot(i: nat)
    requires i <= 0x1000
    ensures At(0x1000, i) == 0x1000 + i
    ensures Spot(ALIASED, 0x1000, 0x1000, i).Ok?
    ensures Spot(ALIASED, 0x1000, 0x1000, i).value.paddr == 0x8000 + i % 0x1000
  {
    hide Find;
    AliasFind(0x1000 + i);
  }

  lemma AliasMisses()
    ensures MissesTables(ALIASED, 0x1000, 0x1000, 0x1001) && Mapped(ALIASED, 0x1000, 0x1000, 0x1001)
  {
    hide Spot, Visits, AsTables, At;
    forall i: nat, j: nat | i < 0x1001 && j < 0x1001 && Spot(ALIASED, 0x1000, 0x1000, i).Ok?
      ensures PageDown(Spot(ALIASED, 0x1000, 0x1000, i).value.paddr)
              !in Visits(AsTables(ALIASED), 0x1000, 4, At(0x1000, j))
    {
      AliasSpot(i);
      AliasSpot(j);
      AliasWalk(At(0x1000, j));
    }
    forall i: nat | i < 0x1001 ensures Spot(ALIASED, 0x1000, 0x1000, i).Ok? { AliasSpot(i); }
  }

  /** A write over both pages whose ends differ is not read back. */
  method AliasLost(ram: Ram, data: seq<Byte>) returns (r: Access<seq<Byte>>)
    requires ram.bytes == ALIASED && |data| == 0x1001 && data[0] != data[0x1000]
    modifies ram
    ensures r.Got? && r.value != data
  {
    hide MissesTables, Mapped, Spot;
    AliasMisses();
    AliasSpot(0);
    AliasSpot(0x1000);
    r := WriteThenRead(ram, 0x1000, 0x1000, data, 1);
  }
}
