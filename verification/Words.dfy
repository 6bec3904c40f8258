/** 64-bit entries as numbers, and their split form. */
module Words {
  import opened Pte
  import opened Blocks

  function Pow2(n: nat): (p: nat)
    ensures p > 0
  {
    if n == 0 then 1 else 2 * Pow2(n - 1)
  }

  /** Bit `i` of a number. */
  predicate HasBit(w: nat, i: nat) {
    w / Pow2(i) % 2 == 1
  }

  /** The split form of a 64-bit word: the number in bits 12..52, and the other bits. */
  function Decode(w: nat): Word {
    Word(w / 0x1000 % 0x100_0000_0000, set i: nat | i < 64 && (i < 12 || 52 <= i) && HasBit(w, i))
  }

  lemma Distribute(a: int, u: int, v: int)
    ensures a * (u + v) == a * u + a * v
  {
  }

  lemma Associate(a: int, b: int, q: int)
    ensures a * (b * q) == a * b * q
  {
  }

  lemma Grow(a: nat, s: nat, b: nat)
    requires s < b
    ensures a * s + a <= a * b
  {
    Distribute(a, s, b - s);
    assert a * (b - s) >= a;
  }

  lemma DivDiv(x: nat, a: nat, b: nat)
    requires a > 0 && b > 0
    ensures a * b > 0 && x / a / b == x / (a * b)
  {
    var y, r := x / a, x % a;
    var q, s := y / b, y % b;
    Distribute(a, b * q, s);
    Associate(a, b, q);
    Grow(a, s, b);
    DivUnique(a * b, q, a * s + r);
    assert x == a * y + r && y == b * q + s;
  }

  lemma {:induction false} Pow2Sum(a: nat, b: nat)
    ensures Pow2(a + b) == Pow2(a) * Pow2(b)
    decreases b
  {
    if b > 0 { Pow2Sum(a, b - 1); }
  }

  lemma HighBit(w: nat, a: nat, i: nat, high: nat)
    requires high == w / Pow2(a)
    ensures HasBit(high, i) <==> HasBit(w, a + i)
  {
    hide Pow2;
    Pow2Sum(a, i);
    DivDiv(w, Pow2(a), Pow2(i));
  }

  lemma AddedAbove(d: nat, e: nat, q: nat, lo: nat)
    requires d > 0
    ensures (d * (2 * e) * q + lo) / d % 2 == lo / d % 2
  {
    Associate(d, 2 * e, q);
    Associate(2, e, q);
    DivShift(d, 2 * (e * q), lo);
  }

  lemma Halves(a: nat, i: nat)
    requires i < a
    ensures Pow2(a) == Pow2(i) * (2 * Pow2(a - i - 1))
  {
    Pow2Sum(i, a - i);
  }

  lemma LowBit(a: nat, i: nat, q: nat, lo: nat)
    requires i < a
    ensures HasBit(Pow2(a) * q + lo, i) <==> HasBit(lo, i)
  {
    hide Pow2;
    Halves(a, i);
    AddedAbove(Pow2(i), Pow2(a - i - 1), q, lo);
  }

  /** A number is its bits. */
  lemma {:induction false} SameBits(x: nat, y: nat, n: nat)
    requires x < Pow2(n) && y < Pow2(n) && forall i: nat | i < n :: HasBit(x, i) <==> HasBit(y, i)
    ensures x == y
    decreases n
  {
    if n > 0 {
      assert HasBit(x, 0) <==> HasBit(y, 0);
      forall i: nat | i < n - 1 ensures HasBit(x / 2, i) <==> HasBit(y / 2, i) {
        HighBit(x, 1, i, x / 2);
        HighBit(y, 1, i, y / 2);
      }
      SameBits(x / 2, y / 2, n - 1);
    }
  }

  lemma LowSame(x: nat, y: nat)
    requires Decode(x) == Decode(y)
    ensures x % 0x1000 == y % 0x1000
  {
    assert Pow2(12) == 0x1000;
    forall i: nat | i < 12 ensures HasBit(x % 0x1000, i) <==> HasBit(y % 0x1000, i) {
      LowBit(12, i, x / 0x1000, x % 0x1000);
      LowBit(12, i, y / 0x1000, y % 0x1000);
      assert i in Decode(x).bits <==> i in Decode(y).bits;
    }
    SameBits(x % 0x1000, y % 0x1000, 12);
  }

  lemma Pow2At52()
    ensures Pow2(52) == TWO52
  {
    assert Pow2(13) == 0x2000;
    Pow2Sum(13, 13);
    Pow2Sum(26, 26);
  }

  lemma HighSame(x: nat, y: nat)
    requires x < TWO64 && y < TWO64 && Decode(x) == Decode(y)
    ensures x / TWO52 == y / TWO52
  {
    Pow2At52();
    assert Pow2(12) == 0x1000;
    forall i: nat | i < 12 ensures HasBit(x / TWO52, i) <==> HasBit(y / TWO52, i) {
      HighBit(x, 52, i, x / TWO52);
      HighBit(y, 52, i, y / TWO52);
      assert 52 + i in Decode(x).bits <==> 52 + i in Decode(y).bits;
    }
    SameBits(x / TWO52, y / TWO52, 12);
  }

  /** The split form fits, and loses nothing: different 64-bit words split differently. */
  lemma DecodeExact(x: nat, y: nat)
    requires x < TWO64 && y < TWO64
    ensures Decode(x).Fits()
    ensures Decode(x) == Decode(y) <==> x == y
  {
    if Decode(x) == Decode(y) {
      LowSame(x, y);
      HighSame(x, y);
      DivDiv(x, 0x1000, 0x100_0000_0000);
      DivDiv(y, 0x1000, 0x100_0000_0000);
    }
  }

  lemma DecodeZero()
    ensures Decode(0) == ZERO
  {
    assert forall i: nat :: 0 / Pow2(i) % 2 == 0;
  }
}
