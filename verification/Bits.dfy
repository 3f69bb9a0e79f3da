// Bitwise operators of C on unsigned integers, defined bit by bit.
module Bits {

  function Pow2(k: nat): (p: nat)
    ensures p > 0
  {
    if k == 0 then 1 else 2 * Pow2(k - 1)
  }

  predicate BitAt(x: nat, k: nat) {
    if k == 0 then x % 2 == 1 else BitAt(x / 2, k - 1)
  }

  function Bit(b: bool): nat {
    if b then 1 else 0
  }

  // x | y
  function Or(x: nat, y: nat): nat
    decreases x + y
  {
    if x == 0 && y == 0 then 0 else 2 * Or(x / 2, y / 2) + Bit(x % 2 == 1 || y % 2 == 1)
  }

  // x & y
  function And(x: nat, y: nat): nat {
    if x == 0 then 0 else 2 * And(x / 2, y / 2) + Bit(x % 2 == 1 && y % 2 == 1)
  }

  // x & ~y
  function AndNot(x: nat, y: nat): nat {
    if x == 0 then 0 else 2 * AndNot(x / 2, y / 2) + Bit(x % 2 == 1 && y % 2 != 1)
  }

  lemma Halve(h: nat, b: bool)
    ensures (2 * h + Bit(b)) / 2 == h && (2 * h + Bit(b)) % 2 == Bit(b)
  {
  }

  lemma {:induction false} ZeroBits(k: nat)
    ensures !BitAt(0, k)
  {
    if k > 0 { ZeroBits(k - 1); }
  }

  lemma OrHalf(x: nat, y: nat)
    ensures Or(x, y) / 2 == Or(x / 2, y / 2)
    ensures Or(x, y) % 2 == 1 <==> x % 2 == 1 || y % 2 == 1
  {
    Halve(Or(x / 2, y / 2), x % 2 == 1 || y % 2 == 1);
  }

  lemma AndNotHalf(x: nat, y: nat)
    ensures AndNot(x, y) / 2 == AndNot(x / 2, y / 2)
    ensures AndNot(x, y) % 2 == 1 <==> x % 2 == 1 && y % 2 != 1
  {
    Halve(AndNot(x / 2, y / 2), x % 2 == 1 && y % 2 != 1);
  }

  lemma {:induction false} OrBit(x: nat, y: nat, k: nat)
    ensures BitAt(Or(x, y), k) <==> BitAt(x, k) || BitAt(y, k)
    decreases k
  {
    OrHalf(x, y);
    if k > 0 { OrBit(x / 2, y / 2, k - 1); }
  }

  lemma {:induction false} AndNotBit(x: nat, y: nat, k: nat)
    ensures BitAt(AndNot(x, y), k) <==> BitAt(x, k) && !BitAt(y, k)
    decreases k
  {
    AndNotHalf(x, y);
    if k > 0 { AndNotBit(x / 2, y / 2, k - 1); }
  }

  lemma {:induction false} Pow2Bit(j: nat, k: nat)
    ensures BitAt(Pow2(j), k) <==> j == k
  {
    if j > 0 && k > 0 {
      Pow2Bit(j - 1, k - 1);
    } else if k > 0 {
      ZeroBits(k - 1);
    }
  }

  lemma HalfDiv(x: nat, p: nat)
    requires p > 0
    ensures x / (2 * p) == x / 2 / p
  {
    var q, r := x / 2 / p, (x / 2) % p;
    assert x / 2 == q * p + r;
    assert x == q * (2 * p) + (2 * r + x % 2);
    DivModUnique(x, 2 * p, q, 2 * r + x % 2);
  }

  // Bit k is the parity of x >> k.
  lemma {:induction false} BitIsParity(x: nat, k: nat)
    ensures BitAt(x, k) <==> x / Pow2(k) % 2 == 1
    decreases k
  {
    if k > 0 {
      BitIsParity(x / 2, k - 1);
      HalfDiv(x, Pow2(k - 1));
    }
  }

  // Testing one bit: x & (1 << k) is non-zero exactly when the bit is set.
  lemma {:induction false} TestBit(x: nat, k: nat)
    ensures And(x, Pow2(k)) != 0 <==> BitAt(x, k)
  {
    if x == 0 {
      ZeroBits(k);
    } else if k > 0 {
      TestBit(x / 2, k - 1);
    } else {
      AndZero(x / 2);
    }
  }

  lemma {:induction false} AndZero(x: nat)
    ensures And(x, 0) == 0
  {
    if x != 0 { AndZero(x / 2); }
  }

  lemma {:induction false} OrBound(x: nat, y: nat, k: nat)
    requires x < Pow2(k) && y < Pow2(k)
    ensures Or(x, y) < Pow2(k)
  {
    if k > 0 && (x != 0 || y != 0) { OrBound(x / 2, y / 2, k - 1); }
  }

  lemma {:induction false} AndNotBound(x: nat, y: nat)
    ensures AndNot(x, y) <= x
  {
    if x != 0 { AndNotBound(x / 2, y / 2); }
  }

  // Flags below the alignment of a number are added to it.
  lemma {:induction false} OrAligned(x: nat, flags: nat, k: nat)
    requires x % Pow2(k) == 0 && flags < Pow2(k)
    ensures Or(x, flags) == x + flags
  {
    if k == 0 {
      OrZero(x);
    } else if x != 0 || flags != 0 {
      HalfAligned(x, k);
      OrAligned(x / 2, flags / 2, k - 1);
    }
  }

  lemma HalfAligned(x: nat, k: nat)
    requires k > 0 && x % Pow2(k) == 0
    ensures x % 2 == 0 && (x / 2) % Pow2(k - 1) == 0
  {
    var p, q := Pow2(k - 1), x / Pow2(k);
    assert x == q * (2 * p);
    assert x == 2 * (q * p);
    MultipleMod(q, p);
  }

  lemma MultipleMod(q: nat, p: nat)
    requires p > 0
    ensures (q * p) % p == 0 && (q * p) / p == q
  {
    assert q * p == q * p + 0;
    DivModUnique(q * p, p, q, 0);
  }

  lemma DivModUnique(x: nat, p: nat, q: nat, r: nat)
    requires p > 0 && r < p && x == q * p + r
    ensures x / p == q && x % p == r
  {
    var d := x / p - q;
    assert x == (x / p) * p + x % p;
    assert d * p == (x / p) * p - q * p;
    assert d >= 1 ==> d * p >= p;
    assert d <= -1 ==> d * p + p <= 0;
  }

  lemma {:induction false} OrZero(x: nat)
    ensures Or(x, 0) == x
  {
    if x != 0 { OrZero(x / 2); }
  }

  // One bit of a mask 2 * p - 1.
  lemma MaskStep(x: nat, p: nat)
    requires p > 0
    ensures And(x, 2 * p - 1) == 2 * And(x / 2, p - 1) + x % 2
    ensures AndNot(x, 2 * p - 1) == 2 * AndNot(x / 2, p - 1)
  {
    assert (2 * p - 1) / 2 == p - 1 && (2 * p - 1) % 2 == 1;
  }

  lemma OnesStep(x: nat, p: nat)
    requires p > 0 && And(x / 2, p - 1) == (x / 2) % p && AndNot(x / 2, p - 1) == x / 2 - (x / 2) % p
    ensures And(x, 2 * p - 1) == x % (2 * p) && AndNot(x, 2 * p - 1) == x - x % (2 * p)
  {
    MaskStep(x, p);
    HalfMod(x, p);
  }

  // A mask of k ones keeps the low k bits; its complement clears them.
  lemma {:induction false} AndOnes(x: nat, k: nat)
    ensures And(x, Pow2(k) - 1) == x % Pow2(k)
    ensures AndNot(x, Pow2(k) - 1) == x - x % Pow2(k)
    decreases k
  {
    if k == 0 {
      AndZero(x);
      AndNotZero(x);
    } else {
      AndOnes(x / 2, k - 1);
      OnesStep(x, Pow2(k - 1));
    }
  }

  lemma {:induction false} AndNotZero(x: nat)
    ensures AndNot(x, 0) == x
  {
    if x != 0 { AndNotZero(x / 2); }
  }

  lemma HalfMod(x: nat, p: nat)
    requires p > 0
    ensures x % (2 * p) == 2 * ((x / 2) % p) + x % 2
  {
    var q, r := (x / 2) / p, (x / 2) % p;
    assert x / 2 == q * p + r;
    assert x == q * (2 * p) + (2 * r + x % 2);
    DivModUnique(x, 2 * p, q, 2 * r + x % 2);
  }

  lemma {:induction false} Pow2Monotone(j: nat, k: nat)
    requires j < k
    ensures Pow2(j) < Pow2(k)
    decreases k
  {
    if j < k - 1 { Pow2Monotone(j, k - 1); }
  }

  lemma Pow2Values()
    ensures Pow2(3) == 8 && Pow2(8) == 0x100 && Pow2(12) == 0x1000 && Pow2(21) == 0x20_0000
    ensures Pow2(32) == 0x1_0000_0000
  {
    assert Pow2(4) == 16;
    assert Pow2(16) == 0x1_0000;
    assert Pow2(20) == 0x10_0000;
    assert Pow2(24) == 0x100_0000;
    assert Pow2(28) == 0x1000_0000;
  }
}
