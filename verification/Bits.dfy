// The binary digits of numbers, and what the operations on words do to them.
module Bits {
  import opened Words

  lemma XorStep(x: nat, k: nat)
    ensures Xor(x, k) / 2 == Xor(x / 2, k / 2) && Xor(x, k) % 2 == (x + k) % 2
  { }

  lemma {:induction false} XorTwice(x: nat, k: nat)
    ensures Xor(Xor(x, k), k) == x
    decreases x + k
  {
    if x != 0 || k != 0 {
      hide Xor;
      XorTwice(x / 2, k / 2);
      var z := Xor(x, k);
      XorStep(x, k);
      XorStep(z, k);
      SameHalves(Xor(z, k), x, z, k);
    }
  }

  lemma SameHalves(a: nat, x: nat, z: nat, k: nat)
    requires a / 2 == x / 2 && a % 2 == (z + k) % 2 && z % 2 == (x + k) % 2
    ensures a == x
  { }

  function Halve(x: nat, n: nat): nat { if n == 0 then x else Halve(x / 2, n - 1) }

  lemma {:induction false} XorHalves(x: nat, y: nat, n: nat)
    ensures Halve(Xor(x, y), n) == Xor(Halve(x, n), Halve(y, n))
    decreases n
  {
    if n > 0 {
      XorStep(x, y);
      hide Xor;
      XorHalves(x / 2, y / 2, n - 1);
    }
  }

  lemma {:induction false} HalveShrinks(x: nat, n: nat)
    ensures Halve(x, n) <= x && (n > 0 && x > 0 ==> Halve(x, n) < x)
    decreases n
  {
    if n > 0 { HalveShrinks(x / 2, n - 1); }
  }

  lemma {:induction false} HalveDivides(x: nat, n: nat)
    ensures Pow2(n) > 0 && Halve(x, n) == x / Pow2(n)
    decreases n
  {
    PowPositive(n);
    if n > 0 {
      PowPositive(n - 1);
      HalveDivides(x / 2, n - 1);
      HalfThenDivide(x, Pow2(n - 1));
    }
  }

  lemma {:induction false} PowPositive(n: nat)
    ensures Pow2(n) > 0
  {
    if n > 0 { PowPositive(n - 1); }
  }

  lemma HalfThenDivide(x: nat, b: nat)
    requires b > 0
    ensures x / (2 * b) == x / 2 / b
  {
    var h := x / 2;
    var q, r := h / b, h % b;
    assert h == b * q + r;
    assert x == 2 * b * q + (2 * r + x % 2);
    Quotient(x, 2 * b, q, 2 * r + x % 2);
  }

  lemma Quotient(x: nat, d: nat, q: nat, r: nat)
    requires d > 0 && x == d * q + r && r < d
    ensures x / d == q
  {
    var k: int := x / d - q;
    assert x == d * (x / d) + x % d;
    assert d * k + d * q == d * (x / d);
    FarFromZero(d, k);
  }

  lemma FarFromZero(d: nat, k: int)
    ensures (k >= 1 ==> d * k >= d) && (k <= -1 ==> d * k + d <= 0)
  { }

  // --- digits ---

  function Bit(x: nat, i: nat): nat { Halve(x, i) % 2 }

  // The usual reading of a digit.
  lemma BitIs(x: nat, i: nat)
    ensures Pow2(i) > 0 && Bit(x, i) == x / Pow2(i) % 2
  {
    HalveDivides(x, i);
  }

  // A number is its digits.
  lemma {:induction false} BitsDecide(x: nat, y: nat, n: nat)
    requires x < Pow2(n) && y < Pow2(n) && forall i: nat | i < n :: Bit(x, i) == Bit(y, i)
    ensures x == y
  {
    if n > 0 {
      assert Bit(x, 0) == Bit(y, 0);
      forall i: nat | i < n - 1 ensures Bit(x / 2, i) == Bit(y / 2, i) { assert Bit(x, i + 1) == Bit(y, i + 1); }
      BitsDecide(x / 2, y / 2, n - 1);
    }
  }

  lemma {:induction false} XorBit(x: nat, y: nat, i: nat)
    ensures Bit(Xor(x, y), i) == (Bit(x, i) + Bit(y, i)) % 2
    decreases i
  {
    XorStep(x, y);
    if i > 0 {
      hide Xor;
      XorBit(x / 2, y / 2, i - 1);
    }
  }

  lemma AndStep(x: nat, y: nat)
    ensures And(x, y) / 2 == And(x / 2, y / 2)
    ensures And(x, y) % 2 == if x % 2 == 1 && y % 2 == 1 then 1 else 0
  { }

  lemma {:induction false} AndBit(x: nat, y: nat, i: nat)
    ensures Bit(And(x, y), i) == if Bit(x, i) == 1 && Bit(y, i) == 1 then 1 else 0
    decreases i
  {
    AndStep(x, y);
    if i > 0 {
      hide And;
      AndBit(x / 2, y / 2, i - 1);
    }
  }

  lemma {:induction false} NotBits(x: nat, n: nat, i: nat)
    requires x < Pow2(n) && i < n
    ensures Bit(Pow2(n) - 1 - x, i) == 1 - Bit(x, i)
    decreases i
  {
    var y := Pow2(n) - 1 - x;
    assert Pow2(n) == 2 * Pow2(n - 1);
    assert y / 2 == Pow2(n - 1) - 1 - x / 2 && y % 2 == 1 - x % 2;
    if i > 0 { NotBits(x / 2, n - 1, i - 1); }
  }

  lemma NotBit(x: Word, i: nat)
    requires i < 32
    ensures Bit(Not32(x), i) == 1 - Bit(x, i)
  {
    PowerValues();
    NotBits(x, 32, i);
  }

  lemma {:induction false} HalveTwice(x: nat, n: nat, i: nat)
    ensures Halve(Halve(x, n), i) == Halve(x, n + i)
    decreases n
  {
    if n > 0 { HalveTwice(x / 2, n - 1, i); }
  }

  lemma {:induction false} ShrHalves(x: Word, n: nat)
    ensures Shr32(x, n) == Halve(x, n)
    decreases n
  {
    if n > 0 { ShrHalves(x / 2, n - 1); }
  }

  // A shift drops the low digits.
  lemma ShrBit(x: Word, n: nat, i: nat)
    ensures Bit(Shr32(x, n), i) == Bit(x, n + i)
  {
    ShrHalves(x, n);
    HalveTwice(x, n, i);
  }

  // A digit put on top of x disturbs none below.
  lemma {:induction false} TopBit(x: nat, b: nat, k: nat, i: nat)
    requires x < Pow2(k) && b < 2 && i <= k
    ensures Bit(x + b * Pow2(k), i) == if i == k then b else Bit(x, i)
    decreases i
  {
    if k > 0 {
      assert Pow2(k) == 2 * Pow2(k - 1);
      var y := x + b * Pow2(k);
      assert y == x + 2 * (b * Pow2(k - 1));
      assert y / 2 == x / 2 + b * Pow2(k - 1) && y % 2 == x % 2;
      if i > 0 { TopBit(x / 2, b, k - 1, i - 1); }
    }
  }

  // A rotation moves digit i + n round to digit i.
  lemma {:induction false} RotrBit(x: Word, n: nat, i: nat)
    requires i < 32
    ensures Bit(Rotr32(x, n), i) == Bit(x, (i + n) % 32)
    decreases n
  {
    if n > 0 {
      var y := x / 2 + x % 2 * 0x8000_0000;
      RotrBit(y, n - 1, i);
      RotrOnce(x, (i + (n - 1)) % 32);
      assert ((i + (n - 1)) % 32 + 1) % 32 == (i + n) % 32;
    }
  }

  lemma RotrOnce(x: Word, i: nat)
    requires i < 32
    ensures Bit(x / 2 + x % 2 * 0x8000_0000, i) == Bit(x, (i + 1) % 32)
  {
    PowerValues();
    assert Pow2(31) == 0x8000_0000;
    TopBit(x / 2, x % 2, 31, i);
  }
}
