// What the wrapping byte counter does to the digest of very long messages: exactly when it is right, and
// messages for which it is wrong. Every step after the lanes converge can be undone, so a wrong start
// cannot lead to the right digest.
module Xxh64Wrap {
  import opened Words
  import opened Bits
  import opened Xxh64

  // --- each operation can be undone ---

  lemma XorInjective(x: Word64, y: Word64, k: Word64)
    requires Xor64(x, k) == Xor64(y, k)
    ensures x == y
  {
    XorTwice(x, k);
    XorTwice(y, k);
  }

  lemma AddsMultiple(r: int, k: int)
    ensures (r + M64 * k) % M64 == r % M64
  { }

  lemma MulReduced(a: nat, b: nat)
    ensures a % M64 * b % M64 == a * b % M64
  {
    var q, r := a / M64, a % M64;
    assert a == M64 * q + r;
    assert a * b == r * b + M64 * (q * b);
    AddsMultiple(r * b, q * b);
  }

  lemma MulUndone(x: Word64, p: Word64, q: Word64)
    requires p * q % M64 == 1
    ensures Mul(Mul(x, p), q) == x
  {
    MulReduced(x * p, q);
    var t := p * q / M64;
    assert p * q == M64 * t + 1;
    assert x * p * q == x * (p * q) == x + M64 * (x * t);
    AddsMultiple(x, x * t);
  }

  // The inverses of the odd constants modulo 2^64.
  const Q1: Word64 := 614540362697595703
  const Q2: Word64 := 839798700976720815
  const Q3: Word64 := 16855272203555305545

  lemma Inverses()
    ensures P1 * Q1 % M64 == 1 && P2 * Q2 % M64 == 1 && P3 * Q3 % M64 == 1
    ensures Q1 * P1 % M64 == 1 && Q2 * P2 % M64 == 1
  { }

  lemma MulInjective(x: Word64, y: Word64, p: Word64, q: Word64)
    requires p * q % M64 == 1 && Mul(x, p) == Mul(y, p)
    ensures x == y
  {
    MulUndone(x, p, q);
    MulUndone(y, p, q);
  }

  lemma PlusInjective(x: Word64, y: Word64, c: Word64)
    requires Plus(x, c) == Plus(y, c)
    ensures x == y
  { }

  function Left(x: Word64): Word64 { x * 2 % M64 + x / 0x8000_0000_0000_0000 }
  function Right(u: Word64): Word64 { u / 2 + u % 2 * 0x8000_0000_0000_0000 }

  lemma LeftOfRight(x: Word64)
    ensures Left(Right(x)) == x
  {
    var half, odd := x / 2, x % 2;
    assert Right(x) * 2 == 2 * half + odd * M64;
    AddsMultiple(2 * half, odd);
    assert Right(x) / 0x8000_0000_0000_0000 == odd;
  }

  lemma RightOfLeft(x: Word64)
    ensures Right(Left(x)) == x
  {
    var top := x / 0x8000_0000_0000_0000;
    assert x * 2 == (x * 2 - M64 * top) + M64 * top;
    AddsMultiple(x * 2 - M64 * top, top);
    assert Left(x) == x * 2 - M64 * top + top;
  }

  function Unrotl(t: Word64, n: nat): Word64 { if n == 0 then t else Right(Unrotl(t, n - 1)) }

  // A rotation to the left moves digit i to digit i + n round.
  lemma {:induction false} RotlBit(x: Word64, n: nat, i: nat)
    requires i < 64
    ensures Bit(Rotl(x, n), (i + n) % 64) == Bit(x, i)
    decreases n
  {
    if n > 0 {
      RotlStep(x, n - 1);
      hide Rotl, Left, Bit;
      LeftBit(x, i);
      RotlBit(Left(x), n - 1, (i + 1) % 64);
      WrapOnce(i, n);
    } else {
      assert i % 64 == i;
    }
  }

  lemma WrapOnce(i: nat, n: nat)
    requires i < 64 && n > 0
    ensures ((i + 1) % 64 + (n - 1)) % 64 == (i + n) % 64
  {
    if i == 63 { assert (63 + n) % 64 == (n - 1) % 64; }
  }

  lemma LeftBit(x: Word64, i: nat)
    requires i < 64
    ensures Bit(Left(x), (i + 1) % 64) == Bit(x, i)
  {
    var top, y := x / 0x8000_0000_0000_0000, x % 0x8000_0000_0000_0000;
    HalfWord();
    assert x == y + top * Pow2(63);
    TopBit(y, top, 63, i);
    assert x * 2 == 2 * y + M64 * top;
    AddsMultiple(2 * y, top);
    assert Left(x) == 2 * y + top && (2 * y + top) / 2 == y;
  }

  lemma HalfWord()
    ensures Pow2(63) == 0x8000_0000_0000_0000
  {
    PowerValues();
  }

  lemma RotlStep(x: Word64, n: nat)
    ensures Rotl(x, n + 1) == Rotl(Left(x), n)
  { }

  lemma {:induction false} RotlReaches(t: Word64, n: nat)
    ensures Rotl(Unrotl(t, n), n) == t
  {
    if n > 0 {
      hide Left, Right, Rotl;
      RotlReaches(t, n - 1);
      RotlStep(Unrotl(t, n), n - 1);
      LeftOfRight(Unrotl(t, n - 1));
    }
  }

  lemma {:induction false} RotlInjective(x: Word64, y: Word64, n: nat)
    requires Rotl(x, n) == Rotl(y, n)
    ensures x == y
    decreases n
  {
    if n > 0 {
      hide Left, Right, Rotl;
      RotlStep(x, n - 1);
      RotlStep(y, n - 1);
      RotlInjective(Left(x), Left(y), n - 1);
      RightOfLeft(x);
      RightOfLeft(y);
    }
  }

  // x ^ (x >> n) determines x, from the top digits down.
  lemma {:induction false} FoldInjective(x: nat, y: nat, n: nat)
    requires n > 0 && Xor(x, Halve(x, n)) == Xor(y, Halve(y, n))
    ensures x == y
    decreases x + y
  {
    if x != 0 || y != 0 {
      hide Xor, Halve;
      var a, b := Halve(x, n), Halve(y, n);
      XorHalves(x, a, n);
      XorHalves(y, b, n);
      HalveShrinks(x, n);
      HalveShrinks(y, n);
      FoldInjective(a, b, n);
      XorTwice(x, a);
      XorTwice(y, a);
    }
  }

  lemma Shifts(x: Word64)
    ensures Shr(x, 0x2_0000_0000) == Halve(x, 33) && Shr(x, 0x2000_0000) == Halve(x, 29)
    ensures Shr(x, 0x1_0000_0000) == Halve(x, 32)
  {
    hide Halve;
    PowerValues();
    assert Pow2(8) == 0x100;
    assert Pow2(16) == 0x1_0000;
    assert Pow2(24) == 0x100_0000;
    HalveDivides(x, 29);
    HalveDivides(x, 32);
    HalveDivides(x, 33);
  }

  // --- so is everything after the lanes converge ---

  lemma StepsInjective(x: Word64, y: Word64, a: Word64, n: nat, p: Word64, q: Word64)
    requires p * q % M64 == 1 && Mul(Rotl(Xor64(x, a), n), p) == Mul(Rotl(Xor64(y, a), n), p)
    ensures x == y
  {
    hide Rotl, Mul, Xor64;
    MulInjective(Rotl(Xor64(x, a), n), Rotl(Xor64(y, a), n), p, q);
    RotlInjective(Xor64(x, a), Xor64(y, a), n);
    XorInjective(x, y, a);
  }

  lemma {:induction false} RestInjective(x: Word64, y: Word64, p: bytes)
    requires Rest(x, p) == Rest(y, p)
    ensures x == y
    decreases |p|
  {
    hide Rotl, Mul, Xor64, Plus, Lane, Round;
    Inverses();
    if |p| >= 8 {
      RestInjective(Step8(x, p[..8]), Step8(y, p[..8]), p[8..]);
      var a := Round(0, Lane(p[..8]));
      PlusInjective(Mul(Rotl(Xor64(x, a), 27), P1), Mul(Rotl(Xor64(y, a), 27), P1), P4);
      StepsInjective(x, y, a, 27, P1, Q1);
    } else if |p| >= 4 {
      RestInjective(Step4(x, p[..4]), Step4(y, p[..4]), p[4..]);
      var a := Mul(Lane(p[..4]), P1);
      PlusInjective(Mul(Rotl(Xor64(x, a), 23), P2), Mul(Rotl(Xor64(y, a), 23), P2), P3);
      StepsInjective(x, y, a, 23, P2, Q2);
    } else if |p| >= 1 {
      RestInjective(Step1(x, p[0]), Step1(y, p[0]), p[1..]);
      StepsInjective(x, y, Mul(p[0], P5), 11, P1, Q1);
    }
  }

  lemma FoldWord(x: Word64, y: Word64, n: nat)
    requires 0 < n && Halve(x, n) < M64 && Halve(y, n) < M64 && Xor64(x, Halve(x, n)) == Xor64(y, Halve(y, n))
    ensures x == y
  {
    FoldInjective(x, y, n);
  }

  lemma AvalancheInjective(x: Word64, y: Word64)
    requires Avalanche(x) == Avalanche(y)
    ensures x == y
  {
    hide Mul, Xor64, Halve, Shr;
    Inverses();
    Shifts(x);
    Shifts(y);
    var x1, y1 := Mul(Xor64(x, Shr(x, 0x2_0000_0000)), P2), Mul(Xor64(y, Shr(y, 0x2_0000_0000)), P2);
    Shifts(x1);
    Shifts(y1);
    var x2, y2 := Mul(Xor64(x1, Shr(x1, 0x2000_0000)), P3), Mul(Xor64(y1, Shr(y1, 0x2000_0000)), P3);
    Shifts(x2);
    Shifts(y2);
    FoldWord(x2, y2, 32);
    MulInjective(Xor64(x1, Shr(x1, 0x2000_0000)), Xor64(y1, Shr(y1, 0x2000_0000)), P3, Q3);
    FoldWord(x1, y1, 29);
    MulInjective(Xor64(x, Shr(x, 0x2_0000_0000)), Xor64(y, Shr(y, 0x2_0000_0000)), P2, Q2);
    FoldWord(x, y, 33);
  }

  // The digest is right if and only if the counter tells rightly whether there was a whole stripe, or
  // the lanes happen to converge to the very number a short message starts from.
  lemma DigestRightIff(m: bytes)
    ensures ByCounter(m) == Hash(m) <==> Counted(|m|) || Converge(Stripes(INIT, m)) == P5
  {
    hide Avalanche, Rest, Converge, Stripes;
    if !Counted(|m|) && ByCounter(m) == Hash(m) {
      var c, rest := Converge(Stripes(INIT, m)), m[|m| / 32 * 32..];
      AvalancheInjective(Rest(Add64(P5, |m|), rest), Rest(Add64(c, |m|), rest));
      RestInjective(Add64(P5, |m|), Add64(c, |m|), rest);
      SameSum(P5, c, |m|);
    }
  }

  lemma SameSum(x: Word64, y: Word64, n: nat)
    requires Add64(x, n) == Add64(y, n)
    ensures x == y
  {
    var k := n / M64;
    assert n == M64 * k + n % M64;
    AddsMultiple(x + n % M64, k);
    AddsMultiple(y + n % M64, k);
  }

  // All messages whose length is a multiple of 2^64 bytes get the digest of the empty one.
  lemma OneDigest(m: bytes)
    requires |m| % M64 == 0
    ensures ByCounter(m) == ByCounter([]) == Hash([])
  {
    hide Avalanche, Converge, Stripes;
    assert |m| / 32 * 32 == |m|;
    SameSumAsNone(P5, |m|);
  }

  lemma SameSumAsNone(x: Word64, n: nat)
    requires n % M64 == 0
    ensures Add64(x, n) == Add64(x, 0)
  {
    assert n == M64 * (n / M64);
    AddsMultiple(x, n / M64);
  }

  // --- and messages for which it is wrong ---

  function Minus(x: Word64, y: Word64): Word64 { if x >= y then x - y else x + M64 - y }

  // The input that takes a lane to a wanted value.
  function InputFor(v: Word64, t: Word64): Word64 { Mul(Minus(Unrotl(Mul(t, Q1), 31), v), Q2) }

  lemma RoundReaches(v: Word64, t: Word64)
    ensures Round(v, InputFor(v, t)) == t
  {
    hide Mul, Rotl, Unrotl;
    Inverses();
    var u := Unrotl(Mul(t, Q1), 31);
    MulUndone(Minus(u, v), Q2, P2);
    assert Plus(v, Minus(u, v)) == u;
    RotlReaches(Mul(t, Q1), 31);
    MulUndone(t, Q1, P1);
  }

  function LeBytes(n: nat, k: nat): (p: bytes)
    ensures |p| == k
  {
    if k == 0 then [] else [n % 256] + LeBytes(n / 256, k - 1)
  }

  lemma {:induction false} LeReadsBack(n: nat, k: nat)
    requires n < Pow256(k)
    ensures Le(LeBytes(n, k)) == n
  {
    if k > 0 {
      LeReadsBack(n / 256, k - 1);
      assert LeBytes(n, k)[1..] == LeBytes(n / 256, k - 1);
    }
  }

  lemma LaneReadsBack(n: Word64)
    ensures Lane(LeBytes(n, 8)) == n
  {
    assert Pow256(8) == M64;
    LeReadsBack(n, 8);
  }

  // One stripe can take the lanes anywhere.
  lemma MixReaches(l: Lanes, t: Lanes) returns (p: Stripe)
    ensures Mix(l, p) == t
  {
    hide Round, InputFor, Lane, LeBytes;
    var a, b := LeBytes(InputFor(l.v1, t.v1), 8), LeBytes(InputFor(l.v2, t.v2), 8);
    var c, d := LeBytes(InputFor(l.v3, t.v3), 8), LeBytes(InputFor(l.v4, t.v4), 8);
    p := a + b + c + d;
    assert p[..8] == a && p[8..16] == b && p[16..24] == c && p[24..] == d;
    LaneReadsBack(InputFor(l.v1, t.v1));
    LaneReadsBack(InputFor(l.v2, t.v2));
    LaneReadsBack(InputFor(l.v3, t.v3));
    LaneReadsBack(InputFor(l.v4, t.v4));
    RoundReaches(l.v1, t.v1);
    RoundReaches(l.v2, t.v2);
    RoundReaches(l.v3, t.v3);
    RoundReaches(l.v4, t.v4);
  }

  lemma {:induction false} RotlZero(n: nat)
    ensures Rotl(0, n) == 0
  {
    if n > 0 { RotlZero(n - 1); }
  }

  lemma RoundZero()
    ensures Round(0, 0) == 0
  {
    hide Rotl;
    RotlZero(31);
  }

  lemma MergeZero(acc: Word64)
    ensures Merge(acc, 0) == Plus(Mul(acc, P1), P4)
  {
    hide Round, Mul, Plus;
    RoundZero();
    XorZero(acc);
  }

  lemma Numbers()
    ensures Plus(Mul(0, P1), P4) == 9650029242287828579
    ensures Plus(Mul(9650029242287828579, P1), P4) == 16886523136464896664
    ensures Plus(Mul(16886523136464896664, P1), P4) == 18343090187728206987
    ensures Plus(Mul(18343090187728206987, P1), P4) == 4152819969490635184
    ensures Plus(0, 0) == 0
  { }

  lemma ZeroLanes()
    ensures Converge(Lanes(0, 0, 0, 0)) != P5
  {
    hide Rotl, Merge, Mul, Plus;
    Numbers();
    RotlZero(1);
    RotlZero(7);
    RotlZero(12);
    RotlZero(18);
    MergeZero(0);
    MergeZero(9650029242287828579);
    MergeZero(16886523136464896664);
    MergeZero(18343090187728206987);
  }

  lemma FullTurn(n: nat)
    requires n % M64 == M64 - 32
    ensures n % 32 == 0 && !Counted(n + 32)
  {
    var k := n / M64;
    assert n == M64 * k + M64 - 32 && n + 32 == M64 * (k + 1) && n == 32 * (M64 / 32 * (k + 1) - 1);
    AddsMultiple(0, k + 1);
  }

  // Whatever a message holds that is 32 bytes short of a multiple of 2^64, one more stripe can be chosen
  // so that the digest is wrong.
  lemma WrongFor(front: bytes) returns (p: Stripe)
    requires |front| % M64 == M64 - 32
    ensures ByCounter(front + p) != Hash(front + p)
  {
    hide Stripes, Converge, Mix, Counted, ByCounter, Hash;
    p := MixReaches(Stripes(INIT, front), Lanes(0, 0, 0, 0));
    FullTurn(|front|);
    OneMore(front, p);
    ZeroLanes();
    DigestRightIff(front + p);
  }
}
