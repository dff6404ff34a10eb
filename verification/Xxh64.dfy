// XXH64 with seed 0: the algorithm of the public xxHash description, and the streaming form.
module Xxh64 {
  import opened Words

  const P1: Word64 := 0x9E3779B185EBCA87
  const P2: Word64 := 0xC2B2AE3D27D4EB4F
  const P3: Word64 := 0x165667B19E3779F9
  const P4: Word64 := 0x85EBCA77C2B2AE63
  const P5: Word64 := 0x27D4EB2F165667C5

  // The same constants as the implementation writes them.
  const XXH_P1: Word64 := 11400714785074694791
  const XXH_P2: Word64 := 14029467366897019727
  const XXH_P3: Word64 := 1609587929392839161
  const XXH_P4: Word64 := 9650029242287828579
  const XXH_P5: Word64 := 2870177450012600261

  function Mul(x: Word64, y: Word64): Word64 { x * y % M64 }
  function Plus(x: Word64, y: Word64): Word64 { Add64(x, y) }
  function Xor64(x: Word64, y: Word64): Word64 { WordBits(x, y); Xor(x, y) }
  function Rotl(x: Word64, n: nat): Word64
    decreases n
  {
    if n == 0 then x else Rotl(x * 2 % M64 + x / 0x8000_0000_0000_0000, n - 1)
  }

  // The number little-endian bytes denote.
  function Le(p: bytes): nat { if p == [] then 0 else p[0] + 256 * Le(p[1..]) }

  lemma {:induction false} LeBound(p: bytes)
    ensures Le(p) < Pow256(|p|)
  {
    if p != [] { LeBound(p[1..]); }
  }

  function Lane(p: bytes): Word64
    requires |p| <= 8
  {
    LeBound(p);
    SmallPowers();
    Le(p)
  }

  lemma SmallPowers()
    ensures forall n: nat | n <= 8 :: Pow256(n) <= M64
  {
    assert Pow256(8) == M64;
    forall n: nat | n <= 8 ensures Pow256(n) <= M64 { PowerGrows(n, 8); }
  }

  lemma {:induction false} PowerGrows(a: nat, b: nat)
    requires a <= b
    ensures 1 <= Pow256(a) <= Pow256(b)
    decreases b
  {
    if a < b { PowerGrows(a, b - 1); } else if a > 0 { PowerGrows(a - 1, a - 1); }
  }

  function Round(acc: Word64, input: Word64): Word64 { Mul(Rotl(Plus(acc, Mul(input, P2)), 31), P1) }

  datatype Lanes = Lanes(v1: Word64, v2: Word64, v3: Word64, v4: Word64)

  const INIT := Lanes(Plus(P1, P2), P2, 0, M64 - P1)

  type Stripe = p: bytes | |p| == 32 witness seq(32, _ => 0)

  function Mix(l: Lanes, p: Stripe): Lanes {
    Lanes(Round(l.v1, Lane(p[..8])), Round(l.v2, Lane(p[8..16])),
          Round(l.v3, Lane(p[16..24])), Round(l.v4, Lane(p[24..])))
  }

  // The complete stripes of a message.
  function Stripes(l: Lanes, m: bytes): Lanes
    decreases |m|
  {
    if |m| < 32 then l else Stripes(Mix(l, m[..32]), m[32..])
  }

  function Merge(acc: Word64, v: Word64): Word64 { Plus(Mul(Xor64(acc, Round(0, v)), P1), P4) }

  function Converge(l: Lanes): Word64 {
    var acc := Plus(Plus(Plus(Rotl(l.v1, 1), Rotl(l.v2, 7)), Rotl(l.v3, 12)), Rotl(l.v4, 18));
    Merge(Merge(Merge(Merge(acc, l.v1), l.v2), l.v3), l.v4)
  }

  function Step8(acc: Word64, p: bytes): Word64
    requires |p| == 8
  {
    Plus(Mul(Rotl(Xor64(acc, Round(0, Lane(p))), 27), P1), P4)
  }

  function Step4(acc: Word64, p: bytes): Word64
    requires |p| == 4
  {
    Plus(Mul(Rotl(Xor64(acc, Mul(Lane(p), P1)), 23), P2), P3)
  }

  function Step1(acc: Word64, b: byte): Word64 { Mul(Rotl(Xor64(acc, Mul(b, P5)), 11), P1) }

  // The remaining input, by the largest of 8, 4 and 1 bytes that fits.
  function Rest(acc: Word64, p: bytes): Word64
    decreases |p|
  {
    if |p| >= 8 then Rest(Step8(acc, p[..8]), p[8..])
    else if |p| >= 4 then Rest(Step4(acc, p[..4]), p[4..])
    else if |p| >= 1 then Rest(Step1(acc, p[0]), p[1..])
    else acc
  }

  function Shr(x: Word64, d: nat): Word64
    requires d > 0
  {
    x / d
  }

  function Avalanche(x: Word64): Word64 {
    var x := Mul(Xor64(x, Shr(x, 0x2_0000_0000)), P2);
    var x := Mul(Xor64(x, Shr(x, 0x2000_0000)), P3);
    Xor64(x, Shr(x, 0x1_0000_0000))
  }

  function Hash(m: bytes): Word64 {
    var acc := if |m| < 32 then P5 else Converge(Stripes(INIT, m));
    Avalanche(Rest(Add64(acc, |m|), m[|m| / 32 * 32..]))
  }

  lemma {:induction false} StripesAppend(l: Lanes, a: bytes, b: bytes)
    requires |a| % 32 == 0
    ensures Stripes(l, a + b) == Stripes(Stripes(l, a), b)
    decreases |a|
  {
    hide Mix;
    if a == [] {
      assert a + b == b;
    } else {
      assert (a + b)[..32] == a[..32] && (a + b)[32..] == a[32..] + b;
      StripesAppend(Mix(l, a[..32]), a[32..], b);
    }
  }

  lemma OneMore(m: bytes, p: Stripe)
    requires |m| % 32 == 0
    ensures Stripes(INIT, m + p) == Mix(Stripes(INIT, m), p) && |m + p| % 32 == 0
  {
    hide Mix;
    StripesAppend(INIT, m, p);
    assert p[..32] == p && p[32..] == [];
  }

  // A partial stripe changes no lane.
  lemma PartialStripe(m: bytes, p: bytes)
    requires |m| % 32 == 0 && |p| < 32
    ensures Stripes(INIT, m + p) == Stripes(INIT, m)
    ensures (m + p)[|m + p| / 32 * 32..] == p
  {
    hide Mix;
    StripesAppend(INIT, m, p);
    assert |m| == 32 * (|m| / 32);
    assert |m + p| / 32 == |m| / 32;
  }

  lemma LeStep(p: bytes, i: nat)
    requires i < |p| <= 8
    ensures Le(p[i..]) == p[i] + 256 * Le(p[i + 1..]) < M64
  {
    assert p[i..][0] == p[i] && p[i..][1..] == p[i + 1..];
    LeBound(p[i..]);
    SmallPowers();
  }

  method Get64(p: bytes) returns (v: Word64)
    requires |p| == 8
    ensures v == Lane(p)
  {
    hide Le, Lane, Pow256;
    LeEmpty();
    v := 0;
    assert p[8..] == [];
    for i := 8 downto 0
      invariant v == Le(p[i..])
    {
      LeStep(p, i);
      v := v * 256 + p[i];
    }
    assert p[0..] == p;
    LaneIsLe(p);
  }

  lemma LaneIsLe(p: bytes)
    requires |p| <= 8
    ensures Lane(p) == Le(p)
  { }

  lemma LeEmpty()
    ensures Le([]) == 0
  { }

  method Get32(p: bytes) returns (v: Word64)
    requires |p| == 4
    ensures v == Lane(p)
  {
    hide Le;
    LeStep(p, 0);
    LeStep(p, 1);
    LeStep(p, 2);
    LeStep(p, 3);
    LeEmpty();
    assert p[0..] == p && p[4..] == [];
    v := p[0] as nat + p[1] as nat * 0x100 + p[2] as nat * 0x1_0000 + p[3] as nat * 0x100_0000;
  }

  method XxhRound(acc: Word64, input: Word64) returns (r: Word64)
    ensures r == Round(acc, input)
  {
    hide Rotl;
    var sum := (acc + input * XXH_P2 % M64) % M64;
    r := Rotl(sum, 31) * XXH_P1 % M64;
  }

  class Xxh64 {
    var total: Word64
    var v1: Word64
    var v2: Word64
    var v3: Word64
    var v4: Word64
    const tail: array<byte>
    var tailLen: nat
    ghost var done: bytes
    ghost var msg: bytes

    ghost predicate Streaming()
      reads this, tail
    {
      && tail.Length == 32 && tailLen < 32
      && |done| % 32 == 0 && Lanes(v1, v2, v3, v4) == Stripes(INIT, done)
    }

    ghost predicate Valid()
      reads this, tail
    {
      Streaming() && msg == done + tail[..tailLen] && total == Mod64(|msg|)
    }

    constructor ()
      ensures Valid() && msg == [] && fresh(tail)
    {
      total, tailLen := 0, 0;
      v1, v2, v3, v4 := (XXH_P1 + XXH_P2) % M64, XXH_P2, 0, (0 - XXH_P1) % M64;
      tail := new byte[32](_ => 0);
      done, msg := [], [];
    }

    method Block(p: Stripe)
      requires |done| % 32 == 0 && Lanes(v1, v2, v3, v4) == Stripes(INIT, done)
      modifies `v1, `v2, `v3, `v4, `done
      ensures |done| % 32 == 0 && done == old(done) + p && Lanes(v1, v2, v3, v4) == Stripes(INIT, done)
    {
      hide Round, Stripes;
      OneMore(done, p);
      var l1 := Get64(p[..8]);
      v1 := XxhRound(v1, l1);
      var l2 := Get64(p[8..16]);
      v2 := XxhRound(v2, l2);
      var l3 := Get64(p[16..24]);
      v3 := XxhRound(v3, l3);
      var l4 := Get64(p[24..]);
      v4 := XxhRound(v4, l4);
      done := done + p;
    }

    method FillTail(data: bytes) returns (p: nat)
      requires Streaming()
      modifies `v1, `v2, `v3, `v4, `done, `tailLen, tail
      ensures Streaming() && p <= |data| && (p < |data| ==> tailLen == 0)
      ensures done + tail[..tailLen] == old(done + tail[..tailLen]) + data[..p]
    {
      hide Stripes;
      p := 0;
      if tailLen != 0 {
        var take := 32 - tailLen;
        if take > |data| { take := |data|; }
        MemCopy(tail, tailLen, data[..take]);
        tailLen, p := tailLen + take, take;
        if tailLen == 32 {
          Block(tail[..]);
          tailLen := 0;
        }
      }
    }

    method Update(data: bytes)
      requires Valid()
      modifies this, tail
      ensures Valid() && msg == old(msg) + data
    {
      hide Stripes, Mod64, Add64;
      CountAdds(|msg|, |data|);
      total := Add64(total, |data|);
      var p := FillTail(data);
      while |data| - p >= 32
        invariant p <= |data| && (p < |data| ==> tailLen == 0)
        invariant Streaming() && done + tail[..tailLen] == msg + data[..p]
        invariant total == Mod64(|msg| + |data|) && msg == old(msg)
      {
        assert msg + data[..p + 32] == msg + data[..p] + data[p..p + 32];
        Block(data[p..p + 32]);
        p := p + 32;
      }
      assert msg + data == msg + data[..p] + data[p..];
      if p < |data| {
        MemCopy(tail, 0, data[p..]);
        tailLen := |data| - p;
      }
      msg := msg + data;
    }

    method Digest() returns (x: Word64)
      requires Valid()
      ensures x == ByCounter(msg) && (Counted(|msg|) ==> x == Hash(msg))
    {
      hide Stripes, Round, Rotl, Mul, Plus, Xor64, Lane, Shr, Rest, Hash, Counted, Add64, Mod64;
      if Counted(|msg|) { CountedAgrees(msg); }
      PartialStripe(done, tail[..tailLen]);
      WrappedSum(0, |msg|);
      if total >= 32 {
        x := Plus(Plus(Plus(Rotl(v1, 1), Rotl(v2, 7)), Rotl(v3, 12)), Rotl(v4, 18));
        var r1 := XxhRound(0, v1);
        x := Xor64(x, r1); x := Plus(Mul(x, XXH_P1), XXH_P4);
        var r2 := XxhRound(0, v2);
        x := Xor64(x, r2); x := Plus(Mul(x, XXH_P1), XXH_P4);
        var r3 := XxhRound(0, v3);
        x := Xor64(x, r3); x := Plus(Mul(x, XXH_P1), XXH_P4);
        var r4 := XxhRound(0, v4);
        x := Xor64(x, r4); x := Plus(Mul(x, XXH_P1), XXH_P4);
      } else {
        x := XXH_P5;
      }
      WrappedSum(x, |msg|);
      x := Add64(x, total);
      x := Finish(x, tail[..tailLen]);
      x := Xor64(x, Shr(x, 0x2_0000_0000)); x := Mul(x, XXH_P2);
      x := Xor64(x, Shr(x, 0x2000_0000)); x := Mul(x, XXH_P3);
      x := Xor64(x, Shr(x, 0x1_0000_0000));
    }
  }

  // The byte counter is 64 bits wide: after 2^64 bytes it can say that a long message was a short one.
  function ByCounter(m: bytes): Word64 {
    var acc := if |m| % M64 < 32 then P5 else Converge(Stripes(INIT, m));
    Avalanche(Rest(Add64(acc, |m|), m[|m| / 32 * 32..]))
  }

  // The counter tells rightly whether there was a whole stripe.
  predicate Counted(n: nat) { n < 32 || n % M64 >= 32 }

  lemma CountedAgrees(m: bytes)
    requires Counted(|m|)
    ensures ByCounter(m) == Hash(m)
  {
    hide Avalanche, Rest, Converge, Stripes, Add64;
    var whole, rest := |m| % M64 >= 32, m[|m| / 32 * 32..];
    assert whole == (|m| >= 32);
    assert ByCounter(m) == Avalanche(Rest(Add64(if whole then Converge(Stripes(INIT, m)) else P5, |m|), rest));
  }

  // Adding the wrapped counter is adding the length.
  lemma WrappedSum(x: Word64, n: nat)
    ensures Add64(x, Mod64(n)) == Add64(x, n) && Mod64(n) == n % M64
  {
    CountAdds(n, x);
  }

  // The three tail loops, over the bytes from p to end.
  method Finish(acc: Word64, rest: bytes) returns (x: Word64)
    ensures x == Rest(acc, rest)
  {
    hide Round, Rotl, Mul, Plus, Xor64, Lane;
    x := acc;
    var p := 0;
    while p + 8 <= |rest|
      invariant p <= |rest| && Rest(x, rest[p..]) == Rest(acc, rest)
    {
      RestStep(x, rest, p);
      var k := Get64(rest[p..p + 8]);
      var r := XxhRound(0, k);
      x := Xor64(x, r);
      x := Plus(Mul(Rotl(x, 27), XXH_P1), XXH_P4);
      p := p + 8;
    }
    if p + 4 <= |rest| {
      RestStep(x, rest, p);
      var k := Get32(rest[p..p + 4]);
      x := Xor64(x, Mul(k, XXH_P1));
      x := Plus(Mul(Rotl(x, 23), XXH_P2), XXH_P3);
      p := p + 4;
    }
    while p < |rest|
      invariant p <= |rest| < p + 4 && Rest(x, rest[p..]) == Rest(acc, rest)
    {
      RestStep(x, rest, p);
      x := Xor64(x, Mul(rest[p], XXH_P5));
      x := Mul(Rotl(x, 11), XXH_P1);
      p := p + 1;
    }
  }

  lemma RestStep(x: Word64, rest: bytes, p: nat)
    requires p < |rest|
    ensures Rest(x, rest[p..]) ==
      if p + 8 <= |rest| then Rest(Step8(x, rest[p..p + 8]), rest[p + 8..])
      else if p + 4 <= |rest| then Rest(Step4(x, rest[p..p + 4]), rest[p + 4..])
      else Rest(Step1(x, rest[p]), rest[p + 1..])
  {
    hide Step8, Step4, Step1;
    var r := rest[p..];
    if p + 8 <= |rest| {
      assert r[..8] == rest[p..p + 8] && r[8..] == rest[p + 8..];
    } else if p + 4 <= |rest| {
      assert r[..4] == rest[p..p + 4] && r[4..] == rest[p + 4..];
    } else {
      assert r[0] == rest[p] && r[1..] == rest[p + 1..];
    }
  }
}
