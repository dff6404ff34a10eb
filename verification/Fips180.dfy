// SHA-256 as FIPS 180-4 states it: the reference both implementations are proved against.
module Fips180 {
  import opened Words

  // Section 4.2.2: the round constants.
  const K: seq<Word> :=
    [0x428a2f98, 0x71374491, 0xb5c0fbcf, 0xe9b5dba5, 0x3956c25b, 0x59f111f1, 0x923f82a4, 0xab1c5ed5] +
    [0xd807aa98, 0x12835b01, 0x243185be, 0x550c7dc3, 0x72be5d74, 0x80deb1fe, 0x9bdc06a7, 0xc19bf174] +
    [0xe49b69c1, 0xefbe4786, 0x0fc19dc6, 0x240ca1cc, 0x2de92c6f, 0x4a7484aa, 0x5cb0a9dc, 0x76f988da] +
    [0x983e5152, 0xa831c66d, 0xb00327c8, 0xbf597fc7, 0xc6e00bf3, 0xd5a79147, 0x06ca6351, 0x14292967] +
    [0x27b70a85, 0x2e1b2138, 0x4d2c6dfc, 0x53380d13, 0x650a7354, 0x766a0abb, 0x81c2c92e, 0x92722c85] +
    [0xa2bfe8a1, 0xa81a664b, 0xc24b8b70, 0xc76c51a3, 0xd192e819, 0xd6990624, 0xf40e3585, 0x106aa070] +
    [0x19a4c116, 0x1e376c08, 0x2748774c, 0x34b0bcb5, 0x391c0cb3, 0x4ed8aa4a, 0x5b9cca4f, 0x682e6ff3] +
    [0x748f82ee, 0x78a5636f, 0x84c87814, 0x8cc70208, 0x90befffa, 0xa4506ceb, 0xbef9a3f7, 0xc67178f2]

  datatype State = State(a: Word, b: Word, c: Word, d: Word, e: Word, f: Word, g: Word, h: Word)

  // Section 5.3.3.
  const IV := State(0x6a09e667, 0xbb67ae85, 0x3c6ef372, 0xa54ff53a, 0x510e527f, 0x9b05688c, 0x1f83d9ab, 0x5be0cd19)

  // Section 4.1.2.
  function Ch(x: Word, y: Word, z: Word): Word { Xor32(And32(x, y), And32(Not32(x), z)) }
  function Maj(x: Word, y: Word, z: Word): Word { Xor32(Xor32(And32(x, y), And32(x, z)), And32(y, z)) }
  function BigSigma0(x: Word): Word { Xor32(Xor32(Rotr32(x, 2), Rotr32(x, 13)), Rotr32(x, 22)) }
  function BigSigma1(x: Word): Word { Xor32(Xor32(Rotr32(x, 6), Rotr32(x, 11)), Rotr32(x, 25)) }
  function SmallSigma0(x: Word): Word { Xor32(Xor32(Rotr32(x, 7), Rotr32(x, 18)), Shr32(x, 3)) }
  function SmallSigma1(x: Word): Word { Xor32(Xor32(Rotr32(x, 17), Rotr32(x, 19)), Shr32(x, 10)) }

  type Block = p: bytes | |p| == 64 witness seq(64, _ => 0)

  // Section 6.2.2, step 1: the first n words of the message schedule.
  function Schedule(p: Block, n: nat): (w: seq<Word>)
    requires n <= 64
    ensures |w| == n
  {
    if n == 0 then []
    else
      var w := Schedule(p, n - 1);
      w + [NextWord(p, w)]
  }

  function NextWord(p: Block, w: seq<Word>): Word
    requires |w| < 64
  {
    var t := |w|;
    if t < 16 then Be32(p[4 * t..4 * t + 4])
    else Add(Add(Add(SmallSigma1(w[t - 2]), w[t - 7]), SmallSigma0(w[t - 15])), w[t - 16])
  }

  // Section 6.2.2, step 3: one round on the working variables.
  function Round(v: State, k: Word, w: Word): State {
    var t1 := Add(Add(Add(Add(v.h, BigSigma1(v.e)), Ch(v.e, v.f, v.g)), k), w);
    var t2 := Add(BigSigma0(v.a), Maj(v.a, v.b, v.c));
    State(Add(t1, t2), v.a, v.b, v.c, Add(v.d, t1), v.e, v.f, v.g)
  }

  function Rounds(v: State, w: seq<Word>, t: nat): State
    requires t <= 64 == |w|
  {
    if t == 0 then v else Round(Rounds(v, w, t - 1), K[t - 1], w[t - 1])
  }

  function Sum(x: State, y: State): State {
    State(Add(x.a, y.a), Add(x.b, y.b), Add(x.c, y.c), Add(x.d, y.d),
          Add(x.e, y.e), Add(x.f, y.f), Add(x.g, y.g), Add(x.h, y.h))
  }

  function Compress(v: State, p: Block): State { Sum(v, Rounds(v, Schedule(p, 64), 64)) }

  // The complete blocks of a message, in order; a last partial block is not absorbed.
  function Absorb(v: State, m: bytes): State
    decreases |m|
  {
    if |m| < 64 then v else Absorb(Compress(v, m[..64]), m[64..])
  }

  // The big-endian 64-bit bit count.
  function LengthField(n: nat): (p: bytes)
    ensures |p| == 8
  {
    Be(n * 8 % M64, 8)
  }

  // For a message under 2^61 bytes the field holds the exact number of bits.
  lemma LengthFieldExact(n: nat)
    requires n < 0x2000_0000_0000_0000
    ensures Value(LengthField(n)) == 8 * n
  {
    hide Be, Value;
    assert Pow256(8) == M64;
    assert n * 8 % M64 == n * 8;
    ValueOfBe(8 * n, 8);
  }

  // Section 5.1.1: the least number of zero bytes that ends the length field on a block boundary.
  function ZeroCount(n: nat): (z: nat)
    ensures z < 64 && (n + 1 + z + 8) % 64 == 0
  {
    var q, r := n / 64, n % 64;
    assert n == 64 * q + r;
    if r < 56 then
      assert n + 1 + (55 - r) + 8 == 64 * (q + 1);
      55 - r
    else
      assert n + 1 + (119 - r) + 8 == 64 * (q + 2);
      119 - r
  }

  function Pad(m: bytes): (r: bytes)
    ensures |r| % 64 == 0
  {
    var z := ZeroCount(|m|);
    var r := m + [0x80] + Zeros(z) + LengthField(|m|);
    assert |r| == |m| + 1 + z + 8;
    r
  }

  function Output(v: State): (d: bytes)
    ensures |d| == 32
  {
    StoreBe32(v.a) + StoreBe32(v.b) + StoreBe32(v.c) + StoreBe32(v.d) +
    StoreBe32(v.e) + StoreBe32(v.f) + StoreBe32(v.g) + StoreBe32(v.h)
  }

  function Sha256(m: bytes): (d: bytes)
    ensures |d| == 32
  {
    Output(Absorb(IV, Pad(m)))
  }

  lemma {:induction false} AbsorbAppend(v: State, a: bytes, b: bytes)
    requires |a| % 64 == 0
    ensures Absorb(v, a + b) == Absorb(Absorb(v, a), b)
    decreases |a|
  {
    hide Compress;
    if a == [] {
      assert a + b == b;
    } else {
      assert (a + b)[..64] == a[..64] && (a + b)[64..] == a[64..] + b;
      AbsorbAppend(Compress(v, a[..64]), a[64..], b);
    }
  }

  // A list of the working variables after 0, 1, ..., 64 rounds, constrained one step at a time.
  ghost predicate IsRun(run: seq<State>, w: seq<Word>)
    requires |w| == 64
  {
    |run| == 65 && forall t | 0 <= t < 64 :: RoundAt(run, w, t)
  }

  ghost predicate RoundAt(run: seq<State>, w: seq<Word>, t: nat)
    requires t < 64 == |w| && |run| == 65
  {
    run[t + 1] == Round(run[t], K[t], w[t])
  }

  lemma RunOf(v: State, p: Block) returns (run: seq<State>)
    ensures IsRun(run, Schedule(p, 64)) && run[0] == v && Compress(v, p) == Sum(v, run[64])
  {
    hide Round, Sum;
    var w := Schedule(p, 64);
    run := seq(65, t requires 0 <= t < 65 => Rounds(v, w, t));
    forall t | 0 <= t < 64 ensures RoundAt(run, w, t) { }
  }

  // The chaining value kept as eight words in memory.
  function Load(h: seq<Word>): State
    requires |h| == 8
  {
    State(h[0], h[1], h[2], h[3], h[4], h[5], h[6], h[7])
  }

  lemma TakeIn(m: bytes, p: Block)
    requires |m| % 64 == 0
    ensures Absorb(IV, m + p) == Compress(Absorb(IV, m), p)
    ensures |m + p| % 64 == 0
  {
    hide Compress, Absorb;
    AbsorbAppend(IV, m, p);
    AbsorbOne(Absorb(IV, m), p);
  }

  lemma AbsorbOne(v: State, p: Block)
    ensures Absorb(v, p) == Compress(v, p)
  {
    hide Compress;
    assert p[..64] == p && p[64..] == [];
  }

  lemma ZerosSplit(a: nat, b: nat)
    ensures Zeros(a) + Zeros(b) == Zeros(a + b)
  { }

  lemma BitCount(n: nat)
    ensures Mod64(n) * 8 % M64 == n * 8 % M64
  { }

  lemma PadCount(whole: nat, r: nat)
    requires whole % 64 == 0 && r < 64
    ensures ZeroCount(whole + r) == if r < 56 then 55 - r else 119 - r
  { }

  // The C code sums the four schedule terms in another order than the standard writes them.
  lemma AddReorder(a: Word, b: Word, c: Word, d: Word)
    ensures Add(Add(Add(a, b), c), d) == Add(Add(Add(d, c), b), a)
  {
    hide Add;
    AddFour(a, b, c, d);
    AddFour(d, c, b, a);
  }

  lemma AddFour(a: Word, b: Word, c: Word, d: Word)
    ensures Add(Add(Add(a, b), c), d) == (a + b + c + d) % M32
  {
    assert Add(Add(a, b), c) == (a + b + c) % M32;
  }

  // Both implementations build the schedule with these two loops.
  method Words64(p: Block) returns (w: array<Word>)
    ensures fresh(w) && w.Length == 64 && w[..] == Schedule(p, 64)
  {
    hide Be32, Add, Xor32, Rotr32, Shr32;
    w := new Word[64];
    for i := 0 to 16
      invariant w[..i] == Schedule(p, i)
    {
      w[i] := Be32(p[4 * i..4 * i + 4]);
      assert w[..i + 1] == w[..i] + [w[i]];
    }
    for i := 16 to 64
      invariant w[..i] == Schedule(p, i)
    {
      var x, y := w[i - 15], w[i - 2];
      var s0 := Xor32(Xor32(Rotr32(x, 7), Rotr32(x, 18)), Shr32(x, 3));
      var s1 := Xor32(Xor32(Rotr32(y, 17), Rotr32(y, 19)), Shr32(y, 10));
      AddReorder(w[i - 16], s0, w[i - 7], s1);
      w[i] := Add(Add(Add(w[i - 16], s0), w[i - 7]), s1);
      assert w[..i + 1] == w[..i] + [w[i]];
    }
  }

  // Both write the chaining value out as big-endian words.
  method Serialize(h: seq<Word>) returns (out: bytes)
    requires |h| == 8
    ensures out == Output(Load(h))
  {
    out := [];
    for i := 0 to 8
      invariant |out| == 4 * i
      invariant forall k | 0 <= k < i :: out[4 * k..4 * k + 4] == StoreBe32(h[k])
    {
      out := out + [h[i] / 0x100_0000, h[i] / 0x1_0000 % 256, h[i] / 0x100 % 256, h[i] % 256];
    }
  }
}
