// Unsigned machine words as bounded integers: wrap-around is written out.
module Words {
  const M32: nat := 0x1_0000_0000
  const M64: nat := 0x1_0000_0000_0000_0000

  type byte = x: nat | x < 256
  type Word = x: nat | x < M32
  type Word64 = x: nat | x < M64
  type bytes = seq<byte>

  // Bitwise exclusive or and conjunction, one binary digit at a time.
  function Xor(x: nat, y: nat): nat
  {
    if x == 0 && y == 0 then 0 else (x + y) % 2 + 2 * Xor(x / 2, y / 2)
  }

  function And(x: nat, y: nat): nat
  {
    if x == 0 || y == 0 then 0 else (if x % 2 == 1 && y % 2 == 1 then 1 else 0) + 2 * And(x / 2, y / 2)
  }

  function Pow2(n: nat): nat { if n == 0 then 1 else 2 * Pow2(n - 1) }

  // Neither operation sets a digit above its operands' digits, so no reduction is lost below.
  lemma {:induction false} BitsBounded(x: nat, y: nat, n: nat)
    requires x < Pow2(n) && y < Pow2(n)
    ensures Xor(x, y) < Pow2(n) && And(x, y) < Pow2(n)
  {
    if n > 0 { BitsBounded(x / 2, y / 2, n - 1); }
  }

  lemma {:induction false} XorZero(x: nat)
    ensures Xor(x, 0) == x
  {
    if x != 0 { XorZero(x / 2); }
  }

  lemma PowerValues()
    ensures Pow2(32) == M32 && Pow2(64) == M64
  {
    assert Pow2(8) == 0x100;
    assert Pow2(16) == 0x1_0000;
    assert Pow2(24) == 0x100_0000;
    assert Pow2(32) == M32;
    assert Pow2(40) == 0x100_0000_0000;
    assert Pow2(48) == 0x1_0000_0000_0000;
    assert Pow2(56) == 0x100_0000_0000_0000;
  }

  lemma WordBits(x: nat, y: nat)
    ensures x < M32 && y < M32 ==> Xor(x, y) < M32 && And(x, y) < M32
    ensures x < M64 && y < M64 ==> Xor(x, y) < M64 && And(x, y) < M64
  {
    PowerValues();
    if x < M32 && y < M32 { BitsBounded(x, y, 32); }
    if x < M64 && y < M64 { BitsBounded(x, y, 64); }
  }

  // Addition modulo 2^32.
  function Add(x: Word, y: Word): (r: Word)
    ensures r == x + y || r == x + y - M32
  {
    (x + y) % M32
  }

  function Xor32(x: Word, y: Word): Word { WordBits(x, y); Xor(x, y) }
  function And32(x: Word, y: Word): Word { WordBits(x, y); And(x, y) }
  function Not32(x: Word): Word { M32 - 1 - x }
  function Shr32(x: Word, n: nat): Word decreases n { if n == 0 then x else Shr32(x / 2, n - 1) }
  function Rotr32(x: Word, n: nat): Word
    decreases n
  {
    if n == 0 then x else Rotr32(x / 2 + x % 2 * 0x8000_0000, n - 1)
  }


  // The byte counters of the streaming hashes are 64-bit and wrap.
  function Mod64(n: nat): Word64 { n % M64 }
  function Add64(x: Word64, n: nat): Word64 { (x + n) % M64 }

  lemma CountAdds(x: nat, n: nat)
    ensures Add64(Mod64(x), n) == Mod64(x + n)
  { }

  // Big-endian words, and the big-endian 64-bit length field of both SHA-256 writers.
  function Be32(p: bytes): Word
    requires |p| == 4
  {
    ((p[0] as nat * 0x100 + p[1]) * 0x100 + p[2]) * 0x100 + p[3]
  }

  lemma Be32IsValue(p: bytes)
    requires |p| == 4
    ensures Be32(p) == Value(p)
  {
    assert p[..3][..2] == p[..2] && p[..2][..1] == p[..1] && p[..1][..0] == [];
    assert Value(p[..1]) == p[0] && Value(p[..2]) == p[0] as nat * 0x100 + p[1];
  }

  function StoreBe32(v: Word): (p: bytes)
    ensures |p| == 4
  {
    [v / 0x100_0000, v / 0x1_0000 % 256, v / 0x100 % 256, v % 256]
  }

  // x >> (8 * i)
  function Shr8(x: nat, i: nat): nat { if i == 0 then x else Shr8(x / 256, i - 1) }

  // The n low bytes of x, most significant first, and the number such bytes denote.
  function Be(x: nat, n: nat): (p: bytes)
    ensures |p| == n
  {
    if n == 0 then [] else Be(x / 256, n - 1) + [x % 256]
  }

  function Value(p: bytes): nat { if p == [] then 0 else Value(p[..|p| - 1]) * 256 + p[|p| - 1] }

  function Pow256(n: nat): nat { if n == 0 then 1 else 256 * Pow256(n - 1) }

  lemma {:induction false} ValueOfBe(x: nat, n: nat)
    requires x < Pow256(n)
    ensures Value(Be(x, n)) == x
  {
    if n > 0 {
      assert Be(x, n)[..n - 1] == Be(x / 256, n - 1);
      ValueOfBe(x / 256, n - 1);
    }
  }

  // The bytes are determined by the shifts that a store loop uses.
  lemma {:induction false} BeByShifts(x: nat, p: bytes)
    requires forall k | 0 <= k < |p| :: p[|p| - 1 - k] == Shr8(x, k) % 256
    ensures p == Be(x, |p|)
  {
    if |p| > 0 {
      var q := p[..|p| - 1];
      forall k | 0 <= k < |q| ensures q[|q| - 1 - k] == Shr8(x / 256, k) % 256 {
        assert Shr8(x, k + 1) == Shr8(x / 256, k);
      }
      BeByShifts(x / 256, q);
      assert Shr8(x, 0) == x;
    }
  }

  lemma {:induction false} BeSplit(x: nat, n: nat, k: nat)
    requires k <= n
    ensures Be(x, n) == Be(Shr8(x, k), n - k) + Be(x, k)
  {
    if k > 0 { BeSplit(x / 256, n - 1, k - 1); }
  }

  lemma StoreIsBe(v: Word)
    ensures StoreBe32(v) == Be(v, 4)
  {
    var x, y, z := v / 0x100, v / 0x1_0000, v / 0x100_0000;
    assert x / 0x100 == y && y / 0x100 == z;
    assert Be(z, 1) == [z % 0x100];
    assert Be(y, 2) == Be(z, 1) + [y % 0x100];
    assert Be(x, 3) == Be(y, 2) + [x % 0x100];
  }

  function Zeros(n: nat): (z: bytes)
    ensures |z| == n && forall i | 0 <= i < n :: z[i] == 0
  {
    seq(n, _ => 0)
  }

  // memcpy into a buffer.
  method MemCopy<T>(dst: array<T>, at: nat, src: seq<T>)
    requires at + |src| <= dst.Length
    modifies dst
    ensures dst[..] == old(dst[..at]) + src + old(dst[at + |src|..])
  {
    forall k | 0 <= k < |src| { dst[at + k] := src[k]; }
  }
}
