// The monitor's own SHA-256, always buffered and with rolled rounds, and the HMAC built on it.
module HmacSha {
  import opened Words
  import opened Fips180

  // The table this implementation was written with.
  const TABLE: seq<Word> :=
    [0x428a2f98, 0x71374491, 0xb5c0fbcf, 0xe9b5dba5, 0x3956c25b, 0x59f111f1, 0x923f82a4, 0xab1c5ed5] +
    [0xd807aa98, 0x12835b01, 0x243185be, 0x550c7dc3, 0x72be5d74, 0x80deb1fe, 0x9bdc06a7, 0xc19bf174] +
    [0xe49b69c1, 0xefbe4786, 0x0fc19dc6, 0x240ca1cc, 0x2de92c6f, 0x4a7484aa, 0x5cb0a9dc, 0x76f988da] +
    [0x983e5152, 0xa831c66d, 0xb00327c8, 0xbf597fc7, 0xc6e00bf3, 0xd5a79147, 0x06ca6351, 0x14292967] +
    [0x27b70a85, 0x2e1b2138, 0x4d2c6dfc, 0x53380d13, 0x650a7354, 0x766a0abb, 0x81c2c92e, 0x92722c85] +
    [0xa2bfe8a1, 0xa81a664b, 0xc24b8b70, 0xc76c51a3, 0xd192e819, 0xd6990624, 0xf40e3585, 0x106aa070] +
    [0x19a4c116, 0x1e376c08, 0x2748774c, 0x34b0bcb5, 0x391c0cb3, 0x4ed8aa4a, 0x5b9cca4f, 0x682e6ff3] +
    [0x748f82ee, 0x78a5636f, 0x84c87814, 0x8cc70208, 0x90befffa, 0xa4506ceb, 0xbef9a3f7, 0xc67178f2]

  lemma SameTable()
    ensures TABLE == K && |TABLE| == 64
  { }

  class Sha256 {
    const h: array<Word>
    var bits: Word64
    const buf: array<byte>
    var fill: nat
    ghost var done: bytes
    ghost var msg: bytes

    ghost predicate Streaming()
      reads this, h, buf
    {
      && h.Length == 8 && buf.Length == 64 && h as object != buf as object && fill < 64
      && |done| % 64 == 0 && Load(h[..]) == Absorb(IV, done)
    }

    ghost predicate Valid()
      reads this, h, buf
    {
      Streaming() && msg == done + buf[..fill] && bits == BitsOf(|msg|)
    }

    constructor ()
      ensures Valid() && msg == [] && fresh(h) && fresh(buf)
    {
      var iv := new Word[8] [0x6a09e667, 0xbb67ae85, 0x3c6ef372, 0xa54ff53a,
                             0x510e527f, 0x9b05688c, 0x1f83d9ab, 0x5be0cd19];
      h := iv;
      buf := new byte[64](_ => 0);
      bits, fill := 0, 0;
      done, msg := [], [];
    }

    // Compresses the full buffer: sixty-four rounds that shift the registers along.
    method TakeBuffer()
      requires h.Length == 8 && buf.Length == 64 && h as object != buf as object
      requires |done| % 64 == 0 && Load(h[..]) == Absorb(IV, done)
      modifies h, `done
      ensures |done| % 64 == 0 && done == old(done) + buf[..] && Load(h[..]) == Absorb(IV, done)
    {
      hide Schedule, Absorb, Compress, Add, Xor32, And32, Rotr32, Not32, Be32;
      SameTable();
      hide K, TABLE;
      TakeIn(done, buf[..]);
      var w := Words64(buf[..]);
      var a, b, c, d := h[0], h[1], h[2], h[3];
      var e, f, g, hh := h[4], h[5], h[6], h[7];
      ghost var run := RunOf(Load(h[..]), buf[..]);
      for i := 0 to 64
        invariant run[i] == State(a, b, c, d, e, f, g, hh)
        invariant h[..] == old(h[..]) && buf[..] == old(buf[..])
      {
        assert RoundAt(run, w[..], i);
        var s1 := Xor32(Xor32(Rotr32(e, 6), Rotr32(e, 11)), Rotr32(e, 25));
        var ch := Xor32(And32(e, f), And32(Not32(e), g));
        var t1 := Add(Add(Add(Add(hh, s1), ch), TABLE[i]), w[i]);
        var s0 := Xor32(Xor32(Rotr32(a, 2), Rotr32(a, 13)), Rotr32(a, 22));
        var maj := Xor32(Xor32(And32(a, b), And32(a, c)), And32(b, c));
        var t2 := Add(s0, maj);
        hh := g; g := f; f := e; e := Add(d, t1);
        d := c; c := b; b := a; a := Add(t1, t2);
      }
      h[0], h[1], h[2], h[3] := Add(h[0], a), Add(h[1], b), Add(h[2], c), Add(h[3], d);
      h[4], h[5], h[6], h[7] := Add(h[4], e), Add(h[5], f), Add(h[6], g), Add(h[7], hh);
      done := done + buf[..];
    }

    // Copies what fits into the buffer and compresses it when it is full.
    method Feed(chunk: bytes)
      requires Streaming() && fill + |chunk| <= 64
      modifies `fill, `done, h, buf
      ensures Streaming() && done + buf[..fill] == old(done + buf[..fill]) + chunk
    {
      hide Absorb, Load;
      MemCopy(buf, fill, chunk);
      fill := fill + |chunk|;
      if fill == 64 {
        TakeBuffer();
        fill := 0;
      }
    }

    method Update(data: bytes)
      requires Valid()
      modifies this, h, buf
      ensures Valid() && msg == old(msg) + data
    {
      hide Absorb, Load, BitsOf, AddBits;
      BitsAdd(|msg|, |data|);
      bits := AddBits(bits, |data|);
      var p := 0;
      while p < |data|
        invariant p <= |data| && Streaming()
        invariant done + buf[..fill] == msg + data[..p]
        invariant bits == BitsOf(|msg| + |data|) && msg == old(msg)
      {
        var n := 64 - fill;
        if n > |data| - p { n := |data| - p; }
        assert msg + data[..p + n] == msg + data[..p] + data[p..p + n];
        Feed(data[p..p + n]);
        p := p + n;
      }
      assert data[..p] == data;
      msg := msg + data;
    }

    // Zero bytes up to a given fill.
    method ZeroTo(limit: nat)
      requires h.Length == 8 && buf.Length == 64 && h as object != buf as object && fill <= limit <= 64
      modifies `fill, buf
      ensures fill == limit && buf[..limit] == old(buf[..fill]) + Zeros(limit - old(fill))
    {
      while fill < limit
        invariant old(fill) <= fill <= limit
        invariant buf[..fill] == old(buf[..fill]) + Zeros(fill - old(fill))
      {
        buf[fill] := 0;
        fill := fill + 1;
        assert Zeros(fill - old(fill)) == Zeros(fill - 1 - old(fill)) + [0];
        assert buf[..fill] == buf[..fill - 1] + [0];
      }
    }

    method Pad()
      requires Streaming()
      modifies `fill, `done, h, buf
      ensures Streaming() && fill == 56
      ensures done + buf[..56] == old(done + buf[..fill]) + [0x80] + Zeros(ZeroCount(old(|done| + fill)))
    {
      hide Absorb, Load, ZeroCount, Zeros;
      ghost var m, r := done + buf[..fill], fill;
      PadCount(|done|, r);
      buf[fill] := 0x80;
      fill := fill + 1;
      assert done + buf[..fill] == m + [0x80];
      if fill > 56 {
        ZeroTo(64);
        TakeBuffer();
        fill := 0;
        assert done == m + [0x80] + Zeros(63 - r);
        ZerosSplit(63 - r, 56);
      }
      ZeroTo(56);
    }

    // store_be64 of the bit count at the end of the block.
    method PutBits(n: Word64)
      requires buf.Length == 64
      modifies buf
      ensures buf[..] == old(buf[..56]) + Be(n, 8)
    {
      hide StoreBe32, Be;
      MemCopy(buf, 56, StoreBe32(n / M32));
      MemCopy(buf, 60, StoreBe32(n % M32));
      HalvesAreBe(n);
    }

    method Final() returns (out: bytes)
      requires Valid()
      modifies this, h, buf
      ensures out == Fips180.Sha256(old(msg))
    {
      hide Absorb, Load, Output, Compress, ZeroCount, StoreBe32, Be, Zeros;
      var n := bits;
      Pad();
      ghost var padded := done + buf[..56];
      PutBits(n);
      TakeBuffer();
      assert done == padded + Be(n, 8) == Fips180.Pad(old(msg));
      out := Serialize(h[..]);
    }
  }

  function BitsOf(n: nat): Word64 { n * 8 % M64 }
  function AddBits(bits: Word64, n: nat): Word64 { (bits + n * 8 % M64) % M64 }

  lemma BitsAdd(x: nat, n: nat)
    ensures AddBits(BitsOf(x), n) == BitsOf(x + n)
  { }

  // store_be64 writes the two 32-bit halves.
  lemma HalvesAreBe(n: Word64)
    ensures StoreBe32(n / M32) + StoreBe32(n % M32) == Be(n, 8)
  {
    hide Be, StoreBe32, Shr8;
    assert Pow256(4) == M32;
    BeSplit(n, 8, 4);
    FourShifts(n);
    LowBytes(n / M32, n % M32, 4);
    StoreIsBe(n / M32);
    StoreIsBe(n % M32);
  }

  lemma FourShifts(n: nat)
    ensures Shr8(n, 4) == n / M32
  {
    var x, y, z := n / 0x100, n / 0x1_0000, n / 0x100_0000;
    assert x / 0x100 == y;
    assert y / 0x100 == z;
    assert z / 0x100 == n / M32;
    assert Shr8(z, 1) == z / 0x100;
    assert Shr8(y, 2) == Shr8(z, 1);
    assert Shr8(x, 3) == Shr8(y, 2);
  }

  // The k low bytes of a number ignore everything above them.
  lemma {:induction false} LowBytes(hi: nat, lo: nat, k: nat)
    ensures Be(hi * Pow256(k) + lo, k) == Be(lo, k)
  {
    if k > 0 {
      var below := hi * Pow256(k - 1);
      assert hi * Pow256(k) == 256 * below;
      assert (256 * below + lo) / 256 == below + lo / 256 && (256 * below + lo) % 256 == lo % 256;
      LowBytes(hi, lo / 256, k - 1);
    }
  }

  method Sha256Of(data: bytes) returns (out: bytes)
    ensures out == Fips180.Sha256(data)
  {
    hide *;
    var s := new Sha256();
    s.Update(data);
    assert [] + data == data;
    out := s.Final();
  }

  function Xor8(x: byte, y: byte): byte {
    assert Pow2(8) == 256;
    BitsBounded(x, y, 8);
    Xor(x, y)
  }

  lemma {:induction false} XorCommutes(x: nat, y: nat)
    ensures Xor(x, y) == Xor(y, x)
  {
    if x != 0 || y != 0 { XorCommutes(x / 2, y / 2); }
  }

  // Section 2 of RFC 2104: the key, hashed first if longer than a block, extended with zeros.
  function BlockKey(key: bytes): (k: bytes)
    ensures |k| == 64
  {
    var k := if |key| > 64 then Fips180.Sha256(key) else key;
    k + Zeros(64 - |k|)
  }

  function XorPad(k: bytes, c: byte): (p: bytes)
    ensures |p| == |k|
  {
    seq(|k|, i requires 0 <= i < |k| => Xor8(k[i], c))
  }

  // H(K xor opad, H(K xor ipad, text))
  function Hmac(key: bytes, text: bytes): bytes {
    Fips180.Sha256(XorPad(BlockKey(key), 0x5c) + Fips180.Sha256(XorPad(BlockKey(key), 0x36) + text))
  }

  // memset to the pad byte, then exclusive-or the key bytes into the front.
  method PadKey(c: byte, k: bytes) returns (pad: bytes)
    requires |k| <= 64
    ensures pad == XorPad(k + Zeros(64 - |k|), c)
  {
    hide Xor8;
    var a := new byte[64](_ => c);
    for i := 0 to |k|
      invariant forall j | 0 <= j < i :: a[j] == Xor8(c, k[j])
      invariant forall j | i <= j < 64 :: a[j] == c
    {
      a[i] := Xor8(a[i], k[i]);
    }
    pad := a[..];
    forall j | 0 <= j < 64 ensures pad[j] == Xor8((k + Zeros(64 - |k|))[j], c) {
      if j < |k| { Xor8Commutes(c, k[j]); } else { Xor8Commutes(c, 0); Xor8Zero(c); }
    }
  }

  lemma Xor8Commutes(x: byte, y: byte)
    ensures Xor8(x, y) == Xor8(y, x)
  {
    XorCommutes(x, y);
  }

  lemma Xor8Zero(x: byte)
    ensures Xor8(x, 0) == x
  {
    XorZero(x);
  }

  method HmacSha256(key: bytes, text: bytes) returns (out: bytes)
    ensures out == Hmac(key, text)
  {
    hide Fips180.Sha256, XorPad, Zeros;
    var k := key;
    if |k| > 64 { k := Sha256Of(key); }
    assert BlockKey(key) == k + Zeros(64 - |k|);
    var ipad := PadKey(0x36, k);
    var opad := PadKey(0x5c, k);
    var s := new Sha256();
    s.Update(ipad);
    s.Update(text);
    assert s.msg == ipad + text;
    var inner := s.Final();
    s := new Sha256();
    s.Update(opad);
    s.Update(inner);
    assert s.msg == opad + inner;
    out := s.Final();
  }
}
