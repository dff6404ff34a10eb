// The streaming SHA-256 of the fan-out writer: whole blocks are compressed straight from the
// caller's bytes, eight rounds per loop turn with the registers renamed instead of moved.
module FanoutSha {
  import opened Words
  import opened Fips180

  // The table this implementation was written with.
  const SHA_K: seq<Word> :=
    [0x428a2f98, 0x71374491, 0xb5c0fbcf, 0xe9b5dba5, 0x3956c25b, 0x59f111f1, 0x923f82a4, 0xab1c5ed5] +
    [0xd807aa98, 0x12835b01, 0x243185be, 0x550c7dc3, 0x72be5d74, 0x80deb1fe, 0x9bdc06a7, 0xc19bf174] +
    [0xe49b69c1, 0xefbe4786, 0x0fc19dc6, 0x240ca1cc, 0x2de92c6f, 0x4a7484aa, 0x5cb0a9dc, 0x76f988da] +
    [0x983e5152, 0xa831c66d, 0xb00327c8, 0xbf597fc7, 0xc6e00bf3, 0xd5a79147, 0x06ca6351, 0x14292967] +
    [0x27b70a85, 0x2e1b2138, 0x4d2c6dfc, 0x53380d13, 0x650a7354, 0x766a0abb, 0x81c2c92e, 0x92722c85] +
    [0xa2bfe8a1, 0xa81a664b, 0xc24b8b70, 0xc76c51a3, 0xd192e819, 0xd6990624, 0xf40e3585, 0x106aa070] +
    [0x19a4c116, 0x1e376c08, 0x2748774c, 0x34b0bcb5, 0x391c0cb3, 0x4ed8aa4a, 0x5b9cca4f, 0x682e6ff3] +
    [0x748f82ee, 0x78a5636f, 0x84c87814, 0x8cc70208, 0x90befffa, 0xa4506ceb, 0xbef9a3f7, 0xc67178f2]

  lemma SameTable()
    ensures SHA_K == K && |SHA_K| == 64
  { }

  // One SHA_ROUND: it updates only the registers passed as d and h.
  method ShaRound(a: Word, b: Word, c: Word, d: Word, e: Word, f: Word, g: Word, h: Word, i: nat, w: seq<Word>,
                  ghost run: seq<State>) returns (d': Word, h': Word)
    requires i < 64 == |w| && IsRun(run, w) && run[i] == State(a, b, c, d, e, f, g, h)
    ensures run[i + 1] == State(h', a, b, c, d', e, f, g)
  {
    SameTable();
    assert RoundAt(run, w, i);
    var t1 := Add(Add(Add(Add(h, Xor32(Xor32(Rotr32(e, 6), Rotr32(e, 11)), Rotr32(e, 25))),
                          Xor32(And32(e, f), And32(Not32(e), g))), SHA_K[i]), w[i]);
    var t2 := Add(Xor32(Xor32(Rotr32(a, 2), Rotr32(a, 13)), Rotr32(a, 22)),
                  Xor32(Xor32(And32(a, b), And32(a, c)), And32(b, c)));
    d' := Add(d, t1);
    h' := Add(t1, t2);
  }

  class Sha256 {
    var total: Word64
    const h: array<Word>
    const tail: array<byte>
    var tailLen: nat
    ghost var done: bytes   // what the compression function has taken in
    ghost var msg: bytes    // everything passed to Update so far

    ghost predicate Valid()
      reads this, h, tail
    {
      Streaming() && msg == done + tail[..tailLen]
      && total == Mod64(|msg|)
    }

    constructor ()
      ensures Valid() && msg == [] && fresh(h) && fresh(tail)
    {
      var iv := new Word[8] [0x6a09e667, 0xbb67ae85, 0x3c6ef372, 0xa54ff53a,
                             0x510e527f, 0x9b05688c, 0x1f83d9ab, 0x5be0cd19];
      h := iv;
      tail := new byte[64](_ => 0);
      total, tailLen := 0, 0;
      done, msg := [], [];
    }

    method CompressBlock(p: Block)
      requires h.Length == 8
      modifies h
      ensures Load(h[..]) == Compress(old(Load(h[..])), p)
    {
      hide Round, RoundAt, Schedule, Absorb, Compress, Add;
      var ws := Words64(p);
      var w := ws[..];
      var a, b, c, d := h[0], h[1], h[2], h[3];
      var e, f, g, hh := h[4], h[5], h[6], h[7];
      ghost var run := RunOf(Load(h[..]), p);
      var i := 0;
      while i < 64
        invariant 0 <= i <= 64 && i % 8 == 0
        invariant run[i] == State(a, b, c, d, e, f, g, hh)
        invariant h[..] == old(h[..])
      {
        d, hh := ShaRound(a, b, c, d, e, f, g, hh, i, w, run);
        c, g := ShaRound(hh, a, b, c, d, e, f, g, i + 1, w, run);
        b, f := ShaRound(g, hh, a, b, c, d, e, f, i + 2, w, run);
        a, e := ShaRound(f, g, hh, a, b, c, d, e, i + 3, w, run);
        hh, d := ShaRound(e, f, g, hh, a, b, c, d, i + 4, w, run);
        g, c := ShaRound(d, e, f, g, hh, a, b, c, i + 5, w, run);
        f, b := ShaRound(c, d, e, f, g, hh, a, b, i + 6, w, run);
        e, a := ShaRound(b, c, d, e, f, g, hh, a, i + 7, w, run);
        i := i + 8;
      }
      h[0], h[1], h[2], h[3] := Add(h[0], a), Add(h[1], b), Add(h[2], c), Add(h[3], d);
      h[4], h[5], h[6], h[7] := Add(h[4], e), Add(h[5], f), Add(h[6], g), Add(h[7], hh);
    }

    // A whole block goes through the compression function; the buffer is not touched.
    method Take(p: Block)
      requires h.Length == 8 && h as object != tail as object && |done| % 64 == 0 && Load(h[..]) == Absorb(IV, done)
      modifies h, `done
      ensures |done| % 64 == 0 && done == old(done) + p && Load(h[..]) == Absorb(IV, done)
    {
      hide Absorb, Compress, Load;
      TakeIn(done, p);
      CompressBlock(p);
      done := done + p;
    }

    ghost predicate Streaming()
      reads this, h, tail
    {
      && h.Length == 8 && tail.Length == 64 && h as object != tail as object && tailLen < 64
      && |done| % 64 == 0 && Load(h[..]) == Absorb(IV, done)
    }

    // The first branch of an update: complete a partial block left by an earlier call.
    method FillTail(data: bytes) returns (p: nat)
      requires Streaming()
      modifies `done, `tailLen, h, tail
      ensures Streaming() && p <= |data| && (p < |data| ==> tailLen == 0)
      ensures done + tail[..tailLen] == old(done + tail[..tailLen]) + data[..p]
    {
      hide Absorb, Load;
      p := 0;
      if tailLen != 0 {
        var take := 64 - tailLen;
        if take > |data| { take := |data|; }
        MemCopy(tail, tailLen, data[..take]);
        tailLen, p := tailLen + take, take;
        if tailLen == 64 {
          Take(tail[..]);
          tailLen := 0;
        }
      }
    }

    // Passing data in any number of pieces leaves the same message behind.
    method Update(data: bytes)
      requires Valid()
      modifies this, h, tail
      ensures Valid() && msg == old(msg) + data
    {
      hide Absorb, Load, Mod64, Add64;
      CountAdds(|msg|, |data|);
      total := Add64(total, |data|);
      var p := FillTail(data);
      while |data| - p >= 64
        invariant p <= |data| && (p < |data| ==> tailLen == 0)
        invariant Streaming() && done + tail[..tailLen] == msg + data[..p]
        invariant total == Mod64(|msg| + |data|) && msg == old(msg)
      {
        assert msg + data[..p + 64] == msg + data[..p] + data[p..p + 64];
        Take(data[p..p + 64]);
        p := p + 64;
      }
      assert msg + data == msg + data[..p] + data[p..];
      if p < |data| {
        MemCopy(tail, 0, data[p..]);
        tailLen := |data| - p;
      }
      msg := msg + data;
    }

    constructor Copy(s: Sha256)
      requires s.Valid()
      ensures Valid() && msg == s.msg && done == s.done && total == s.total
      ensures tailLen == s.tailLen && tail[..] == s.tail[..]
      ensures fresh(h) && fresh(tail)
    {
      hide Absorb;
      var h' := new Word[8](i requires 0 <= i < 8 reads s, s.h => s.h[i]);
      var t' := new byte[64](i requires 0 <= i < 64 reads s, s.tail => s.tail[i]);
      h, tail := h', t';
      total, tailLen, done, msg := s.total, s.tailLen, s.done, s.msg;
      new;
      assert h[..] == s.h[..] && tail[..] == s.tail[..];
    }

    // The two padding cases: the length field still fits in this block, or needs another one.
    method PadZeros()
      requires Streaming()
      modifies `done, `tailLen, h, tail
      ensures Streaming() && tailLen == 56
      ensures done + tail[..56] == old(done + tail[..tailLen]) + [0x80] + Zeros(ZeroCount(old(|done| + tailLen)))
    {
      hide Absorb, Load, ZeroCount, Zeros;
      ghost var m, r := done + tail[..tailLen], tailLen;
      PadCount(|done|, r);
      tail[tailLen] := 0x80;
      tailLen := tailLen + 1;
      assert done + tail[..tailLen] == m + [0x80];
      if tailLen > 56 {
        MemCopy(tail, tailLen, Zeros(64 - tailLen));
        Take(tail[..]);
        tailLen := 0;
        assert done == m + [0x80] + Zeros(63 - r);
        ZerosSplit(63 - r, 56);
      }
      MemCopy(tail, tailLen, Zeros(56 - tailLen));
      tailLen := 56;
    }

    method PutLength(bits: Word64)
      requires Streaming() && tailLen == 56
      modifies tail
      ensures Streaming() && tail[..56] == old(tail[..56])
      ensures tail[56..] == Be(bits, 8)
    {
      hide Absorb, Load, Be, Shr8;
      for i := 0 to 8
        invariant tail[..56] == old(tail[..56])
        invariant h[..] == old(h[..])
        invariant forall k | 0 <= k < i :: tail[63 - k] == Shr8(bits, k) % 256
      {
        tail[63 - i] := Shr8(bits, i) % 256;
      }
      ghost var p := tail[56..];
      assert forall k {:trigger Shr8(bits, k)} | 0 <= k < 8 :: p[7 - k] == tail[63 - k];
      BeByShifts(bits, p);
    }

    method Digest() returns (out: bytes)
      requires Valid()
      ensures out == Fips180.Sha256(msg)
    {
      hide Absorb, Load, Output, Mod64, Compress, ZeroCount, Be;
      var s := new Sha256.Copy(this);
      BitCount(|msg|);
      var bits := s.total * 8 % M64;
      s.PadZeros();
      s.PutLength(bits);
      s.Take(s.tail[..]);
      assert s.done == Pad(msg);
      out := Serialize(s.h[..]);
    }
  }
}
