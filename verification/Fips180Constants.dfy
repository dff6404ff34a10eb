// What the functions of section 4.1.2 of FIPS 180-4 do to each digit, and where the constants of sections
// 4.2.2 and 5.3.3 come from: the first thirty-two bits of the fractional parts of the cube roots of the first
// sixty-four primes, and of the square roots of the first eight.
module Fips180Constants {
  import opened Words
  import opened Bits
  import opened Fips180

  lemma ChBit(x: Word, y: Word, z: Word, i: nat)
    requires i < 32
    ensures Bit(Ch(x, y, z), i) == if Bit(x, i) == 1 then Bit(y, i) else Bit(z, i)
  {
    hide Xor, And, Bit;
    XorBit(And32(x, y), And32(Not32(x), z), i);
    AndBit(x, y, i);
    AndBit(Not32(x), z, i);
    NotBit(x, i);
    IsDigit(x, i);
    IsDigit(y, i);
    IsDigit(z, i);
  }

  lemma IsDigit(x: nat, i: nat)
    ensures Bit(x, i) == 0 || Bit(x, i) == 1
  { }

  lemma MajBit(x: Word, y: Word, z: Word, i: nat)
    requires i < 32
    ensures Bit(Maj(x, y, z), i) == if Bit(x, i) + Bit(y, i) + Bit(z, i) >= 2 then 1 else 0
  {
    hide Xor, And, Bit;
    XorBit(Xor32(And32(x, y), And32(x, z)), And32(y, z), i);
    XorBit(And32(x, y), And32(x, z), i);
    AndBit(x, y, i);
    AndBit(x, z, i);
    AndBit(y, z, i);
    IsDigit(x, i);
    IsDigit(y, i);
    IsDigit(z, i);
  }

  // Each of the four sums adds three digits of x modulo 2.
  lemma BigSigmaBits(x: Word, i: nat)
    requires i < 32
    ensures Bit(BigSigma0(x), i) == (Bit(x, (i + 2) % 32) + Bit(x, (i + 13) % 32) + Bit(x, (i + 22) % 32)) % 2
    ensures Bit(BigSigma1(x), i) == (Bit(x, (i + 6) % 32) + Bit(x, (i + 11) % 32) + Bit(x, (i + 25) % 32)) % 2
  {
    hide Xor, Bit, Rotr32;
    XorBit(Xor32(Rotr32(x, 2), Rotr32(x, 13)), Rotr32(x, 22), i);
    XorBit(Rotr32(x, 2), Rotr32(x, 13), i);
    RotrBit(x, 2, i);
    RotrBit(x, 13, i);
    RotrBit(x, 22, i);
    XorBit(Xor32(Rotr32(x, 6), Rotr32(x, 11)), Rotr32(x, 25), i);
    XorBit(Rotr32(x, 6), Rotr32(x, 11), i);
    RotrBit(x, 6, i);
    RotrBit(x, 11, i);
    RotrBit(x, 25, i);
  }

  lemma SmallSigmaBits(x: Word, i: nat)
    requires i < 32
    ensures Bit(SmallSigma0(x), i) == (Bit(x, (i + 7) % 32) + Bit(x, (i + 18) % 32) + Bit(x, i + 3)) % 2
    ensures Bit(SmallSigma1(x), i) == (Bit(x, (i + 17) % 32) + Bit(x, (i + 19) % 32) + Bit(x, i + 10)) % 2
  {
    hide Xor, Bit, Rotr32, Shr32;
    XorBit(Xor32(Rotr32(x, 7), Rotr32(x, 18)), Shr32(x, 3), i);
    XorBit(Rotr32(x, 7), Rotr32(x, 18), i);
    RotrBit(x, 7, i);
    RotrBit(x, 18, i);
    ShrBit(x, 3, i);
    XorBit(Xor32(Rotr32(x, 17), Rotr32(x, 19)), Shr32(x, 10), i);
    XorBit(Rotr32(x, 17), Rotr32(x, 19), i);
    RotrBit(x, 17, i);
    RotrBit(x, 19, i);
    ShrBit(x, 10, i);
  }

  predicate Prime(n: nat) { n >= 2 && forall d | 2 <= d < n :: n % d != 0 }

  // The first sixty-four primes.
  function P(t: nat): nat
    requires t < 64
  {
    if t < 8 then [2, 3, 5, 7, 11, 13, 17, 19][t]
    else if t < 16 then [23, 29, 31, 37, 41, 43, 47, 53][t - 8]
    else if t < 24 then [59, 61, 67, 71, 73, 79, 83, 89][t - 16]
    else if t < 32 then [97, 101, 103, 107, 109, 113, 127, 131][t - 24]
    else if t < 40 then [137, 139, 149, 151, 157, 163, 167, 173][t - 32]
    else if t < 48 then [179, 181, 191, 193, 197, 199, 211, 223][t - 40]
    else if t < 56 then [227, 229, 233, 239, 241, 251, 257, 263][t - 48]
    else [269, 271, 277, 281, 283, 293, 307, 311][t - 56]
  }

  // Every composite number below 18 * 18 has a divisor up to 17.
  predicate Sieved(n: nat) {
    && n >= 2
    && (n % 2 != 0 || n == 2) && (n % 3 != 0 || n == 3) && (n % 5 != 0 || n == 5) && (n % 7 != 0 || n == 7)
    && (n % 11 != 0 || n == 11) && (n % 13 != 0 || n == 13) && (n % 17 != 0 || n == 17)
  }

  lemma Multiple(d: nat, k: nat)
    requires d > 0
    ensures d * k % d == 0
  {
    var x := d * k;
    var q: int := k - x / d;
    assert x == d * (x / d) + x % d;
    assert d * q + d * (x / d) == x;
    FarFromZero(d, q);
  }

  lemma Divides(n: nat, d: nat, m: nat)
    requires m > 0 && d > 0 && n % m == 0 && m % d == 0
    ensures n % d == 0
  {
    var q, r := n / m, m / d;
    assert n == m * q && m == d * r;
    assert n == d * (r * q);
    Multiple(d, r * q);
  }

  // A small divisor has a prime divisor among the seven.
  lemma SmallDivisor(n: nat, m: nat)
    requires 2 <= m <= 17 && m < n && n % m == 0
    ensures !Sieved(n)
  {
    if m % 2 == 0 { Divides(n, 2, m); }
    else if m % 3 == 0 { Divides(n, 3, m); }
    else if m % 5 == 0 { Divides(n, 5, m); }
  }

  lemma NoDivisor(n: nat, d: nat)
    requires n < 324 && 2 <= d < n && n % d == 0
    ensures !Sieved(n)
  {
    var e := n / d;
    assert n == d * e;
    if d <= 17 {
      SmallDivisor(n, d);
    } else {
      Multiple(e, d);
      FarFromZero(e, d - 18);
      assert d * e == e * (d - 18) + 18 * e;
      assert e != 0 && e != 1;
      assert e <= 17;
      SmallDivisor(n, e);
    }
  }

  lemma SievedIsPrime(n: nat)
    requires n < 324
    ensures Sieved(n) <==> Prime(n)
  {
    forall d | 2 <= d < n && n % d == 0 ensures !Sieved(n) { NoDivisor(n, d); }
  }

  lemma Low0(n: nat)
    requires 0 <= n < 8
    ensures Sieved(n) <==> n in [2, 3, 5, 7]
  { }

  lemma High0(n: nat)
    requires 8 <= n < 20
    ensures Sieved(n) <==> n in [11, 13, 17, 19]
  { }

  lemma Sieve0(n: nat)
    requires 0 <= n < 20
    ensures Sieved(n) <==> n in [2, 3, 5, 7, 11, 13, 17, 19]
  {
    hide Sieved;
    if n < 8 { Low0(n); } else { High0(n); }
  }

  lemma Low1(n: nat)
    requires 20 <= n < 38
    ensures Sieved(n) <==> n in [23, 29, 31, 37]
  { }

  lemma High1(n: nat)
    requires 38 <= n < 54
    ensures Sieved(n) <==> n in [41, 43, 47, 53]
  { }

  lemma Sieve1(n: nat)
    requires 20 <= n < 54
    ensures Sieved(n) <==> n in [23, 29, 31, 37, 41, 43, 47, 53]
  {
    hide Sieved;
    if n < 38 { Low1(n); } else { High1(n); }
  }

  lemma Low2(n: nat)
    requires 54 <= n < 72
    ensures Sieved(n) <==> n in [59, 61, 67, 71]
  { }

  lemma High2(n: nat)
    requires 72 <= n < 90
    ensures Sieved(n) <==> n in [73, 79, 83, 89]
  { }

  lemma Sieve2(n: nat)
    requires 54 <= n < 90
    ensures Sieved(n) <==> n in [59, 61, 67, 71, 73, 79, 83, 89]
  {
    hide Sieved;
    if n < 72 { Low2(n); } else { High2(n); }
  }

  lemma Low3(n: nat)
    requires 90 <= n < 108
    ensures Sieved(n) <==> n in [97, 101, 103, 107]
  { }

  lemma High3(n: nat)
    requires 108 <= n < 132
    ensures Sieved(n) <==> n in [109, 113, 127, 131]
  { }

  lemma Sieve3(n: nat)
    requires 90 <= n < 132
    ensures Sieved(n) <==> n in [97, 101, 103, 107, 109, 113, 127, 131]
  {
    hide Sieved;
    if n < 108 { Low3(n); } else { High3(n); }
  }

  lemma Low4(n: nat)
    requires 132 <= n < 152
    ensures Sieved(n) <==> n in [137, 139, 149, 151]
  { }

  lemma High4(n: nat)
    requires 152 <= n < 174
    ensures Sieved(n) <==> n in [157, 163, 167, 173]
  { }

  lemma Sieve4(n: nat)
    requires 132 <= n < 174
    ensures Sieved(n) <==> n in [137, 139, 149, 151, 157, 163, 167, 173]
  {
    hide Sieved;
    if n < 152 { Low4(n); } else { High4(n); }
  }

  lemma Low5(n: nat)
    requires 174 <= n < 194
    ensures Sieved(n) <==> n in [179, 181, 191, 193]
  { }

  lemma High5(n: nat)
    requires 194 <= n < 224
    ensures Sieved(n) <==> n in [197, 199, 211, 223]
  { }

  lemma Sieve5(n: nat)
    requires 174 <= n < 224
    ensures Sieved(n) <==> n in [179, 181, 191, 193, 197, 199, 211, 223]
  {
    hide Sieved;
    if n < 194 { Low5(n); } else { High5(n); }
  }

  lemma Low6(n: nat)
    requires 224 <= n < 240
    ensures Sieved(n) <==> n in [227, 229, 233, 239]
  { }

  lemma High6(n: nat)
    requires 240 <= n < 264
    ensures Sieved(n) <==> n in [241, 251, 257, 263]
  { }

  lemma Sieve6(n: nat)
    requires 224 <= n < 264
    ensures Sieved(n) <==> n in [227, 229, 233, 239, 241, 251, 257, 263]
  {
    hide Sieved;
    if n < 240 { Low6(n); } else { High6(n); }
  }

  lemma Low7(n: nat)
    requires 264 <= n < 282
    ensures Sieved(n) <==> n in [269, 271, 277, 281]
  { }

  lemma High7(n: nat)
    requires 282 <= n < 312
    ensures Sieved(n) <==> n in [283, 293, 307, 311]
  { }

  lemma Sieve7(n: nat)
    requires 264 <= n < 312
    ensures Sieved(n) <==> n in [269, 271, 277, 281, 283, 293, 307, 311]
  {
    hide Sieved;
    if n < 282 { Low7(n); } else { High7(n); }
  }

  lemma InRow0(n: nat)
    requires n in [2, 3, 5, 7, 11, 13, 17, 19]
    ensures exists t: nat :: t < 64 && P(t) == n
  {
    var k :| 0 <= k < 8 && [2, 3, 5, 7, 11, 13, 17, 19][k] == n;
    assert P(0 + k) == n;
  }

  lemma InRow1(n: nat)
    requires n in [23, 29, 31, 37, 41, 43, 47, 53]
    ensures exists t: nat :: t < 64 && P(t) == n
  {
    var k :| 0 <= k < 8 && [23, 29, 31, 37, 41, 43, 47, 53][k] == n;
    assert P(8 + k) == n;
  }

  lemma InRow2(n: nat)
    requires n in [59, 61, 67, 71, 73, 79, 83, 89]
    ensures exists t: nat :: t < 64 && P(t) == n
  {
    var k :| 0 <= k < 8 && [59, 61, 67, 71, 73, 79, 83, 89][k] == n;
    assert P(16 + k) == n;
  }

  lemma InRow3(n: nat)
    requires n in [97, 101, 103, 107, 109, 113, 127, 131]
    ensures exists t: nat :: t < 64 && P(t) == n
  {
    var k :| 0 <= k < 8 && [97, 101, 103, 107, 109, 113, 127, 131][k] == n;
    assert P(24 + k) == n;
  }

  lemma InRow4(n: nat)
    requires n in [137, 139, 149, 151, 157, 163, 167, 173]
    ensures exists t: nat :: t < 64 && P(t) == n
  {
    var k :| 0 <= k < 8 && [137, 139, 149, 151, 157, 163, 167, 173][k] == n;
    assert P(32 + k) == n;
  }

  lemma InRow5(n: nat)
    requires n in [179, 181, 191, 193, 197, 199, 211, 223]
    ensures exists t: nat :: t < 64 && P(t) == n
  {
    var k :| 0 <= k < 8 && [179, 181, 191, 193, 197, 199, 211, 223][k] == n;
    assert P(40 + k) == n;
  }

  lemma InRow6(n: nat)
    requires n in [227, 229, 233, 239, 241, 251, 257, 263]
    ensures exists t: nat :: t < 64 && P(t) == n
  {
    var k :| 0 <= k < 8 && [227, 229, 233, 239, 241, 251, 257, 263][k] == n;
    assert P(48 + k) == n;
  }

  lemma InRow7(n: nat)
    requires n in [269, 271, 277, 281, 283, 293, 307, 311]
    ensures exists t: nat :: t < 64 && P(t) == n
  {
    var k :| 0 <= k < 8 && [269, 271, 277, 281, 283, 293, 307, 311][k] == n;
    assert P(56 + k) == n;
  }

  // They are prime, they rise, and there is no other up to the last.
  lemma FirstPrimes(t: nat)
    requires t < 64
    ensures Prime(P(t)) && P(t) <= 311
  {
    SievedIsPrime(P(t));
    if t < 8 { Sieve0(P(t)); }
    else if t < 16 { Sieve1(P(t)); }
    else if t < 24 { Sieve2(P(t)); }
    else if t < 32 { Sieve3(P(t)); }
    else if t < 40 { Sieve4(P(t)); }
    else if t < 48 { Sieve5(P(t)); }
    else if t < 56 { Sieve6(P(t)); }
    else if t < 64 { Sieve7(P(t)); }
  }

  lemma PrimesRise(t: nat)
    requires t < 63
    ensures P(t) < P(t + 1)
  { }

  lemma NoOtherPrime(n: nat)
    requires Prime(n) && n <= 311
    ensures exists t: nat :: t < 64 && P(t) == n
  {
    hide Prime, Sieved, P;
    SievedIsPrime(n);
    if n < 20 { Sieve0(n); InRow0(n); }
    else if n < 54 { Sieve1(n); InRow1(n); }
    else if n < 90 { Sieve2(n); InRow2(n); }
    else if n < 132 { Sieve3(n); InRow3(n); }
    else if n < 174 { Sieve4(n); InRow4(n); }
    else if n < 224 { Sieve5(n); InRow5(n); }
    else if n < 264 { Sieve6(n); InRow6(n); }
    else { Sieve7(n); InRow7(n); }
  }

  // k is the first thirty-two bits of the fractional part of the cube root of p, n the integer part.
  predicate CubeRoot(p: nat, n: nat, k: Word) {
    var x := n * M32 + k;
    x * x * x <= p * (M32 * M32 * M32) < (x + 1) * (x + 1) * (x + 1)
  }

  predicate SquareRoot(p: nat, n: nat, k: Word) {
    var x := n * M32 + k;
    x * x <= p * (M32 * M32) < (x + 1) * (x + 1)
  }

  lemma Row0()
    ensures CubeRoot(2, 1, 0x428a2f98)
    ensures CubeRoot(3, 1, 0x71374491)
    ensures CubeRoot(5, 1, 0xb5c0fbcf)
    ensures CubeRoot(7, 1, 0xe9b5dba5)
    ensures CubeRoot(11, 2, 0x3956c25b)
    ensures CubeRoot(13, 2, 0x59f111f1)
    ensures CubeRoot(17, 2, 0x923f82a4)
    ensures CubeRoot(19, 2, 0xab1c5ed5)
  { }

  lemma Row1()
    ensures CubeRoot(23, 2, 0xd807aa98)
    ensures CubeRoot(29, 3, 0x12835b01)
    ensures CubeRoot(31, 3, 0x243185be)
    ensures CubeRoot(37, 3, 0x550c7dc3)
    ensures CubeRoot(41, 3, 0x72be5d74)
    ensures CubeRoot(43, 3, 0x80deb1fe)
    ensures CubeRoot(47, 3, 0x9bdc06a7)
    ensures CubeRoot(53, 3, 0xc19bf174)
  { }

  lemma Row2()
    ensures CubeRoot(59, 3, 0xe49b69c1)
    ensures CubeRoot(61, 3, 0xefbe4786)
    ensures CubeRoot(67, 4, 0x0fc19dc6)
    ensures CubeRoot(71, 4, 0x240ca1cc)
    ensures CubeRoot(73, 4, 0x2de92c6f)
    ensures CubeRoot(79, 4, 0x4a7484aa)
    ensures CubeRoot(83, 4, 0x5cb0a9dc)
    ensures CubeRoot(89, 4, 0x76f988da)
  { }

  lemma Row3()
    ensures CubeRoot(97, 4, 0x983e5152)
    ensures CubeRoot(101, 4, 0xa831c66d)
    ensures CubeRoot(103, 4, 0xb00327c8)
    ensures CubeRoot(107, 4, 0xbf597fc7)
    ensures CubeRoot(109, 4, 0xc6e00bf3)
    ensures CubeRoot(113, 4, 0xd5a79147)
    ensures CubeRoot(127, 5, 0x06ca6351)
    ensures CubeRoot(131, 5, 0x14292967)
  { }

  lemma Row4()
    ensures CubeRoot(137, 5, 0x27b70a85)
    ensures CubeRoot(139, 5, 0x2e1b2138)
    ensures CubeRoot(149, 5, 0x4d2c6dfc)
    ensures CubeRoot(151, 5, 0x53380d13)
    ensures CubeRoot(157, 5, 0x650a7354)
    ensures CubeRoot(163, 5, 0x766a0abb)
    ensures CubeRoot(167, 5, 0x81c2c92e)
    ensures CubeRoot(173, 5, 0x92722c85)
  { }

  lemma Row5()
    ensures CubeRoot(179, 5, 0xa2bfe8a1)
    ensures CubeRoot(181, 5, 0xa81a664b)
    ensures CubeRoot(191, 5, 0xc24b8b70)
    ensures CubeRoot(193, 5, 0xc76c51a3)
    ensures CubeRoot(197, 5, 0xd192e819)
    ensures CubeRoot(199, 5, 0xd6990624)
    ensures CubeRoot(211, 5, 0xf40e3585)
    ensures CubeRoot(223, 6, 0x106aa070)
  { }

  lemma Row6()
    ensures CubeRoot(227, 6, 0x19a4c116)
    ensures CubeRoot(229, 6, 0x1e376c08)
    ensures CubeRoot(233, 6, 0x2748774c)
    ensures CubeRoot(239, 6, 0x34b0bcb5)
    ensures CubeRoot(241, 6, 0x391c0cb3)
    ensures CubeRoot(251, 6, 0x4ed8aa4a)
    ensures CubeRoot(257, 6, 0x5b9cca4f)
    ensures CubeRoot(263, 6, 0x682e6ff3)
  { }

  lemma Row7()
    ensures CubeRoot(269, 6, 0x748f82ee)
    ensures CubeRoot(271, 6, 0x78a5636f)
    ensures CubeRoot(277, 6, 0x84c87814)
    ensures CubeRoot(281, 6, 0x8cc70208)
    ensures CubeRoot(283, 6, 0x90befffa)
    ensures CubeRoot(293, 6, 0xa4506ceb)
    ensures CubeRoot(307, 6, 0xbef9a3f7)
    ensures CubeRoot(311, 6, 0xc67178f2)
  { }

  lemma FromRow0(t: nat)
    requires 0 <= t < 8
    ensures |K| == 64 && exists n :: CubeRoot(P(t), n, K[t])
  {
    hide CubeRoot;
    Row0();
    if t == 0 { assert CubeRoot(P(t), 1, K[t]); }
    if t == 1 { assert CubeRoot(P(t), 1, K[t]); }
    if t == 2 { assert CubeRoot(P(t), 1, K[t]); }
    if t == 3 { assert CubeRoot(P(t), 1, K[t]); }
    if t == 4 { assert CubeRoot(P(t), 2, K[t]); }
    if t == 5 { assert CubeRoot(P(t), 2, K[t]); }
    if t == 6 { assert CubeRoot(P(t), 2, K[t]); }
    if t == 7 { assert CubeRoot(P(t), 2, K[t]); }
  }

  lemma FromRow1(t: nat)
    requires 8 <= t < 16
    ensures |K| == 64 && exists n :: CubeRoot(P(t), n, K[t])
  {
    hide CubeRoot;
    Row1();
    if t == 8 { assert CubeRoot(P(t), 2, K[t]); }
    if t == 9 { assert CubeRoot(P(t), 3, K[t]); }
    if t == 10 { assert CubeRoot(P(t), 3, K[t]); }
    if t == 11 { assert CubeRoot(P(t), 3, K[t]); }
    if t == 12 { assert CubeRoot(P(t), 3, K[t]); }
    if t == 13 { assert CubeRoot(P(t), 3, K[t]); }
    if t == 14 { assert CubeRoot(P(t), 3, K[t]); }
    if t == 15 { assert CubeRoot(P(t), 3, K[t]); }
  }

  lemma FromRow2(t: nat)
    requires 16 <= t < 24
    ensures |K| == 64 && exists n :: CubeRoot(P(t), n, K[t])
  {
    hide CubeRoot;
    Row2();
    if t == 16 { assert CubeRoot(P(t), 3, K[t]); }
    if t == 17 { assert CubeRoot(P(t), 3, K[t]); }
    if t == 18 { assert CubeRoot(P(t), 4, K[t]); }
    if t == 19 { assert CubeRoot(P(t), 4, K[t]); }
    if t == 20 { assert CubeRoot(P(t), 4, K[t]); }
    if t == 21 { assert CubeRoot(P(t), 4, K[t]); }
    if t == 22 { assert CubeRoot(P(t), 4, K[t]); }
    if t == 23 { assert CubeRoot(P(t), 4, K[t]); }
  }

  lemma FromRow3(t: nat)
    requires 24 <= t < 32
    ensures |K| == 64 && exists n :: CubeRoot(P(t), n, K[t])
  {
    hide CubeRoot;
    Row3();
    if t == 24 { assert CubeRoot(P(t), 4, K[t]); }
    if t == 25 { assert CubeRoot(P(t), 4, K[t]); }
    if t == 26 { assert CubeRoot(P(t), 4, K[t]); }
    if t == 27 { assert CubeRoot(P(t), 4, K[t]); }
    if t == 28 { assert CubeRoot(P(t), 4, K[t]); }
    if t == 29 { assert CubeRoot(P(t), 4, K[t]); }
    if t == 30 { assert CubeRoot(P(t), 5, K[t]); }
    if t == 31 { assert CubeRoot(P(t), 5, K[t]); }
  }

  lemma FromRow4(t: nat)
    requires 32 <= t < 40
    ensures |K| == 64 && exists n :: CubeRoot(P(t), n, K[t])
  {
    hide CubeRoot;
    Row4();
    if t == 32 { assert CubeRoot(P(t), 5, K[t]); }
    if t == 33 { assert CubeRoot(P(t), 5, K[t]); }
    if t == 34 { assert CubeRoot(P(t), 5, K[t]); }
    if t == 35 { assert CubeRoot(P(t), 5, K[t]); }
    if t == 36 { assert CubeRoot(P(t), 5, K[t]); }
    if t == 37 { assert CubeRoot(P(t), 5, K[t]); }
    if t == 38 { assert CubeRoot(P(t), 5, K[t]); }
    if t == 39 { assert CubeRoot(P(t), 5, K[t]); }
  }

  lemma FromRow5(t: nat)
    requires 40 <= t < 48
    ensures |K| == 64 && exists n :: CubeRoot(P(t), n, K[t])
  {
    hide CubeRoot;
    Row5();
    if t == 40 { assert CubeRoot(P(t), 5, K[t]); }
    if t == 41 { assert CubeRoot(P(t), 5, K[t]); }
    if t == 42 { assert CubeRoot(P(t), 5, K[t]); }
    if t == 43 { assert CubeRoot(P(t), 5, K[t]); }
    if t == 44 { assert CubeRoot(P(t), 5, K[t]); }
    if t == 45 { assert CubeRoot(P(t), 5, K[t]); }
    if t == 46 { assert CubeRoot(P(t), 5, K[t]); }
    if t == 47 { assert CubeRoot(P(t), 6, K[t]); }
  }

  lemma FromRow6(t: nat)
    requires 48 <= t < 56
    ensures |K| == 64 && exists n :: CubeRoot(P(t), n, K[t])
  {
    hide CubeRoot;
    Row6();
    if t == 48 { assert CubeRoot(P(t), 6, K[t]); }
    if t == 49 { assert CubeRoot(P(t), 6, K[t]); }
    if t == 50 { assert CubeRoot(P(t), 6, K[t]); }
    if t == 51 { assert CubeRoot(P(t), 6, K[t]); }
    if t == 52 { assert CubeRoot(P(t), 6, K[t]); }
    if t == 53 { assert CubeRoot(P(t), 6, K[t]); }
    if t == 54 { assert CubeRoot(P(t), 6, K[t]); }
    if t == 55 { assert CubeRoot(P(t), 6, K[t]); }
  }

  lemma FromRow7(t: nat)
    requires 56 <= t < 64
    ensures |K| == 64 && exists n :: CubeRoot(P(t), n, K[t])
  {
    hide CubeRoot;
    Row7();
    if t == 56 { assert CubeRoot(P(t), 6, K[t]); }
    if t == 57 { assert CubeRoot(P(t), 6, K[t]); }
    if t == 58 { assert CubeRoot(P(t), 6, K[t]); }
    if t == 59 { assert CubeRoot(P(t), 6, K[t]); }
    if t == 60 { assert CubeRoot(P(t), 6, K[t]); }
    if t == 61 { assert CubeRoot(P(t), 6, K[t]); }
    if t == 62 { assert CubeRoot(P(t), 6, K[t]); }
    if t == 63 { assert CubeRoot(P(t), 6, K[t]); }
  }

  // The round constant of step t comes from the t-th prime.
  lemma RoundConstants(t: nat)
    requires t < 64
    ensures |K| == 64 && exists n :: CubeRoot(P(t), n, K[t])
  {
    hide CubeRoot, P;
    if t < 8 { FromRow0(t); }
    else if t < 16 { FromRow1(t); }
    else if t < 24 { FromRow2(t); }
    else if t < 32 { FromRow3(t); }
    else if t < 40 { FromRow4(t); }
    else if t < 48 { FromRow5(t); }
    else if t < 56 { FromRow6(t); }
    else { FromRow7(t); }
  }

  lemma InitialValues()
    ensures SquareRoot(P(0), 1, IV.a)
    ensures SquareRoot(P(1), 1, IV.b)
    ensures SquareRoot(P(2), 2, IV.c)
    ensures SquareRoot(P(3), 2, IV.d)
    ensures SquareRoot(P(4), 3, IV.e)
    ensures SquareRoot(P(5), 3, IV.f)
    ensures SquareRoot(P(6), 4, IV.g)
    ensures SquareRoot(P(7), 4, IV.h)
  { }
}
