/**
 The constants of SHA-256, as sections 4.2.2 and 5.3.3 of FIPS 180-4 define them: the first 32 bits
 of the fractional parts of the cube roots of the first 64 primes, and of the square roots of the
 first eight.
 */
module Sha256Constants {
  import Spec = Sha256Spec

  // ---------------------------------------------------------------- primes

  predicate IsPrime(n: nat) {
    n >= 2 && forall d :: 2 <= d < n ==> n % d != 0
  }

  const PRIMES: seq<nat> :=
    [2, 3, 5, 7, 11, 13, 17, 19]
    + [23, 29, 31, 37, 41, 43, 47, 53]
    + [59, 61, 67, 71, 73, 79, 83, 89]
    + [97, 101, 103, 107, 109, 113, 127, 131]
    + [137, 139, 149, 151, 157, 163, 167, 173]
    + [179, 181, 191, 193, 197, 199, 211, 223]
    + [227, 229, 233, 239, 241, 251, 257, 263]
    + [269, 271, 277, 281, 283, 293, 307, 311]

  /** None of the primes up to 17 divides n, unless it is n. */
  predicate Sieved(n: nat) {
    n >= 2 && (n == 2 || n % 2 != 0) && (n == 3 || n % 3 != 0) && (n == 5 || n % 5 != 0) && (n == 7 || n % 7 != 0)
    && (n == 11 || n % 11 != 0) && (n == 13 || n % 13 != 0) && (n == 17 || n % 17 != 0)
  }

  lemma Multiple(n: nat, q: nat, c: nat)
    requires q > 0 && n == q * c
    ensures n % q == 0
  {
    Spec.Remainder(n, q, c, 0);
  }

  lemma NotSieved(n: nat, q: nat, c: nat)
    requires n == q * c && q < n && q in {2, 3, 5, 7, 11, 13, 17}
    ensures !Sieved(n)
  {
    Multiple(n, q, c);
  }

  /** Every number from 2 to 17 is a multiple of one of the seven. */
  lemma SmallFactor(n: nat, m: nat, c: nat)
    requires n == m * c && 2 <= m < 18 && m < n
    ensures !Sieved(n)
  {
    hide Sieved;
    match m
    case 2 => NotSieved(n, 2, c);
    case 3 => NotSieved(n, 3, c);
    case 4 => NotSieved(n, 2, 2 * c);
    case 5 => NotSieved(n, 5, c);
    case 6 => NotSieved(n, 2, 3 * c);
    case 7 => NotSieved(n, 7, c);
    case 8 => NotSieved(n, 2, 4 * c);
    case 9 => NotSieved(n, 3, 3 * c);
    case 10 => NotSieved(n, 2, 5 * c);
    case 11 => NotSieved(n, 11, c);
    case 12 => NotSieved(n, 2, 6 * c);
    case 13 => NotSieved(n, 13, c);
    case 14 => NotSieved(n, 2, 7 * c);
    case 15 => NotSieved(n, 3, 5 * c);
    case 16 => NotSieved(n, 2, 8 * c);
    case 17 => NotSieved(n, 17, c);
  }

  lemma Factors(d: nat, e: nat)
    requires 2 <= d < d * e
    ensures 2 <= e < d * e
    ensures d >= 18 && e >= 18 ==> d * e >= 324
  {
    if d >= 18 && e >= 18 {
      assert d * e >= 18 * e;
    }
  }

  /** Below the square of 18, what passes the sieve is prime, and the other way round. */
  lemma SievedIsPrime(n: nat)
    requires n < 324
    ensures Sieved(n) <==> IsPrime(n)
  {
    PrimeIsSieved(n);
    hide Sieved;
    if n >= 2 && !IsPrime(n) {
      var d :| 2 <= d < n && n % d == 0;
      var e := n / d;
      assert n == d * e;
      Factors(d, e);
      if d < 18 {
        SmallFactor(n, d, e);
      } else {
        SmallFactor(n, e, d);
      }
    }
  }

  lemma PrimeIsSieved(n: nat)
    ensures IsPrime(n) ==> Sieved(n)
    ensures n < 2 ==> !Sieved(n)
  {
  }

  /** No number from n on and below q passes. */
  predicate NoneSieved(n: nat, q: nat)
    decreases q - n
  {
    n >= q || (!Sieved(n) && NoneSieved(n + 1, q))
  }

  lemma {:induction false} NoneSievedBetween(n: nat, q: nat, k: nat)
    requires NoneSieved(n, q) && n <= k < q
    ensures !Sieved(k)
    decreases q - n
  {
    if n < k {
      NoneSievedBetween(n + 1, q, k);
    }
  }

  /** The t-th number of the table passes the sieve, and none after it and before the next does. */
  predicate SievedFrom(t: nat)
    requires t < 64
  {
    Sieved(PRIMES[t]) && (t < 63 ==> PRIMES[t] < PRIMES[t + 1] && NoneSieved(PRIMES[t] + 1, PRIMES[t + 1]))
  }

  lemma Sieve0()
    ensures forall t :: 0 <= t < 4 ==> SievedFrom(t)
  {
    assert Sieved(2) && NoneSieved(3, 3);
    assert Sieved(3) && NoneSieved(4, 5);
    assert Sieved(5) && NoneSieved(6, 7);
    assert Sieved(7) && NoneSieved(8, 11);
  }

  lemma Sieve4()
    ensures forall t :: 4 <= t < 8 ==> SievedFrom(t)
  {
    assert Sieved(11) && NoneSieved(12, 13);
    assert Sieved(13) && NoneSieved(14, 17);
    assert Sieved(17) && NoneSieved(18, 19);
    assert Sieved(19) && NoneSieved(20, 23);
  }

  lemma Sieve8()
    ensures forall t :: 8 <= t < 12 ==> SievedFrom(t)
  {
    assert Sieved(23) && NoneSieved(24, 29);
    assert Sieved(29) && NoneSieved(30, 31);
    assert Sieved(31) && NoneSieved(32, 37);
    assert Sieved(37) && NoneSieved(38, 41);
  }

  lemma Sieve12()
    ensures forall t :: 12 <= t < 16 ==> SievedFrom(t)
  {
    assert Sieved(41) && NoneSieved(42, 43);
    assert Sieved(43) && NoneSieved(44, 47);
    assert Sieved(47) && NoneSieved(48, 53);
    assert Sieved(53) && NoneSieved(54, 59);
  }

  lemma Sieve16()
    ensures forall t :: 16 <= t < 20 ==> SievedFrom(t)
  {
    assert Sieved(59) && NoneSieved(60, 61);
    assert Sieved(61) && NoneSieved(62, 67);
    assert Sieved(67) && NoneSieved(68, 71);
    assert Sieved(71) && NoneSieved(72, 73);
  }

  lemma Sieve20()
    ensures forall t :: 20 <= t < 24 ==> SievedFrom(t)
  {
    assert Sieved(73) && NoneSieved(74, 79);
    assert Sieved(79) && NoneSieved(80, 83);
    assert Sieved(83) && NoneSieved(84, 89);
    assert Sieved(89) && NoneSieved(90, 97);
  }

  lemma Sieve24()
    ensures forall t :: 24 <= t < 28 ==> SievedFrom(t)
  {
    assert Sieved(97) && NoneSieved(98, 101);
    assert Sieved(101) && NoneSieved(102, 103);
    assert Sieved(103) && NoneSieved(104, 107);
    assert Sieved(107) && NoneSieved(108, 109);
  }

  lemma Sieve28()
    ensures forall t :: 28 <= t < 32 ==> SievedFrom(t)
  {
    assert Sieved(109) && NoneSieved(110, 113);
    assert Sieved(113) && NoneSieved(114, 127);
    assert Sieved(127) && NoneSieved(128, 131);
    assert Sieved(131) && NoneSieved(132, 137);
  }

  lemma Sieve32()
    ensures forall t :: 32 <= t < 36 ==> SievedFrom(t)
  {
    assert Sieved(137) && NoneSieved(138, 139);
    assert Sieved(139) && NoneSieved(140, 149);
    assert Sieved(149) && NoneSieved(150, 151);
    assert Sieved(151) && NoneSieved(152, 157);
  }

  lemma Sieve36()
    ensures forall t :: 36 <= t < 40 ==> SievedFrom(t)
  {
    assert Sieved(157) && NoneSieved(158, 163);
    assert Sieved(163) && NoneSieved(164, 167);
    assert Sieved(167) && NoneSieved(168, 173);
    assert Sieved(173) && NoneSieved(174, 179);
  }

  lemma Sieve40()
    ensures forall t :: 40 <= t < 44 ==> SievedFrom(t)
  {
    assert Sieved(179) && NoneSieved(180, 181);
    assert Sieved(181) && NoneSieved(182, 191);
    assert Sieved(191) && NoneSieved(192, 193);
    assert Sieved(193) && NoneSieved(194, 197);
  }

  lemma Sieve44()
    ensures forall t :: 44 <= t < 48 ==> SievedFrom(t)
  {
    assert Sieved(197) && NoneSieved(198, 199);
    assert Sieved(199) && NoneSieved(200, 211);
    assert Sieved(211) && NoneSieved(212, 223);
    assert Sieved(223) && NoneSieved(224, 227);
  }

  lemma Sieve48()
    ensures forall t :: 48 <= t < 52 ==> SievedFrom(t)
  {
    assert Sieved(227) && NoneSieved(228, 229);
    assert Sieved(229) && NoneSieved(230, 233);
    assert Sieved(233) && NoneSieved(234, 239);
    assert Sieved(239) && NoneSieved(240, 241);
  }

  lemma Sieve52()
    ensures forall t :: 52 <= t < 56 ==> SievedFrom(t)
  {
    assert Sieved(241) && NoneSieved(242, 251);
    assert Sieved(251) && NoneSieved(252, 257);
    assert Sieved(257) && NoneSieved(258, 263);
    assert Sieved(263) && NoneSieved(264, 269);
  }

  lemma Sieve56()
    ensures forall t :: 56 <= t < 60 ==> SievedFrom(t)
  {
    assert Sieved(269) && NoneSieved(270, 271);
    assert Sieved(271) && NoneSieved(272, 277);
    assert Sieved(277) && NoneSieved(278, 281);
    assert Sieved(281) && NoneSieved(282, 283);
  }

  lemma Sieve60()
    ensures forall t :: 60 <= t < 64 ==> SievedFrom(t)
  {
    assert Sieved(283) && NoneSieved(284, 293);
    assert Sieved(293) && NoneSieved(294, 307);
    assert Sieved(307) && NoneSieved(308, 311);
    assert Sieved(311);
  }

  /** The table begins with 2 and goes from each prime to the next one. */
  lemma PrimesInOrder(t: nat)
    requires t < 64
    ensures IsPrime(PRIMES[t]) && PRIMES[0] == 2
    ensures t < 63 ==> PRIMES[t] < PRIMES[t + 1] && forall n :: PRIMES[t] < n < PRIMES[t + 1] ==> !IsPrime(n)
  {
    hide Sieved, IsPrime, NoneSieved;
    Sieve0();
    Sieve4();
    Sieve8();
    Sieve12();
    Sieve16();
    Sieve20();
    Sieve24();
    Sieve28();
    Sieve32();
    Sieve36();
    Sieve40();
    Sieve44();
    Sieve48();
    Sieve52();
    Sieve56();
    Sieve60();
    assert SievedFrom(t);
    TableBelow(t);
    SievedIsPrime(PRIMES[t]);
    if t < 63 {
      TableBelow(t + 1);
      forall n | PRIMES[t] < n < PRIMES[t + 1] ensures !IsPrime(n) {
        NoneSievedBetween(PRIMES[t] + 1, PRIMES[t + 1], n);
        SievedIsPrime(n);
      }
    }
  }

  lemma TableBelow(t: nat)
    requires t < 64
    ensures PRIMES[t] < 324
  {
  }

  // ---------------------------------------------------------------- roots

  function Square(x: nat): nat {
    x * x
  }

  function Cube(x: nat): nat {
    x * x * x
  }

  /** k is the first 32 bits behind the point of the cube root of p. */
  ghost predicate CubeRootBits(k: nat, p: nat) {
    exists i: nat :: Cube(i) <= p < Cube(i + 1) && CubeRootIs(i, k, p)
  }

  /** 2^32 times the cube root of p lies from i 2^32 + k up to the next number. */
  predicate CubeRootIs(i: nat, k: nat, p: nat) {
    && k < 0x1_0000_0000
    && Cube(i * 0x1_0000_0000 + k) <= p * 0x1_0000_0000_0000_0000_0000_0000 < Cube(i * 0x1_0000_0000 + k + 1)
  }

  /** The same for the square root. */
  ghost predicate SquareRootBits(h: nat, p: nat) {
    exists i: nat :: Square(i) <= p < Square(i + 1) && SquareRootIs(i, h, p)
  }

  predicate SquareRootIs(i: nat, h: nat, p: nat) {
    && h < 0x1_0000_0000
    && Square(i * 0x1_0000_0000 + h) <= p * 0x1_0000_0000_0000_0000 < Square(i * 0x1_0000_0000 + h + 1)
  }

  lemma CubeRoot(i: nat, k: nat, p: nat)
    requires Cube(i) <= p < Cube(i + 1) && CubeRootIs(i, k, p)
    ensures CubeRootBits(k, p)
  {
  }

  lemma SquareRoot(i: nat, h: nat, p: nat)
    requires Square(i) <= p < Square(i + 1) && SquareRootIs(i, h, p)
    ensures SquareRootBits(h, p)
  {
  }

  lemma CubeRoots0()
    ensures forall t :: 0 <= t < 4 ==> CubeRootBits(Spec.K[t] as nat, PRIMES[t])
  {
    hide CubeRootBits;
    assert Spec.K[0] as nat == 0x428a2f98;
    CubeRoot(1, 0x428a2f98, 2);
    assert Spec.K[1] as nat == 0x71374491;
    CubeRoot(1, 0x71374491, 3);
    assert Spec.K[2] as nat == 0xb5c0fbcf;
    CubeRoot(1, 0xb5c0fbcf, 5);
    assert Spec.K[3] as nat == 0xe9b5dba5;
    CubeRoot(1, 0xe9b5dba5, 7);
  }

  lemma CubeRoots4()
    ensures forall t :: 4 <= t < 8 ==> CubeRootBits(Spec.K[t] as nat, PRIMES[t])
  {
    hide CubeRootBits;
    assert Spec.K[4] as nat == 0x3956c25b;
    CubeRoot(2, 0x3956c25b, 11);
    assert Spec.K[5] as nat == 0x59f111f1;
    CubeRoot(2, 0x59f111f1, 13);
    assert Spec.K[6] as nat == 0x923f82a4;
    CubeRoot(2, 0x923f82a4, 17);
    assert Spec.K[7] as nat == 0xab1c5ed5;
    CubeRoot(2, 0xab1c5ed5, 19);
  }

  lemma CubeRoots8()
    ensures forall t :: 8 <= t < 12 ==> CubeRootBits(Spec.K[t] as nat, PRIMES[t])
  {
    hide CubeRootBits;
    assert Spec.K[8] as nat == 0xd807aa98;
    CubeRoot(2, 0xd807aa98, 23);
    assert Spec.K[9] as nat == 0x12835b01;
    CubeRoot(3, 0x12835b01, 29);
    assert Spec.K[10] as nat == 0x243185be;
    CubeRoot(3, 0x243185be, 31);
    assert Spec.K[11] as nat == 0x550c7dc3;
    CubeRoot(3, 0x550c7dc3, 37);
  }

  lemma CubeRoots12()
    ensures forall t :: 12 <= t < 16 ==> CubeRootBits(Spec.K[t] as nat, PRIMES[t])
  {
    hide CubeRootBits;
    assert Spec.K[12] as nat == 0x72be5d74;
    CubeRoot(3, 0x72be5d74, 41);
    assert Spec.K[13] as nat == 0x80deb1fe;
    CubeRoot(3, 0x80deb1fe, 43);
    assert Spec.K[14] as nat == 0x9bdc06a7;
    CubeRoot(3, 0x9bdc06a7, 47);
    assert Spec.K[15] as nat == 0xc19bf174;
    CubeRoot(3, 0xc19bf174, 53);
  }

  lemma CubeRoots16()
    ensures forall t :: 16 <= t < 20 ==> CubeRootBits(Spec.K[t] as nat, PRIMES[t])
  {
    hide CubeRootBits;
    assert Spec.K[16] as nat == 0xe49b69c1;
    CubeRoot(3, 0xe49b69c1, 59);
    assert Spec.K[17] as nat == 0xefbe4786;
    CubeRoot(3, 0xefbe4786, 61);
    assert Spec.K[18] as nat == 0x0fc19dc6;
    CubeRoot(4, 0x0fc19dc6, 67);
    assert Spec.K[19] as nat == 0x240ca1cc;
    CubeRoot(4, 0x240ca1cc, 71);
  }

  lemma CubeRoots20()
    ensures forall t :: 20 <= t < 24 ==> CubeRootBits(Spec.K[t] as nat, PRIMES[t])
  {
    hide CubeRootBits;
    assert Spec.K[20] as nat == 0x2de92c6f;
    CubeRoot(4, 0x2de92c6f, 73);
    assert Spec.K[21] as nat == 0x4a7484aa;
    CubeRoot(4, 0x4a7484aa, 79);
    assert Spec.K[22] as nat == 0x5cb0a9dc;
    CubeRoot(4, 0x5cb0a9dc, 83);
    assert Spec.K[23] as nat == 0x76f988da;
    CubeRoot(4, 0x76f988da, 89);
  }

  lemma CubeRoots24()
    ensures forall t :: 24 <= t < 28 ==> CubeRootBits(Spec.K[t] as nat, PRIMES[t])
  {
    hide CubeRootBits;
    assert Spec.K[24] as nat == 0x983e5152;
    CubeRoot(4, 0x983e5152, 97);
    assert Spec.K[25] as nat == 0xa831c66d;
    CubeRoot(4, 0xa831c66d, 101);
    assert Spec.K[26] as nat == 0xb00327c8;
    CubeRoot(4, 0xb00327c8, 103);
    assert Spec.K[27] as nat == 0xbf597fc7;
    CubeRoot(4, 0xbf597fc7, 107);
  }

  lemma CubeRoots28()
    ensures forall t :: 28 <= t < 32 ==> CubeRootBits(Spec.K[t] as nat, PRIMES[t])
  {
    hide CubeRootBits;
    assert Spec.K[28] as nat == 0xc6e00bf3;
    CubeRoot(4, 0xc6e00bf3, 109);
    assert Spec.K[29] as nat == 0xd5a79147;
    CubeRoot(4, 0xd5a79147, 113);
    assert Spec.K[30] as nat == 0x06ca6351;
    CubeRoot(5, 0x06ca6351, 127);
    assert Spec.K[31] as nat == 0x14292967;
    CubeRoot(5, 0x14292967, 131);
  }

  lemma CubeRoots32()
    ensures forall t :: 32 <= t < 36 ==> CubeRootBits(Spec.K[t] as nat, PRIMES[t])
  {
    hide CubeRootBits;
    assert Spec.K[32] as nat == 0x27b70a85;
    CubeRoot(5, 0x27b70a85, 137);
    assert Spec.K[33] as nat == 0x2e1b2138;
    CubeRoot(5, 0x2e1b2138, 139);
    assert Spec.K[34] as nat == 0x4d2c6dfc;
    CubeRoot(5, 0x4d2c6dfc, 149);
    assert Spec.K[35] as nat == 0x53380d13;
    CubeRoot(5, 0x53380d13, 151);
  }

  lemma CubeRoots36()
    ensures forall t :: 36 <= t < 40 ==> CubeRootBits(Spec.K[t] as nat, PRIMES[t])
  {
    hide CubeRootBits;
    assert Spec.K[36] as nat == 0x650a7354;
    CubeRoot(5, 0x650a7354, 157);
    assert Spec.K[37] as nat == 0x766a0abb;
    CubeRoot(5, 0x766a0abb, 163);
    assert Spec.K[38] as nat == 0x81c2c92e;
    CubeRoot(5, 0x81c2c92e, 167);
    assert Spec.K[39] as nat == 0x92722c85;
    CubeRoot(5, 0x92722c85, 173);
  }

  lemma CubeRoots40()
    ensures forall t :: 40 <= t < 44 ==> CubeRootBits(Spec.K[t] as nat, PRIMES[t])
  {
    hide CubeRootBits;
    assert Spec.K[40] as nat == 0xa2bfe8a1;
    CubeRoot(5, 0xa2bfe8a1, 179);
    assert Spec.K[41] as nat == 0xa81a664b;
    CubeRoot(5, 0xa81a664b, 181);
    assert Spec.K[42] as nat == 0xc24b8b70;
    CubeRoot(5, 0xc24b8b70, 191);
    assert Spec.K[43] as nat == 0xc76c51a3;
    CubeRoot(5, 0xc76c51a3, 193);
  }

  lemma CubeRoots44()
    ensures forall t :: 44 <= t < 48 ==> CubeRootBits(Spec.K[t] as nat, PRIMES[t])
  {
    hide CubeRootBits;
    assert Spec.K[44] as nat == 0xd192e819;
    CubeRoot(5, 0xd192e819, 197);
    assert Spec.K[45] as nat == 0xd6990624;
    CubeRoot(5, 0xd6990624, 199);
    assert Spec.K[46] as nat == 0xf40e3585;
    CubeRoot(5, 0xf40e3585, 211);
    assert Spec.K[47] as nat == 0x106aa070;
    CubeRoot(6, 0x106aa070, 223);
  }

  lemma CubeRoots48()
    ensures forall t :: 48 <= t < 52 ==> CubeRootBits(Spec.K[t] as nat, PRIMES[t])
  {
    hide CubeRootBits;
    assert Spec.K[48] as nat == 0x19a4c116;
    CubeRoot(6, 0x19a4c116, 227);
    assert Spec.K[49] as nat == 0x1e376c08;
    CubeRoot(6, 0x1e376c08, 229);
    assert Spec.K[50] as nat == 0x2748774c;
    CubeRoot(6, 0x2748774c, 233);
    assert Spec.K[51] as nat == 0x34b0bcb5;
    CubeRoot(6, 0x34b0bcb5, 239);
  }

  lemma CubeRoots52()
    ensures forall t :: 52 <= t < 56 ==> CubeRootBits(Spec.K[t] as nat, PRIMES[t])
  {
    hide CubeRootBits;
    assert Spec.K[52] as nat == 0x391c0cb3;
    CubeRoot(6, 0x391c0cb3, 241);
    assert Spec.K[53] as nat == 0x4ed8aa4a;
    CubeRoot(6, 0x4ed8aa4a, 251);
    assert Spec.K[54] as nat == 0x5b9cca4f;
    CubeRoot(6, 0x5b9cca4f, 257);
    assert Spec.K[55] as nat == 0x682e6ff3;
    CubeRoot(6, 0x682e6ff3, 263);
  }

  lemma CubeRoots56()
    ensures forall t :: 56 <= t < 60 ==> CubeRootBits(Spec.K[t] as nat, PRIMES[t])
  {
    hide CubeRootBits;
    assert Spec.K[56] as nat == 0x748f82ee;
    CubeRoot(6, 0x748f82ee, 269);
    assert Spec.K[57] as nat == 0x78a5636f;
    CubeRoot(6, 0x78a5636f, 271);
    assert Spec.K[58] as nat == 0x84c87814;
    CubeRoot(6, 0x84c87814, 277);
    assert Spec.K[59] as nat == 0x8cc70208;
    CubeRoot(6, 0x8cc70208, 281);
  }

  lemma CubeRoots60()
    ensures forall t :: 60 <= t < 64 ==> CubeRootBits(Spec.K[t] as nat, PRIMES[t])
  {
    hide CubeRootBits;
    assert Spec.K[60] as nat == 0x90befffa;
    CubeRoot(6, 0x90befffa, 283);
    assert Spec.K[61] as nat == 0xa4506ceb;
    CubeRoot(6, 0xa4506ceb, 293);
    assert Spec.K[62] as nat == 0xbef9a3f7;
    CubeRoot(6, 0xbef9a3f7, 307);
    assert Spec.K[63] as nat == 0xc67178f2;
    CubeRoot(6, 0xc67178f2, 311);
  }

  lemma ConstantsAreCubeRoots(t: nat)
    requires t < 64
    ensures CubeRootBits(Spec.K[t] as nat, PRIMES[t])
  {
    hide CubeRootBits;
    CubeRoots0();
    CubeRoots4();
    CubeRoots8();
    CubeRoots12();
    CubeRoots16();
    CubeRoots20();
    CubeRoots24();
    CubeRoots28();
    CubeRoots32();
    CubeRoots36();
    CubeRoots40();
    CubeRoots44();
    CubeRoots48();
    CubeRoots52();
    CubeRoots56();
    CubeRoots60();
  }

  lemma InitialValueIsSquareRoots()
    ensures forall t :: 0 <= t < 8 ==> SquareRootBits(Spec.H0[t] as nat, PRIMES[t])
  {
    hide SquareRootBits;
    assert Spec.H0[0] as nat == 0x6A09E667;
    SquareRoot(1, 0x6A09E667, 2);
    assert Spec.H0[1] as nat == 0xBB67AE85;
    SquareRoot(1, 0xBB67AE85, 3);
    assert Spec.H0[2] as nat == 0x3C6EF372;
    SquareRoot(2, 0x3C6EF372, 5);
    assert Spec.H0[3] as nat == 0xA54FF53A;
    SquareRoot(2, 0xA54FF53A, 7);
    assert Spec.H0[4] as nat == 0x510E527F;
    SquareRoot(3, 0x510E527F, 11);
    assert Spec.H0[5] as nat == 0x9B05688C;
    SquareRoot(3, 0x9B05688C, 13);
    assert Spec.H0[6] as nat == 0x1F83D9AB;
    SquareRoot(4, 0x1F83D9AB, 17);
    assert Spec.H0[7] as nat == 0x5BE0CD19;
    SquareRoot(4, 0x5BE0CD19, 19);
  }
}
