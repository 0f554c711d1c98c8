/**
 SHA-256 as FIPS 180-4 defines it: the functions of section 4.1.2, the padding of section
 5.1.1, the parsing of section 5.2.1 and the hash computation of section 6.2.2.
 */
module Sha256Spec {

  type Bytes = seq<bv8>

  /** Addition modulo 2 to the 32. */
  function Plus(x: bv32, y: bv32): bv32 {
    x + y
  }

  function Sum4(a: bv32, b: bv32, c: bv32, d: bv32): bv32 {
    a + b + c + d
  }

  function Sum5(a: bv32, b: bv32, c: bv32, d: bv32, e: bv32): bv32 {
    a + b + c + d + e
  }

  function Ch(x: bv32, y: bv32, z: bv32): bv32 {
    (x & y) ^ (!x & z)
  }

  function Maj(x: bv32, y: bv32, z: bv32): bv32 {
    (x & y) ^ (x & z) ^ (y & z)
  }

  function BigSigma0(x: bv32): bv32 {
    x.RotateRight(2) ^ x.RotateRight(13) ^ x.RotateRight(22)
  }

  function BigSigma1(x: bv32): bv32 {
    x.RotateRight(6) ^ x.RotateRight(11) ^ x.RotateRight(25)
  }

  function SmallSigma0(x: bv32): bv32 {
    x.RotateRight(7) ^ x.RotateRight(18) ^ (x >> 3)
  }

  function SmallSigma1(x: bv32): bv32 {
    x.RotateRight(17) ^ x.RotateRight(19) ^ (x >> 10)
  }

  /** The first 32 bits of the fractional parts of the cube roots of the first 64 primes. */
  const K: seq<bv32> :=
    [0x428a2f98, 0x71374491, 0xb5c0fbcf, 0xe9b5dba5, 0x3956c25b, 0x59f111f1, 0x923f82a4, 0xab1c5ed5]
    + [0xd807aa98, 0x12835b01, 0x243185be, 0x550c7dc3, 0x72be5d74, 0x80deb1fe, 0x9bdc06a7, 0xc19bf174]
    + [0xe49b69c1, 0xefbe4786, 0x0fc19dc6, 0x240ca1cc, 0x2de92c6f, 0x4a7484aa, 0x5cb0a9dc, 0x76f988da]
    + [0x983e5152, 0xa831c66d, 0xb00327c8, 0xbf597fc7, 0xc6e00bf3, 0xd5a79147, 0x06ca6351, 0x14292967]
    + [0x27b70a85, 0x2e1b2138, 0x4d2c6dfc, 0x53380d13, 0x650a7354, 0x766a0abb, 0x81c2c92e, 0x92722c85]
    + [0xa2bfe8a1, 0xa81a664b, 0xc24b8b70, 0xc76c51a3, 0xd192e819, 0xd6990624, 0xf40e3585, 0x106aa070]
    + [0x19a4c116, 0x1e376c08, 0x2748774c, 0x34b0bcb5, 0x391c0cb3, 0x4ed8aa4a, 0x5b9cca4f, 0x682e6ff3]
    + [0x748f82ee, 0x78a5636f, 0x84c87814, 0x8cc70208, 0x90befffa, 0xa4506ceb, 0xbef9a3f7, 0xc67178f2]

  /** The initial hash value of section 5.3.3. */
  const H0: seq<bv32> := [
    0x6A09E667, 0xBB67AE85, 0x3C6EF372, 0xA54FF53A, 0x510E527F, 0x9B05688C, 0x1F83D9AB, 0x5BE0CD19]

  /** Four bytes as a word, the most significant byte first. */
  function Word(b0: bv8, b1: bv8, b2: bv8, b3: bv8): bv32 {
    (b0 as bv32) * 0x100_0000 + (b1 as bv32) * 0x1_0000 + (b2 as bv32) * 0x100 + (b3 as bv32)
  }

  /** The message schedule. */
  function Schedule(block: Bytes, t: nat): bv32
    requires |block| == 64 && t < 64
  {
    if t < 16 then Word(block[4 * t], block[4 * t + 1], block[4 * t + 2], block[4 * t + 3])
    else Sum4(SmallSigma1(Schedule(block, t - 2)), Schedule(block, t - 7),
              SmallSigma0(Schedule(block, t - 15)), Schedule(block, t - 16))
  }

  datatype Vars = Vars(a: bv32, b: bv32, c: bv32, d: bv32, e: bv32, f: bv32, g: bv32, h: bv32)

  function T1(v: Vars, w: bv32, k: bv32): bv32 {
    Sum5(v.h, BigSigma1(v.e), Ch(v.e, v.f, v.g), k, w)
  }

  function T2(v: Vars): bv32 {
    Plus(BigSigma0(v.a), Maj(v.a, v.b, v.c))
  }

  function Round(v: Vars, w: bv32, k: bv32): Vars {
    Vars(Plus(T1(v, w, k), T2(v)), v.a, v.b, v.c, Plus(v.d, T1(v, w, k)), v.e, v.f, v.g)
  }

  function Rounds(v: Vars, block: Bytes, n: nat): Vars
    requires |block| == 64 && n <= 64
  {
    if n == 0 then v else Round(Rounds(v, block, n - 1), Schedule(block, n - 1), K[n - 1])
  }

  type State = s: seq<bv32> | |s| == 8 witness H0

  function ToVars(s: State): Vars {
    Vars(s[0], s[1], s[2], s[3], s[4], s[5], s[6], s[7])
  }

  /** One block of the hash computation. */
  function Compress(s: State, block: Bytes): State
    requires |block| == 64
  {
    var v := Rounds(ToVars(s), block, 64);
    [Plus(s[0], v.a), Plus(s[1], v.b), Plus(s[2], v.c), Plus(s[3], v.d),
     Plus(s[4], v.e), Plus(s[5], v.f), Plus(s[6], v.g), Plus(s[7], v.h)]
  }

  /** All blocks of a message of whole blocks. */
  function HashBlocks(m: Bytes): State
    requires |m| % 64 == 0
  {
    if m == [] then H0 else Compress(HashBlocks(m[..|m| - 64]), m[|m| - 64..])
  }

  /** The k low-order bytes of n, the most significant first. */
  function BigEndian(n: nat, k: nat): (b: Bytes)
    ensures |b| == k
  {
    if k == 0 then [] else BigEndian(n / 256, k - 1) + [Octet(n)]
  }

  function Octet(n: nat): bv8 {
    (n % 256) as bv8
  }

  lemma OctetIs(n: nat)
    ensures Octet(n) as nat == n % 256
  {
    ByteIs(n % 256);
  }

  lemma ByteIs(k: nat)
    requires k < 256
    ensures (k as bv8) as nat == k
  {
    var b := SomeByte(k);
    ByteFrom(b, k);
  }

  lemma {:induction false} SomeByte(k: nat) returns (b: bv8)
    requires k < 256
    ensures b as nat == k
  {
    if k == 0 {
      b := 0;
    } else {
      b := SomeByte(k - 1);
      NextByte(b);
      b := b + 1;
    }
  }

  lemma NextByte(b: bv8)
    requires b as nat < 255
    ensures (b + 1) as nat == b as nat + 1
  {
  }

  lemma ByteFrom(b: bv8, k: nat)
    requires b as nat == k
    ensures k as bv8 == b
  {
  }

  function Power256(k: nat): (p: nat)
    ensures p > 0
  {
    if k == 0 then 1 else 256 * Power256(k - 1)
  }

  /** The number that bytes are, the most significant first. */
  function BigEndianValue(b: Bytes): nat {
    if b == [] then 0 else BigEndianValue(b[..|b| - 1]) * 256 + b[|b| - 1] as nat
  }

  /** The bytes are those of n, as far as k of them go. */
  lemma {:induction false} BigEndianIs(n: nat, k: nat)
    ensures BigEndianValue(BigEndian(n, k)) == n % Power256(k)
  {
    hide Octet;
    if k > 0 {
      var b := BigEndian(n, k);
      assert b[..k - 1] == BigEndian(n / 256, k - 1) && b[k - 1] == Octet(n);
      BigEndianIs(n / 256, k - 1);
      OctetIs(n);
      LowDigit(n, Power256(k - 1));
    }
  }

  /** A number modulo 256 m, by its last digit. */
  lemma LowDigit(n: nat, m: nat)
    requires m > 0
    ensures n % (256 * m) == n / 256 % m * 256 + n % 256
  {
    var (q, r) := (n / 256 / m, n / 256 % m);
    assert n / 256 == q * m + r;
    assert n == (256 * m) * q + (r * 256 + n % 256);
    assert r * 256 + n % 256 < 256 * m;
    Remainder(n, 256 * m, q, r * 256 + n % 256);
  }

  lemma Remainder(n: nat, m: nat, q: nat, r: nat)
    requires n == m * q + r && r < m
    ensures n % m == r
  {
    OneQuotient(m, q, r, n / m, n % m);
  }

  lemma OneQuotient(m: nat, q: nat, r: nat, k: nat, s: nat)
    requires m * q + r == m * k + s && r < m && s < m
    ensures q == k && r == s
  {
    if k < q {
      NotBelow(m, q - k);
    } else if k > q {
      NotBelow(m, k - q);
    }
  }

  lemma NotBelow(m: nat, x: nat)
    requires x >= 1
    ensures m * x >= m
  {
  }

  /** What is appended to n bytes: a 1 bit, the smallest number of 0 bits that leaves room for
      the length, and the length in bits.  Below 2 to the 61 bytes the modulus changes nothing. */
  function Padding(n: nat): Bytes {
    [0x80] + Zeros((55 - n) % 64) + BigEndian(8 * n % 0x1_0000_0000_0000_0000, 8)
  }

  lemma PaddedLength(n: nat)
    ensures (n + 1 + (55 - n) % 64 + 8) % 64 == 0
  {
    var k := (55 - n) % 64;
    assert n + 1 + k + 8 == 64 * (1 - (55 - n) / 64);
  }

  function Pad(m: Bytes): (p: Bytes)
    ensures |p| % 64 == 0
  {
    PaddedLength(|m|);
    m + Padding(|m|)
  }

  function Zeros(n: nat): (z: Bytes)
    ensures |z| == n && forall i :: 0 <= i < n ==> z[i] == 0
  {
    seq(n, _ => 0)
  }

  /** Hashing one block more. */
  lemma HashBlocksNext(m: Bytes, done: nat)
    requires done % 64 == 0 && done + 64 <= |m|
    ensures HashBlocks(m[..done + 64]) == Compress(HashBlocks(m[..done]), m[done..done + 64])
  {
    var n := m[..done + 64];
    assert n[..|n| - 64] == m[..done] && n[|n| - 64..] == m[done..done + 64];
  }

  function Digest(s: State, n: nat): (d: Bytes)
    requires n <= 8
    ensures |d| == 4 * n
  {
    if n == 0 then [] else Digest(s, n - 1) + BigEndian(s[n - 1] as nat, 4)
  }

  function Sha256(m: Bytes): Bytes {
    Digest(HashBlocks(Pad(m)), 8)
  }
}
