/**
 MD5 as RFC 1321 defines it: the padding of sections 3.1 and 3.2, the initial value of section
 3.3 and the four rounds of section 3.4.
 */
module Md5Spec {
  import Words = Sha256Spec

  type Bytes = Words.Bytes

  function F(x: bv32, y: bv32, z: bv32): bv32 {
    (x & y) | (!x & z)
  }

  function G(x: bv32, y: bv32, z: bv32): bv32 {
    (x & z) | (y & !z)
  }

  function H(x: bv32, y: bv32, z: bv32): bv32 {
    x ^ y ^ z
  }

  function I(x: bv32, y: bv32, z: bv32): bv32 {
    y ^ (x | !z)
  }

  /** The function of operation i. */
  function Mixed(i: nat, x: bv32, y: bv32, z: bv32): bv32 {
    if i < 16 then F(x, y, z) else if i < 32 then G(x, y, z) else if i < 48 then H(x, y, z) else I(x, y, z)
  }

  /** The word of the block that operation i uses. */
  function Index(i: nat): (k: nat)
    ensures k < 16
  {
    if i < 16 then i else if i < 32 then (5 * i + 1) % 16 else if i < 48 then (3 * i + 5) % 16 else 7 * i % 16
  }

  /** How far operation i rotates. */
  function Shift(i: nat): nat {
    var q := i % 4;
    if i < 16 then 7 + 5 * q
    else if i < 32 then (if q == 0 then 5 else if q == 1 then 9 else if q == 2 then 14 else 20)
    else if i < 48 then (if q == 0 then 4 else if q == 1 then 11 else if q == 2 then 16 else 23)
    else (if q == 0 then 6 else if q == 1 then 10 else if q == 2 then 15 else 21)
  }

  /** The table of sines: the integer part of 4294967296 times abs(sin(i + 1)). */
  function T(i: nat): bv32 {
    if i < 16 then Sines0(i) else if i < 32 then Sines1(i - 16) else if i < 48 then Sines2(i - 32) else Sines3(i - 48)
  }

  function Sines0(j: nat): bv32 {
    match j
    case 0 => 0xd76aa478
    case 1 => 0xe8c7b756
    case 2 => 0x242070db
    case 3 => 0xc1bdceee
    case 4 => 0xf57c0faf
    case 5 => 0x4787c62a
    case 6 => 0xa8304613
    case 7 => 0xfd469501
    case 8 => 0x698098d8
    case 9 => 0x8b44f7af
    case 10 => 0xffff5bb1
    case 11 => 0x895cd7be
    case 12 => 0x6b901122
    case 13 => 0xfd987193
    case 14 => 0xa679438e
    case _ => 0x49b40821
  }

  function Sines1(j: nat): bv32 {
    match j
    case 0 => 0xf61e2562
    case 1 => 0xc040b340
    case 2 => 0x265e5a51
    case 3 => 0xe9b6c7aa
    case 4 => 0xd62f105d
    case 5 => 0x02441453
    case 6 => 0xd8a1e681
    case 7 => 0xe7d3fbc8
    case 8 => 0x21e1cde6
    case 9 => 0xc33707d6
    case 10 => 0xf4d50d87
    case 11 => 0x455a14ed
    case 12 => 0xa9e3e905
    case 13 => 0xfcefa3f8
    case 14 => 0x676f02d9
    case _ => 0x8d2a4c8a
  }

  function Sines2(j: nat): bv32 {
    match j
    case 0 => 0xfffa3942
    case 1 => 0x8771f681
    case 2 => 0x6d9d6122
    case 3 => 0xfde5380c
    case 4 => 0xa4beea44
    case 5 => 0x4bdecfa9
    case 6 => 0xf6bb4b60
    case 7 => 0xbebfbc70
    case 8 => 0x289b7ec6
    case 9 => 0xeaa127fa
    case 10 => 0xd4ef3085
    case 11 => 0x04881d05
    case 12 => 0xd9d4d039
    case 13 => 0xe6db99e5
    case 14 => 0x1fa27cf8
    case _ => 0xc4ac5665
  }

  function Sines3(j: nat): bv32 {
    match j
    case 0 => 0xf4292244
    case 1 => 0x432aff97
    case 2 => 0xab9423a7
    case 3 => 0xfc93a039
    case 4 => 0x655b59c3
    case 5 => 0x8f0ccc92
    case 6 => 0xffeff47d
    case 7 => 0x85845dd1
    case 8 => 0x6fa87e4f
    case 9 => 0xfe2ce6e0
    case 10 => 0xa3014314
    case 11 => 0x4e0811a1
    case 12 => 0xf7537e82
    case 13 => 0xbd3af235
    case 14 => 0x2ad7d2bb
    case _ => 0xeb86d391
  }

  function RotateLeft(x: bv32, s: nat): bv32
    requires s < 32
  {
    (x << s) | (x >> (32 - s))
  }

  /** Four bytes as a word, the least significant byte first. */
  function Word(b0: bv8, b1: bv8, b2: bv8, b3: bv8): bv32 {
    (b0 as bv32) + (b1 as bv32) * 0x100 + (b2 as bv32) * 0x1_0000 + (b3 as bv32) * 0x100_0000
  }

  function X(block: Bytes, k: nat): bv32
    requires |block| == 64 && k < 16
  {
    Word(block[4 * k], block[4 * k + 1], block[4 * k + 2], block[4 * k + 3])
  }

  /** The four registers, in the order in which the next operation names them. */
  datatype Vars = Vars(a: bv32, b: bv32, c: bv32, d: bv32)

  /** a = b + ((a + f(b, c, d) + X[k] + T[i]) <<< s) */
  function Renewed(f: bv32, a: bv32, b: bv32, x: bv32, t: bv32, s: nat): bv32
    requires s < 32
  {
    Words.Plus(b, RotateLeft(Words.Sum4(a, f, x, t), s))
  }

  function Operation(v: Vars, i: nat, x: bv32): Vars {
    Vars(v.d, Renewed(Mixed(i, v.b, v.c, v.d), v.a, v.b, x, T(i), Shift(i)), v.b, v.c)
  }

  function Operations(v: Vars, block: Bytes, n: nat): Vars
    requires |block| == 64
  {
    if n == 0 then v else Operation(Operations(v, block, n - 1), n - 1, X(block, Index(n - 1)))
  }

  /** One block. */
  function Compress(v: Vars, block: Bytes): Vars
    requires |block| == 64
  {
    var w := Operations(v, block, 64);
    Vars(Words.Plus(v.a, w.a), Words.Plus(v.b, w.b), Words.Plus(v.c, w.c), Words.Plus(v.d, w.d))
  }

  const INITIAL := Vars(0x67452301, 0xefcdab89, 0x98badcfe, 0x10325476)

  /** All blocks of a message of whole blocks. */
  function HashBlocks(m: Bytes): Vars
    requires |m| % 64 == 0
  {
    if m == [] then INITIAL else Compress(HashBlocks(m[..|m| - 64]), m[|m| - 64..])
  }

  /** Hashing one block more. */
  lemma HashBlocksNext(m: Bytes, done: nat)
    requires done % 64 == 0 && done + 64 <= |m|
    ensures HashBlocks(m[..done + 64]) == Compress(HashBlocks(m[..done]), m[done..done + 64])
  {
    var n := m[..done + 64];
    assert n[..|n| - 64] == m[..done] && n[|n| - 64..] == m[done..done + 64];
  }

  /** The k low-order bytes of n, the least significant first. */
  function LittleEndian(n: nat, k: nat): (b: Bytes)
    ensures |b| == k
  {
    if k == 0 then [] else [Words.Octet(n)] + LittleEndian(n / 256, k - 1)
  }

  /** The number that bytes are, the least significant first. */
  function LittleEndianValue(b: Bytes): nat {
    if b == [] then 0 else b[0] as nat + 256 * LittleEndianValue(b[1..])
  }

  /** The bytes are those of n, as far as k of them go. */
  lemma {:induction false} LittleEndianIs(n: nat, k: nat)
    ensures LittleEndianValue(LittleEndian(n, k)) == n % Words.Power256(k)
  {
    hide Words.Octet;
    if k > 0 {
      var b := LittleEndian(n, k);
      assert b[1..] == LittleEndian(n / 256, k - 1) && b[0] == Words.Octet(n);
      LittleEndianIs(n / 256, k - 1);
      Words.OctetIs(n);
      Words.LowDigit(n, Words.Power256(k - 1));
    }
  }

  /** What is appended to n bytes: a 1 bit, 0 bits, and the low 64 bits of the length in bits. */
  function Padding(n: nat): Bytes {
    [0x80] + Words.Zeros((55 - n) % 64) + LittleEndian(8 * n % 0x1_0000_0000_0000_0000, 8)
  }

  function Pad(m: Bytes): (p: Bytes)
    ensures |p| % 64 == 0
  {
    Words.PaddedLength(|m|);
    m + Padding(|m|)
  }

  function Digest(v: Vars): Bytes {
    LittleEndian(v.a as nat, 4) + LittleEndian(v.b as nat, 4)
    + LittleEndian(v.c as nat, 4) + LittleEndian(v.d as nat, 4)
  }

  function MessageDigest(m: Bytes): Bytes {
    Digest(HashBlocks(Pad(m)))
  }
}
