/**
 The SHA-256 of mkhash: a compression loop over a rotating state array, and a context that
 takes a message in pieces of any size.
 */
module Sha256 {
  import Spec = Sha256Spec

  type Bytes = Spec.Bytes

  // ---------------------------------------------------------------- words and bytes

  function Be16Dec(b0: bv8, b1: bv8): bv16 {
    ((b0 as bv16) << 8) | (b1 as bv16)
  }

  function Be32Dec(b0: bv8, b1: bv8, b2: bv8, b3: bv8): (w: bv32)
    ensures w == Spec.Word(b0, b1, b2, b3)
  {
    ((Be16Dec(b0, b1) as bv32) << 16) | (Be16Dec(b2, b3) as bv32)
  }

  // ---------------------------------------------------------------- the rewritten functions

  lemma ChRewritten(x: bv32, y: bv32, z: bv32)
    ensures (x & (y ^ z)) ^ z == (x & y) ^ (!x & z)
  {
  }

  lemma MajRewritten(x: bv32, y: bv32, z: bv32)
    ensures (x & (y | z)) | (y & z) == (x & y) ^ (x & z) ^ (y & z)
  {
  }

  function Ch(x: bv32, y: bv32, z: bv32): (r: bv32)
    ensures r == Spec.Ch(x, y, z)
  {
    ChRewritten(x, y, z);
    (x & (y ^ z)) ^ z
  }

  function Maj(x: bv32, y: bv32, z: bv32): (r: bv32)
    ensures r == Spec.Maj(x, y, z)
  {
    MajRewritten(x, y, z);
    (x & (y | z)) | (y & z)
  }

  function S0(x: bv32): (r: bv32)
    ensures r == Spec.BigSigma0(x)
  {
    ((x >> 2) | (x << 30)) ^ ((x >> 13) | (x << 19)) ^ ((x >> 22) | (x << 10))
  }

  function S1(x: bv32): (r: bv32)
    ensures r == Spec.BigSigma1(x)
  {
    ((x >> 6) | (x << 26)) ^ ((x >> 11) | (x << 21)) ^ ((x >> 25) | (x << 7))
  }

  function s0(x: bv32): (r: bv32)
    ensures r == Spec.SmallSigma0(x)
  {
    ((x >> 7) | (x << 25)) ^ ((x >> 18) | (x << 14)) ^ (x >> 3)
  }

  function s1(x: bv32): (r: bv32)
    ensures r == Spec.SmallSigma1(x)
  {
    ((x >> 17) | (x << 15)) ^ ((x >> 19) | (x << 13)) ^ (x >> 10)
  }

  // ---------------------------------------------------------------- SHA256_Transform

  /** The round constants of the program. */
  const K: seq<bv32> :=
    [0x428a2f98, 0x71374491, 0xb5c0fbcf, 0xe9b5dba5, 0x3956c25b, 0x59f111f1, 0x923f82a4, 0xab1c5ed5]
    + [0xd807aa98, 0x12835b01, 0x243185be, 0x550c7dc3, 0x72be5d74, 0x80deb1fe, 0x9bdc06a7, 0xc19bf174]
    + [0xe49b69c1, 0xefbe4786, 0x0fc19dc6, 0x240ca1cc, 0x2de92c6f, 0x4a7484aa, 0x5cb0a9dc, 0x76f988da]
    + [0x983e5152, 0xa831c66d, 0xb00327c8, 0xbf597fc7, 0xc6e00bf3, 0xd5a79147, 0x06ca6351, 0x14292967]
    + [0x27b70a85, 0x2e1b2138, 0x4d2c6dfc, 0x53380d13, 0x650a7354, 0x766a0abb, 0x81c2c92e, 0x92722c85]
    + [0xa2bfe8a1, 0xa81a664b, 0xc24b8b70, 0xc76c51a3, 0xd192e819, 0xd6990624, 0xf40e3585, 0x106aa070]
    + [0x19a4c116, 0x1e376c08, 0x2748774c, 0x34b0bcb5, 0x391c0cb3, 0x4ed8aa4a, 0x5b9cca4f, 0x682e6ff3]
    + [0x748f82ee, 0x78a5636f, 0x84c87814, 0x8cc70208, 0x90befffa, 0xa4506ceb, 0xbef9a3f7, 0xc67178f2]

  /** They are those of the standard. */
  lemma ConstantsAgree()
    ensures K == Spec.K
  {
  }

  /** Where round i finds the k-th of its eight variables. */
  function Index(i: nat, k: nat): (n: nat)
    requires i <= 16 && k < 8
    ensures n < 8
  {
    (64 + k - i) % 8
  }

  /** The working variables as round i sees them in the rotating array. */
  ghost function View(S: seq<bv32>, i: nat): Spec.Vars
    requires |S| == 8 && i <= 16
  {
    Spec.Vars(S[Index(i, 0)], S[Index(i, 1)], S[Index(i, 2)], S[Index(i, 3)],
              S[Index(i, 4)], S[Index(i, 5)], S[Index(i, 6)], S[Index(i, 7)])
  }

  /** One step of a rotation: what was in place k is then in place k + 1. */
  lemma IndexRotates(i: nat)
    requires i < 16
    ensures forall k :: 0 <= k < 7 ==> Index(i + 1, k + 1) == Index(i, k)
    ensures Index(i + 1, 0) == Index(i, 7)
    ensures forall j, k :: 0 <= j < k < 8 ==> Index(i, j) != Index(i, k)
  {
  }

  function Add(x: bv32, y: bv32): (r: bv32)
    ensures r == Spec.Plus(x, y)
  {
    x + y
  }

  /** h += s + c + k, where k is W + K */
  function FirstSum(h: bv32, s: bv32, c: bv32, w: bv32, k: bv32): (r: bv32)
    ensures r == Spec.Sum5(h, s, c, k, w)
  {
    h + (s + c + (w + k))
  }

  /** A round as RND writes it: h += ..., d += h, h += ... */
  lemma RoundByUpdates(v: Spec.Vars, w: bv32, k: bv32)
    ensures var t := FirstSum(v.h, S1(v.e), Ch(v.e, v.f, v.g), w, k);
            Spec.Round(v, w, k)
            == Spec.Vars(Spec.Plus(t, Spec.Plus(S0(v.a), Maj(v.a, v.b, v.c))), v.a, v.b, v.c,
                         Spec.Plus(v.d, t), v.e, v.f, v.g)
  {
    hide FirstSum, Spec.Sum5, Spec.Plus, S0, S1, Ch, Maj, Spec.BigSigma0, Spec.BigSigma1, Spec.Ch, Spec.Maj;
  }

  /** RNDr: a round that changes two places of the array instead of moving eight values. */
  method RoundInPlace(S: array<bv32>, i: nat, w: bv32, k: bv32)
    requires S.Length == 8 && i < 16
    modifies S
    ensures View(S[..], i + 1) == Spec.Round(View(old(S[..]), i), w, k)
  {
    hide Add, FirstSum, Spec.Plus, S0, S1, Ch, Maj, Spec.Round, Index;
    IndexRotates(i);
    RoundByUpdates(View(S[..], i), w, k);
    var d, e, f, g, h := Index(i, 3), S[Index(i, 4)], S[Index(i, 5)], S[Index(i, 6)], Index(i, 7);
    S[h] := FirstSum(S[h], S1(e), Ch(e, f, g), w, k);
    S[d] := Add(S[d], S[h]);
    S[h] := Add(S[h], Add(S0(S[Index(i, 0)]), Maj(S[Index(i, 0)], S[Index(i, 1)], S[Index(i, 2)])));
  }

  /** SHA256_Transform: the compression of one block. */
  method Transform(state: array<bv32>, block: Bytes)
    requires state.Length == 8 && |block| == 64
    modifies state
    ensures state[..] == Spec.Compress(old(state[..]), block)
  {
    hide Spec.Rounds, Spec.Plus;
    var S := Mix(state, block);
    AddVars(state, S);
  }

  /** The message schedule and the 64 rounds. */
  method Mix(state: array<bv32>, block: Bytes) returns (S: array<bv32>)
    requires state.Length == 8 && |block| == 64
    ensures fresh(S) && S.Length == 8
    ensures Spec.ToVars(S[..]) == Spec.Rounds(Spec.ToVars(state[..]), block, 64)
  {
    hide Spec.Schedule, Spec.Rounds, View;
    var W := new bv32[64];
    DecodeBlock(W, block);
    S := new bv32[8];
    forall k | 0 <= k < 8 {
      S[k] := state[k];
    }
    assert S[..] == state[..];
    ghost var v0 := Spec.ToVars(state[..]);
    ViewIsPlain(S[..]);
    NoRounds(v0, block);
    var i := 0;
    while true
      invariant i == 0 || i == 16 || i == 32 || i == 48
      invariant forall t :: 0 <= t < i + 16 ==> W[t] == Spec.Schedule(block, t)
      invariant View(S[..], 0) == Spec.Rounds(v0, block, i)
      decreases 48 - i
    {
      SixteenRounds(S, W, i, v0, block);
      if i == 48 {
        break;
      }
      ExtendSchedule(W, block, i);
      i := i + 16;
    }
    ViewIsPlain(S[..]);
  }

  lemma NoRounds(v: Spec.Vars, block: Bytes)
    requires |block| == 64
    ensures Spec.Rounds(v, block, 0) == v
  {
  }

  /** The sixteen RNDr lines. */
  method SixteenRounds(S: array<bv32>, W: array<bv32>, i: nat, ghost v0: Spec.Vars, ghost block: Bytes)
    requires S.Length == 8 && W.Length == 64 && S != W && |block| == 64 && i <= 48
    requires forall t :: 0 <= t < i + 16 ==> W[t] == Spec.Schedule(block, t)
    requires View(S[..], 0) == Spec.Rounds(v0, block, i)
    modifies S
    ensures View(S[..], 0) == Spec.Rounds(v0, block, i + 16)
  {
    hide Spec.Schedule, Spec.Round, View;
    ConstantsAgree();
    for j := 0 to 16
      invariant View(S[..], j) == Spec.Rounds(v0, block, i + j)
    {
      RoundInPlace(S, j, W[i + j], K[i + j]);
    }
    ViewIsPlain(S[..]);
  }

  /** The rotation is back at its start after no round and after sixteen. */
  lemma ViewIsPlain(S: seq<bv32>)
    requires |S| == 8
    ensures View(S, 0) == Spec.ToVars(S) && View(S, 16) == Spec.ToVars(S)
  {
  }

  /** be32dec_vect */
  method DecodeBlock(W: array<bv32>, block: Bytes)
    requires W.Length == 64 && |block| == 64
    modifies W
    ensures forall t :: 0 <= t < 16 ==> W[t] == Spec.Schedule(block, t)
  {
    for t := 0 to 16
      invariant forall u :: 0 <= u < t ==> W[u] == Spec.Schedule(block, u)
    {
      W[t] := Be32Dec(block[4 * t], block[4 * t + 1], block[4 * t + 2], block[4 * t + 3]);
    }
  }

  function ScheduleSum(a: bv32, b: bv32, c: bv32, d: bv32): (r: bv32)
    ensures r == Spec.Sum4(a, b, c, d)
  {
    a + b + c + d
  }

  /** The sixteen MSCH lines for the words after the ones just used. */
  method ExtendSchedule(W: array<bv32>, block: Bytes, i: nat)
    requires W.Length == 64 && |block| == 64 && i <= 32
    requires forall t :: 0 <= t < i + 16 ==> W[t] == Spec.Schedule(block, t)
    modifies W
    ensures forall t :: 0 <= t < i + 32 ==> W[t] == Spec.Schedule(block, t)
  {
    hide s0, s1, ScheduleSum, Spec.Sum4, Spec.SmallSigma0, Spec.SmallSigma1;
    for j := 0 to 16
      invariant forall t :: 0 <= t < i + 16 + j ==> W[t] == Spec.Schedule(block, t)
    {
      W[i + j + 16] := ScheduleSum(s1(W[i + j + 14]), W[i + j + 9], s0(W[i + j + 1]), W[i + j]);
    }
  }

  /** state[i] += S[i] */
  method AddVars(state: array<bv32>, S: array<bv32>)
    requires state.Length == 8 && S.Length == 8 && state != S
    modifies state
    ensures forall k :: 0 <= k < 8 ==> state[k] == Spec.Plus(old(state[k]), S[k])
  {
    hide Add, Spec.Plus;
    for i := 0 to 8
      invariant forall k :: 0 <= k < i ==> state[k] == Spec.Plus(old(state[k]), S[k])
      invariant forall k :: i <= k < 8 ==> state[k] == old(state[k])
    {
      state[i] := Add(state[i], S[i]);
    }
  }

  // ---------------------------------------------------------------- the context

  class Context {
    var state: array<bv32>
    var count: nat
    var buf: array<bv8>
    /** Everything hashed so far. */
    ghost var msg: Bytes

    /** Whole blocks are in the state, the rest is in the buffer, and the count is in bits. */
    ghost predicate Valid()
      reads this, state, buf
    {
      && state.Length == 8 && buf.Length == 64
      && count == 8 * |msg| % 0x1_0000_0000_0000_0000
      && var r := |msg| % 64;
         && state[..] == Spec.HashBlocks(msg[..|msg| - r])
         && buf[..r] == msg[|msg| - r..]
    }

    /** SHA256_Init */
    constructor ()
      ensures Valid() && msg == [] && fresh(state) && fresh(buf)
    {
      state := new bv32[] [0x6A09E667, 0xBB67AE85, 0x3C6EF372, 0xA54FF53A,
                           0x510E527F, 0x9B05688C, 0x1F83D9AB, 0x5BE0CD19];
      buf := new bv8[64];
      count := 0;
      msg := [];
      new;
      assert state[..] == Spec.H0;
    }

    /** The bytes in the buffer, from the bit count. */
    method Buffered() returns (r: nat)
      requires Valid()
      ensures r == |msg| % 64
    {
      r := (count / 8) % 64;
      BitsToBytes(|msg|);
    }

    /** SHA256_Update */
    method Update(src: Bytes)
      requires Valid()
      modifies this, state, buf
      ensures Valid() && state == old(state) && buf == old(buf)
      ensures msg == old(msg) + src
    {
      var r := Buffered();
      BitCountAdds(|msg|, |src|);
      count := (count + 8 * |src| % 0x1_0000_0000_0000_0000) % 0x1_0000_0000_0000_0000;
      if |src| < 64 - r {
        KeepBytes(src, r);
      } else {
        FillBlock(src, r);
      }
    }

    /** The case where no block is completed. */
    method KeepBytes(src: Bytes, r: nat)
      requires Started(src, r) && r + |src| < 64
      modifies this, buf
      ensures Valid() && state == old(state) && buf == old(buf)
      ensures msg == old(msg) + src
    {
      hide Spec.HashBlocks;
      forall i | 0 <= i < |src| {
        buf[r + i] := src[i];
      }
      FitsInBuffer(msg, src, r, buf[..]);
      msg := msg + src;
    }

    /** The case where the block in the buffer is completed first. */
    method FillBlock(src: Bytes, r: nat)
      requires Started(src, r) && r + |src| >= 64
      modifies this, state, buf
      ensures Valid() && state == old(state) && buf == old(buf)
      ensures msg == old(msg) + src
    {
      hide Spec.HashBlocks, Spec.Compress;
      forall i | 0 <= i < 64 - r {
        buf[r + i] := src[i];
      }
      var block := buf[..];
      ghost var done, before := |msg| - r, msg;
      FillsBuffer(msg, src, done, block);
      assert state[..] == Spec.HashBlocks(before[..done]);
      msg := msg + src;
      assert state[..] == Spec.HashBlocks(before[..done]);
      Transform(state, block);
      assert state[..] == Spec.Compress(Spec.HashBlocks(before[..done]), block);
      assert state[..] == Spec.HashBlocks(msg[..done + 64]);
      var rest := HashWhole(src[64 - r..], done + 64);
      forall i | 0 <= i < |rest| {
        buf[i] := rest[i];
      }
      assert buf[..|rest|] == rest;
    }

    /** Whole blocks go straight from the input into the state. */
    method HashWhole(src: Bytes, ghost from: nat) returns (rest: Bytes)
      requires state.Length == 8 && from % 64 == 0 && from <= |msg| && src == msg[from..]
      requires state[..] == Spec.HashBlocks(msg[..from])
      modifies state
      ensures |rest| == |msg| % 64 && rest == msg[|msg| - |rest|..]
      ensures state[..] == Spec.HashBlocks(msg[..|msg| - |rest|])
    {
      hide Spec.HashBlocks, Spec.Compress;
      rest := src;
      ghost var done := from;
      while |rest| >= 64
        invariant done % 64 == 0 && |rest| == |msg| - done && rest == msg[done..]
        invariant state[..] == Spec.HashBlocks(msg[..done])
      {
        Spec.HashBlocksNext(msg, done);
        assert rest[..64] == msg[done..done + 64] && rest[64..] == msg[done + 64..];
        Transform(state, rest[..64]);
        rest := rest[64..];
        done := done + 64;
      }
    }

    /** SHA256_Pad */
    method Pad()
      requires Valid()
      modifies state, buf
      ensures state[..] == Spec.HashBlocks(Spec.Pad(msg))
    {
      hide Spec.HashBlocks, Spec.Pad, Spec.BigEndian, Be64Enc;
      var r := Buffered();
      Be64EncIs(count);
      if r < 56 {
        PadInBlock(r);
      } else {
        PadTwoBlocks(r);
      }
    }

    method PadInBlock(r: nat)
      requires Valid() && r == |msg| % 64 && r < 56
      requires Be64Enc(count) == Spec.BigEndian(count, 8)
      modifies state, buf
      ensures state[..] == Spec.HashBlocks(Spec.Pad(msg))
    {
      hide Spec.HashBlocks, Spec.Compress, Spec.Padding, Spec.BigEndian, Be64Enc;
      PaddingShort(|msg|, r);
      StoreAt(buf, r, PAD[..56 - r]);
      StoreAt(buf, 56, Be64Enc(count));
      var block := buf[..];
      ghost var done := |msg| - r;
      assert block == msg[done..] + Spec.Padding(|msg|);
      PadOne(msg, done, block);
      Transform(state, block);
    }

    method PadTwoBlocks(r: nat)
      requires Valid() && r == |msg| % 64 && r >= 56
      requires Be64Enc(count) == Spec.BigEndian(count, 8)
      modifies state, buf
      ensures state[..] == Spec.HashBlocks(Spec.Pad(msg))
    {
      hide Spec.HashBlocks, Spec.Compress, Spec.Padding, Spec.BigEndian, Be64Enc;
      PaddingLong(|msg|, r);
      ghost var done := |msg| - r;
      StoreAt(buf, r, PAD[..64 - r]);
      var block := buf[..];
      assert block == msg[done..] + PAD[..64 - r];
      Transform(state, block);
      StoreAt(buf, 0, Spec.Zeros(56));
      StoreAt(buf, 56, Be64Enc(count));
      var last := buf[..];
      assert last == Spec.Zeros(56) + Be64Enc(count);
      assert block + last == msg[done..] + Spec.Padding(|msg|);
      PadTwo(msg, done, block, last);
      Transform(state, last);
    }

    /** SHA256_Final: the digest of everything hashed; the context is cleared. */
    method Final() returns (digest: Bytes)
      requires Valid()
      modifies this, state, buf
      ensures digest == Spec.Sha256(old(msg))
      ensures count == 0 && state == old(state) && buf == old(buf)
      ensures (forall i :: 0 <= i < 8 ==> state[i] == 0) && (forall i :: 0 <= i < 64 ==> buf[i] == 0)
    {
      hide Spec.HashBlocks, Spec.Digest, Spec.Pad;
      Pad();
      digest := EncodeState(state);
      count := 0;
      forall i | 0 <= i < 8 {
        state[i] := 0;
      }
      forall i | 0 <= i < 64 {
        buf[i] := 0;
      }
    }

    /** The count is already that of the new message, the rest is still for the old one. */
    ghost predicate Started(src: Bytes, r: nat)
      reads this, state, buf
    {
      && state.Length == 8 && buf.Length == 64
      && count == 8 * |msg + src| % 0x1_0000_0000_0000_0000
      && r == |msg| % 64
      && state[..] == Spec.HashBlocks(msg[..|msg| - r])
      && buf[..r] == msg[|msg| - r..]
    }
  }

  lemma BitsToBytes(n: nat)
    ensures 8 * n % 0x1_0000_0000_0000_0000 / 8 % 64 == n % 64
  {
    var (q, m) := (n / 0x2000_0000_0000_0000, n % 0x2000_0000_0000_0000);
    Spec.Remainder(8 * n, 0x1_0000_0000_0000_0000, q, 8 * m);
    Spec.Remainder(n, 64, 0x80_0000_0000_0000 * q + m / 64, m % 64);
  }

  lemma BitCountAdds(a: nat, b: nat)
    ensures (8 * a % 0x1_0000_0000_0000_0000 + 8 * b % 0x1_0000_0000_0000_0000) % 0x1_0000_0000_0000_0000
            == 8 * (a + b) % 0x1_0000_0000_0000_0000
  {
  }

  /** The new bytes are few enough to stay in the buffer. */
  lemma FitsInBuffer(m: Bytes, src: Bytes, r: nat, buf: Bytes)
    requires |buf| == 64 && r == |m| % 64 && r + |src| < 64
    requires buf[..r] == m[|m| - r..] && buf[r..r + |src|] == src
    ensures |m + src| % 64 == r + |src| && buf[..r + |src|] == (m + src)[|m| - r..]
    ensures (m + src)[..|m| - r] == m[..|m| - r]
  {
  }

  /** The new bytes complete the block in the buffer. */
  lemma FillsBuffer(m: Bytes, src: Bytes, done: nat, buf: Bytes)
    requires |buf| == 64 && done % 64 == 0 && done <= |m| < done + 64 <= |m| + |src|
    requires buf[..|m| - done] == m[done..] && buf[|m| - done..] == src[..64 - (|m| - done)]
    ensures (m + src)[done + 64..] == src[64 - (|m| - done)..]
    ensures Spec.HashBlocks((m + src)[..done + 64]) == Spec.Compress(Spec.HashBlocks(m[..done]), buf)
  {
    var n := m + src;
    assert buf == buf[..|m| - done] + buf[|m| - done..];
    assert n[..done] == m[..done] && buf == n[done..done + 64];
    Spec.HashBlocksNext(n, done);
  }

  // ---------------------------------------------------------------- padding

  const PAD: Bytes := [0x80] + Spec.Zeros(63)

  method StoreAt(a: array<bv8>, at: nat, b: Bytes)
    requires at + |b| <= a.Length
    modifies a
    ensures a[..] == old(a[..at]) + b + old(a[at + |b|..])
  {
    forall i | 0 <= i < |b| {
      a[at + i] := b[i];
    }
  }

  function Be32Enc(u: nat): (b: Bytes)
    requires u < 0x1_0000_0000
    ensures |b| == 4
  {
    [Spec.Octet(u / 0x100_0000), Spec.Octet(u / 0x1_0000), Spec.Octet(u / 0x100), Spec.Octet(u)]
  }

  function Be64Enc(u: nat): (b: Bytes)
    requires u < 0x1_0000_0000_0000_0000
    ensures |b| == 8
  {
    Be32Enc(u / 0x1_0000_0000) + Be32Enc(u % 0x1_0000_0000)
  }

  lemma Be32EncIs(u: nat)
    requires u < 0x1_0000_0000
    ensures Be32Enc(u) == Spec.BigEndian(u, 4)
  {
    hide Spec.Octet;
    BigEndianFour(u, 0);
    assert Spec.BigEndian(u / 0x1_0000_0000, 0) == [];
  }

  lemma Shifts(u: nat)
    ensures u / 256 / 256 == u / 0x1_0000 && u / 0x1_0000 / 256 == u / 0x100_0000
    ensures u / 0x100_0000 / 256 == u / 0x1_0000_0000
  {
  }

  /** Four bytes off the low end. */
  lemma BigEndianFour(u: nat, k: nat)
    ensures Spec.BigEndian(u, k + 4)
            == Spec.BigEndian(u / 0x1_0000_0000, k)
               + [Spec.Octet(u / 0x100_0000), Spec.Octet(u / 0x1_0000), Spec.Octet(u / 0x100), Spec.Octet(u)]
  {
    hide Spec.Octet;
    Shifts(u);
    assert Spec.BigEndian(u / 0x100_0000, k + 1) == Spec.BigEndian(u / 0x1_0000_0000, k) + [Spec.Octet(u / 0x100_0000)];
    assert Spec.BigEndian(u / 0x1_0000, k + 2) == Spec.BigEndian(u / 0x100_0000, k + 1) + [Spec.Octet(u / 0x1_0000)];
    assert Spec.BigEndian(u / 0x100, k + 3) == Spec.BigEndian(u / 0x1_0000, k + 2) + [Spec.Octet(u / 0x100)];
  }

  lemma Be64EncIs(u: nat)
    requires u < 0x1_0000_0000_0000_0000
    ensures Be64Enc(u) == Spec.BigEndian(u, 8)
  {
    hide Spec.BigEndian, Spec.Octet;
    var high, low := u / 0x1_0000_0000, u % 0x1_0000_0000;
    Be32EncIs(high);
    BigEndianFour(u, 4);
    OctetIgnores(u / 0x100_0000, high, low / 0x100_0000);
    OctetIgnores(u / 0x1_0000, high * 0x100, low / 0x1_0000);
    OctetIgnores(u / 0x100, high * 0x1_0000, low / 0x100);
    OctetIgnores(u, high * 0x100_0000, low);
  }

  lemma OctetIgnores(a: nat, k: nat, b: nat)
    requires a == 256 * k + b
    ensures Spec.Octet(a) == Spec.Octet(b)
  {
    SameOctet(a, b);
  }

  lemma SameOctet(a: nat, b: nat)
    requires a % 256 == b % 256
    ensures Spec.Octet(a) == Spec.Octet(b)
  {
  }

  lemma PaddingShort(n: nat, r: nat)
    requires r == n % 64 && r < 56
    ensures Spec.Padding(n) == PAD[..56 - r] + Spec.BigEndian(8 * n % 0x1_0000_0000_0000_0000, 8)
    ensures |Spec.Padding(n)| == 64 - r
  {
    hide Spec.BigEndian;
    assert (55 - n) % 64 == 55 - r;
    assert [0x80] + Spec.Zeros(55 - r) == PAD[..56 - r];
  }

  lemma PaddingLong(n: nat, r: nat)
    requires r == n % 64 && r >= 56
    ensures Spec.Padding(n)
            == PAD[..64 - r] + (Spec.Zeros(56) + Spec.BigEndian(8 * n % 0x1_0000_0000_0000_0000, 8))
    ensures |Spec.Padding(n)| == 128 - r
  {
    hide Spec.BigEndian;
    assert (55 - n) % 64 == 119 - r;
    assert [0x80] + Spec.Zeros(119 - r) == PAD[..64 - r] + Spec.Zeros(56);
  }

  /** Up to 55 bytes in the last block leave room for the padding. */
  lemma PadOne(m: Bytes, done: nat, block: Bytes)
    requires done % 64 == 0 && done <= |m|
    requires block == m[done..] + Spec.Padding(|m|) && |block| == 64
    ensures Spec.HashBlocks(Spec.Pad(m)) == Spec.Compress(Spec.HashBlocks(m[..done]), block)
  {
    hide Spec.HashBlocks, Spec.Compress, Spec.Padding;
    var p := Spec.Pad(m);
    assert p[..done] == m[..done] && p[done..done + 64] == block && p[..done + 64] == p;
    Spec.HashBlocksNext(p, done);
  }

  /** More than that take a second block. */
  lemma PadTwo(m: Bytes, done: nat, block: Bytes, last: Bytes)
    requires done % 64 == 0 && done <= |m| && |block| == |last| == 64
    requires block + last == m[done..] + Spec.Padding(|m|)
    ensures Spec.HashBlocks(Spec.Pad(m)) == Spec.Compress(Spec.Compress(Spec.HashBlocks(m[..done]), block), last)
  {
    hide Spec.HashBlocks, Spec.Compress, Spec.Padding;
    var p := Spec.Pad(m);
    assert p == m[..done] + (block + last);
    assert p[..done] == m[..done] && p[done..done + 64] == block;
    assert p[done + 64..done + 128] == last && p[..done + 128] == p;
    Spec.HashBlocksNext(p, done);
    Spec.HashBlocksNext(p, done + 64);
  }

  /** be32enc_vect of the state */
  method EncodeState(state: array<bv32>) returns (digest: Bytes)
    requires state.Length == 8
    ensures digest == Spec.Digest(state[..], 8)
  {
    hide Spec.BigEndian;
    digest := [];
    var i := 0;
    while i < 8
      invariant 0 <= i <= 8 && digest == Spec.Digest(state[..], i)
    {
      Be32EncIs(state[i] as nat);
      digest := digest + Be32Enc(state[i] as nat);
      i := i + 1;
    }
  }

  // ---------------------------------------------------------------- sha256_hash

  function Joined(chunks: seq<Bytes>): Bytes {
    if chunks == [] then [] else Joined(chunks[..|chunks| - 1]) + chunks[|chunks| - 1]
  }

  /** However the input arrives, the digest is that of the whole. */
  method HashFile(chunks: seq<Bytes>) returns (digest: Bytes)
    ensures digest == Spec.Sha256(Joined(chunks))
  {
    var ctx := new Context();
    var i := 0;
    while i < |chunks|
      invariant 0 <= i <= |chunks| && ctx.Valid() && fresh(ctx) && fresh(ctx.state) && fresh(ctx.buf)
      invariant ctx.msg == Joined(chunks[..i])
    {
      ctx.Update(chunks[i]);
      assert chunks[..i + 1][..i] == chunks[..i];
      i := i + 1;
    }
    assert chunks[..|chunks|] == chunks;
    digest := ctx.Final();
  }
}
