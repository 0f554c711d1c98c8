/**
 The MD5 of mkhash: the unrolled block function, and a context that takes a message in pieces
 of any size and counts its bytes in two words.
 */
module Md5 {
  import Spec = Md5Spec
  import Words = Sha256Spec
  import Sha256

  type Bytes = Spec.Bytes

  // ---------------------------------------------------------------- the rewritten functions

  lemma FRewritten(x: bv32, y: bv32, z: bv32)
    ensures z ^ (x & (y ^ z)) == (x & y) | (!x & z)
  {
  }

  lemma GRewritten(x: bv32, y: bv32, z: bv32)
    ensures y ^ (z & (x ^ y)) == (x & z) | (y & !z)
  {
  }

  function F(x: bv32, y: bv32, z: bv32): (r: bv32)
    ensures r == Spec.F(x, y, z)
  {
    FRewritten(x, y, z);
    z ^ (x & (y ^ z))
  }

  function G(x: bv32, y: bv32, z: bv32): (r: bv32)
    ensures r == Spec.G(x, y, z)
  {
    GRewritten(x, y, z);
    y ^ (z & (x ^ y))
  }

  function H(x: bv32, y: bv32, z: bv32): (r: bv32)
    ensures r == Spec.H(x, y, z)
  {
    (x ^ y) ^ z
  }

  function H2(x: bv32, y: bv32, z: bv32): (r: bv32)
    ensures r == Spec.H(x, y, z)
  {
    x ^ (y ^ z)
  }

  function I(x: bv32, y: bv32, z: bv32): (r: bv32)
    ensures r == Spec.I(x, y, z)
  {
    y ^ (x | !z)
  }

  /** a += f + x + t */
  function Summed(a: bv32, f: bv32, x: bv32, t: bv32): (r: bv32)
    ensures r == Words.Sum4(a, f, x, t)
  {
    a + (f + x + t)
  }

  function Added(a: bv32, b: bv32): (r: bv32)
    ensures r == Words.Plus(b, a)
  {
    a + b
  }

  function Rotated(a: bv32, s: nat): (r: bv32)
    requires s < 32
    ensures r == Spec.RotateLeft(a, s)
  {
    (a << s) | (a >> (32 - s))
  }

  /** STEP: the new value of its first register. */
  function Step(f: bv32, a: bv32, b: bv32, x: bv32, t: bv32, s: nat): (r: bv32)
    requires s < 32
    ensures r == Spec.Renewed(f, a, b, x, t, s)
  {
    hide Words.Plus, Words.Sum4, Summed, Added, Rotated, Spec.RotateLeft;
    Added(Rotated(Summed(a, f, x, t), s), b)
  }

  /** SET: four bytes of the block, the least significant first. */
  function Get(block: Bytes, n: nat): (w: bv32)
    requires |block| == 64 && n < 16
    ensures w == Spec.X(block, n)
  {
    (block[n * 4] as bv32) | ((block[n * 4 + 1] as bv32) << 8) | ((block[n * 4 + 2] as bv32) << 16)
    | ((block[n * 4 + 3] as bv32) << 24)
  }

  // ---------------------------------------------------------------- MD5_body

  /** The function that STEP i names. */
  function Named(i: nat, x: bv32, y: bv32, z: bv32): (r: bv32)
    ensures r == Spec.Mixed(i, x, y, z)
  {
    hide Spec.F, Spec.G, Spec.H, Spec.I, F, G, H, H2, I;
    if i < 16 then F(x, y, z)
    else if i < 32 then G(x, y, z)
    else if i < 48 then (if i % 2 == 0 then H(x, y, z) else H2(x, y, z))
    else I(x, y, z)
  }

  /** One operation more, in terms of what was reached before it. */
  lemma Next(v: Spec.Vars, block: Bytes, i: nat, w: Spec.Vars)
    requires |block| == 64 && w == Spec.Operations(v, block, i)
    ensures Spec.Operations(v, block, i + 1) == Spec.Operation(w, i, Spec.X(block, Spec.Index(i)))
  {
    hide Spec.Operation, Spec.X, Spec.Index;
  }

  /** The constants that four STEP lines name are those of operations i to i + 3. */
  predicate Constants(i: nat, k: seq<nat>, t: seq<bv32>, s: seq<nat>) {
    && |k| == |t| == |s| == 4
    && k[0] == Spec.Index(i) && k[1] == Spec.Index(i + 1) && k[2] == Spec.Index(i + 2) && k[3] == Spec.Index(i + 3)
    && t[0] == Spec.T(i) && t[1] == Spec.T(i + 1) && t[2] == Spec.T(i + 2) && t[3] == Spec.T(i + 3)
    && s[0] == Spec.Shift(i) && s[1] == Spec.Shift(i + 1) && s[2] == Spec.Shift(i + 2) && s[3] == Spec.Shift(i + 3)
  }

  /** Four STEP lines: after them the registers are back in their order. */
  method FourSteps(v: Spec.Vars, block: Bytes, i: nat, k: seq<nat>, t: seq<bv32>, s: seq<nat>, ghost v0: Spec.Vars)
    returns (w: Spec.Vars)
    requires |block| == 64 && i <= 60 && Constants(i, k, t, s) && v == Spec.Operations(v0, block, i)
    ensures w == Spec.Operations(v0, block, i + 4)
  {
    hide Spec.Operations, Step, Get, Named, Spec.X, Spec.Renewed, Spec.Mixed, Spec.Index, Spec.T, Spec.Shift;
    ShiftsAreSmall(i);
    var a, b, c, d := v.a, v.b, v.c, v.d;
    Next(v0, block, i, Spec.Vars(a, b, c, d));
    a := Step(Named(i, b, c, d), a, b, Get(block, k[0]), t[0], s[0]);
    Next(v0, block, i + 1, Spec.Vars(d, a, b, c));
    d := Step(Named(i + 1, a, b, c), d, a, Get(block, k[1]), t[1], s[1]);
    Next(v0, block, i + 2, Spec.Vars(c, d, a, b));
    c := Step(Named(i + 2, d, a, b), c, d, Get(block, k[2]), t[2], s[2]);
    Next(v0, block, i + 3, Spec.Vars(b, c, d, a));
    b := Step(Named(i + 3, c, d, a), b, c, Get(block, k[3]), t[3], s[3]);
    w := Spec.Vars(a, b, c, d);
  }

  lemma ShiftsAreSmall(i: nat)
    ensures Spec.Shift(i) < 32 && Spec.Shift(i + 1) < 32 && Spec.Shift(i + 2) < 32 && Spec.Shift(i + 3) < 32
  {
  }

  /** The first eight STEP lines of round 1. */
  method FirstRound(v: Spec.Vars, block: Bytes, ghost v0: Spec.Vars) returns (w: Spec.Vars)
    requires |block| == 64 && v == Spec.Operations(v0, block, 0)
    ensures w == Spec.Operations(v0, block, 8)
  {
    hide Spec.Operations;
    w := FourSteps(v, block, 0, [0, 1, 2, 3], [0xd76aa478, 0xe8c7b756, 0x242070db, 0xc1bdceee],
                   [7, 12, 17, 22], v0);
    w := FourSteps(w, block, 4, [4, 5, 6, 7], [0xf57c0faf, 0x4787c62a, 0xa8304613, 0xfd469501],
                   [7, 12, 17, 22], v0);
  }

  /** The last eight STEP lines of round 1. */
  method FirstRoundEnd(v: Spec.Vars, block: Bytes, ghost v0: Spec.Vars) returns (w: Spec.Vars)
    requires |block| == 64 && v == Spec.Operations(v0, block, 8)
    ensures w == Spec.Operations(v0, block, 16)
  {
    hide Spec.Operations;
    w := FourSteps(v, block, 8, [8, 9, 10, 11], [0x698098d8, 0x8b44f7af, 0xffff5bb1, 0x895cd7be],
                   [7, 12, 17, 22], v0);
    w := FourSteps(w, block, 12, [12, 13, 14, 15], [0x6b901122, 0xfd987193, 0xa679438e, 0x49b40821],
                   [7, 12, 17, 22], v0);
  }

  /** The first eight STEP lines of round 2. */
  method SecondRound(v: Spec.Vars, block: Bytes, ghost v0: Spec.Vars) returns (w: Spec.Vars)
    requires |block| == 64 && v == Spec.Operations(v0, block, 16)
    ensures w == Spec.Operations(v0, block, 24)
  {
    hide Spec.Operations;
    w := FourSteps(v, block, 16, [1, 6, 11, 0], [0xf61e2562, 0xc040b340, 0x265e5a51, 0xe9b6c7aa],
                   [5, 9, 14, 20], v0);
    w := FourSteps(w, block, 20, [5, 10, 15, 4], [0xd62f105d, 0x02441453, 0xd8a1e681, 0xe7d3fbc8],
                   [5, 9, 14, 20], v0);
  }

  /** The last eight STEP lines of round 2. */
  method SecondRoundEnd(v: Spec.Vars, block: Bytes, ghost v0: Spec.Vars) returns (w: Spec.Vars)
    requires |block| == 64 && v == Spec.Operations(v0, block, 24)
    ensures w == Spec.Operations(v0, block, 32)
  {
    hide Spec.Operations;
    w := FourSteps(v, block, 24, [9, 14, 3, 8], [0x21e1cde6, 0xc33707d6, 0xf4d50d87, 0x455a14ed],
                   [5, 9, 14, 20], v0);
    w := FourSteps(w, block, 28, [13, 2, 7, 12], [0xa9e3e905, 0xfcefa3f8, 0x676f02d9, 0x8d2a4c8a],
                   [5, 9, 14, 20], v0);
  }

  /** The first eight STEP lines of round 3. */
  method ThirdRound(v: Spec.Vars, block: Bytes, ghost v0: Spec.Vars) returns (w: Spec.Vars)
    requires |block| == 64 && v == Spec.Operations(v0, block, 32)
    ensures w == Spec.Operations(v0, block, 40)
  {
    hide Spec.Operations;
    w := FourSteps(v, block, 32, [5, 8, 11, 14], [0xfffa3942, 0x8771f681, 0x6d9d6122, 0xfde5380c],
                   [4, 11, 16, 23], v0);
    w := FourSteps(w, block, 36, [1, 4, 7, 10], [0xa4beea44, 0x4bdecfa9, 0xf6bb4b60, 0xbebfbc70],
                   [4, 11, 16, 23], v0);
  }

  /** The last eight STEP lines of round 3. */
  method ThirdRoundEnd(v: Spec.Vars, block: Bytes, ghost v0: Spec.Vars) returns (w: Spec.Vars)
    requires |block| == 64 && v == Spec.Operations(v0, block, 40)
    ensures w == Spec.Operations(v0, block, 48)
  {
    hide Spec.Operations;
    w := FourSteps(v, block, 40, [13, 0, 3, 6], [0x289b7ec6, 0xeaa127fa, 0xd4ef3085, 0x04881d05],
                   [4, 11, 16, 23], v0);
    w := FourSteps(w, block, 44, [9, 12, 15, 2], [0xd9d4d039, 0xe6db99e5, 0x1fa27cf8, 0xc4ac5665],
                   [4, 11, 16, 23], v0);
  }

  /** The first eight STEP lines of round 4. */
  method FourthRound(v: Spec.Vars, block: Bytes, ghost v0: Spec.Vars) returns (w: Spec.Vars)
    requires |block| == 64 && v == Spec.Operations(v0, block, 48)
    ensures w == Spec.Operations(v0, block, 56)
  {
    hide Spec.Operations;
    w := FourSteps(v, block, 48, [0, 7, 14, 5], [0xf4292244, 0x432aff97, 0xab9423a7, 0xfc93a039],
                   [6, 10, 15, 21], v0);
    w := FourSteps(w, block, 52, [12, 3, 10, 1], [0x655b59c3, 0x8f0ccc92, 0xffeff47d, 0x85845dd1],
                   [6, 10, 15, 21], v0);
  }

  /** The last eight STEP lines of round 4. */
  method FourthRoundEnd(v: Spec.Vars, block: Bytes, ghost v0: Spec.Vars) returns (w: Spec.Vars)
    requires |block| == 64 && v == Spec.Operations(v0, block, 56)
    ensures w == Spec.Operations(v0, block, 64)
  {
    hide Spec.Operations;
    w := FourSteps(v, block, 56, [8, 15, 6, 13], [0x6fa87e4f, 0xfe2ce6e0, 0xa3014314, 0x4e0811a1],
                   [6, 10, 15, 21], v0);
    w := FourSteps(w, block, 60, [4, 11, 2, 9], [0xf7537e82, 0xbd3af235, 0x2ad7d2bb, 0xeb86d391],
                   [6, 10, 15, 21], v0);
  }

  lemma NoSteps(v: Spec.Vars, block: Bytes)
    requires |block| == 64
    ensures Spec.Operations(v, block, 0) == v
  {
  }

  // ---------------------------------------------------------------- the context

  class Context {
    var lo: nat
    var hi: nat
    var a: bv32
    var b: bv32
    var c: bv32
    var d: bv32
    var buffer: array<bv8>
    /** Everything hashed so far. */
    ghost var msg: Bytes

    function State(): Spec.Vars
      reads this
    {
      Spec.Vars(a, b, c, d)
    }

    /** Whole blocks are in the registers, the rest is in the buffer. */
    ghost predicate Holds(m: Bytes)
      reads this, buffer
    {
      && buffer.Length == 64
      && var r := |m| % 64;
         && State() == Spec.HashBlocks(m[..|m| - r])
         && buffer[..r] == m[|m| - r..]
    }

    ghost predicate Valid()
      reads this, buffer
    {
      Holds(msg) && Counts(lo, hi, |msg|)
    }

    /** MD5_begin */
    constructor ()
      ensures Valid() && msg == [] && fresh(buffer)
    {
      hide Spec.HashBlocks;
      a, b, c, d := 0x67452301, 0xefcdab89, 0x98badcfe, 0x10325476;
      lo, hi := 0, 0;
      buffer := new bv8[64];
      msg := [];
      new;
      NothingHashed();
    }

    /** The body of the loop: the four rounds, and the registers added. */
    method Block(block: Bytes)
      requires |block| == 64
      modifies this`a, this`b, this`c, this`d
      ensures State() == Spec.Compress(old(State()), block)
    {
      hide Spec.Operations;
      ghost var saved := State();
      NoSteps(saved, block);
      var w := FirstRound(State(), block, saved);
      w := FirstRoundEnd(w, block, saved);
      w := SecondRound(w, block, saved);
      w := SecondRoundEnd(w, block, saved);
      w := ThirdRound(w, block, saved);
      w := ThirdRoundEnd(w, block, saved);
      w := FourthRound(w, block, saved);
      w := FourthRoundEnd(w, block, saved);
      a, b, c, d := Added(w.a, a), Added(w.b, b), Added(w.c, c), Added(w.d, d);
    }

    /** MD5_body: one block or more, without touching the counters. */
    method Body(data: Bytes, ghost done: Bytes)
      requires |data| % 64 == 0 && |data| > 0 && |done| % 64 == 0 == (|done| + |data|) % 64
      requires State() == Spec.HashBlocks(done)
      modifies this`a, this`b, this`c, this`d
      ensures State() == Spec.HashBlocks(done + data)
    {
      hide Spec.HashBlocks, Spec.Compress;
      var p := 0;
      assert done + data[..0] == done;
      while true
        invariant p % 64 == 0 == (|done| + p) % 64 && p + 64 <= |data|
        invariant State() == Spec.HashBlocks(done + data[..p])
        decreases |data| - p
      {
        OneBlock(done, data, p);
        NextBlock(|done|, |data|, p);
        Block(data[p..p + 64]);
        p := p + 64;
        if p == |data| {
          break;
        }
      }
      assert data[..p] == data;
    }

    /** MD5_hash */
    method Hash(data: Bytes)
      requires Valid()
      modifies this, buffer
      ensures Valid() && buffer == old(buffer) && msg == old(msg) + data
    {
      hide Spec.HashBlocks;
      var used := Count(|data|);
      if used != 0 {
        if |data| < 64 - used {
          Keep(data, used);
          return;
        }
        Fill(data, used);
      } else {
        assert msg[..|msg|] == msg;
        Whole(data, msg, data);
      }
    }

    /** The counters go up by size; what was in the buffer before is returned. */
    method Count(size: nat) returns (used: nat)
      requires Valid()
      modifies this`lo, this`hi
      ensures used == |msg| % 64 && Counts(lo, hi, |msg| + size) && Holds(msg)
    {
      hide Spec.HashBlocks;
      var savedLo := lo;
      CountsAdd(lo, hi, |msg|, size);
      lo := (savedLo + size) % 0x2000_0000;
      if lo < savedLo {
        hi := (hi + 1) % 0x1_0000_0000;
      }
      hi := (hi + size / 0x2000_0000) % 0x1_0000_0000;
      used := savedLo % 64;
    }

    /** The case where no block is completed. */
    method Keep(data: Bytes, used: nat)
      requires Holds(msg) && used == |msg| % 64 && |data| < 64 - used && Counts(lo, hi, |msg| + |data|)
      modifies this`msg, buffer
      ensures Valid() && msg == old(msg) + data
    {
      hide Spec.HashBlocks;
      forall i | 0 <= i < |data| {
        buffer[used + i] := data[i];
      }
      Sha256.FitsInBuffer(msg, data, used, buffer[..]);
      msg := msg + data;
    }

    /** The case where the block in the buffer is completed first. */
    method Fill(data: Bytes, used: nat)
      requires Holds(msg) && 0 < used == |msg| % 64 && |data| >= 64 - used && Counts(lo, hi, |msg| + |data|)
      modifies this, buffer
      ensures Valid() && buffer == old(buffer) && msg == old(msg) + data
    {
      hide Spec.HashBlocks;
      ghost var done, available := |msg| - used, 64 - used;
      forall i | 0 <= i < 64 - used {
        buffer[used + i] := data[i];
      }
      var block := buffer[..];
      assert block == msg[done..] + data[..available];
      Body(block, msg[..done]);
      assert msg[..done] + block == msg + data[..available];
      Whole(data[64 - used..], msg + data[..available], data);
    }

    /** MD5_end: the digest of everything hashed; the context is cleared. */
    method End() returns (result: Bytes)
      requires Valid()
      modifies this, buffer
      ensures result == Spec.MessageDigest(old(msg)) && buffer == old(buffer)
      ensures lo == hi == 0 && State() == Spec.Vars(0, 0, 0, 0) && forall i :: 0 <= i < 64 ==> buffer[i] == 0
    {
      hide Spec.HashBlocks, Spec.LittleEndian, Spec.Pad;
      LastBlocks();
      result := EncodeState(State());
      lo, hi, a, b, c, d := 0, 0, 0, 0, 0, 0;
      forall i | 0 <= i < 64 {
        buffer[i] := 0;
      }
    }

    /** The padding, in the block that was begun or in one more. */
    method LastBlocks()
      requires Valid()
      modifies this`lo, this`a, this`b, this`c, this`d, buffer
      ensures State() == Spec.HashBlocks(Spec.Pad(msg))
    {
      hide Spec.HashBlocks, Spec.LittleEndian, Spec.Pad, Spec.Padding, Little;
      var used := lo % 64;
      CountsAdd(lo, hi, |msg|, 0);
      LengthIs(lo, hi, |msg|);
      WholeBlocks(|msg|, used);
      ghost var r := used;
      ghost var before, tail := msg[..|msg| - r], msg[|msg| - r..] + [0x80];
      buffer[used] := 0x80;
      used := used + 1;
      assert buffer[..used] == tail;
      if 64 - used < 8 {
        PaddingLong(|msg|, r);
        PadTwo(msg, r, Little(lo * 8) + Little(hi));
        ExtraBlock(used, before, tail);
        before := before + (tail + Words.Zeros(64 - used));
        assert |before| == |msg| - r + 64;
        tail := [];
        used := 0;
        assert buffer[..used] == tail;
      } else {
        PaddingShort(|msg|, r);
        PadOne(msg, r, Little(lo * 8) + Little(hi));
      }
      LengthBlock(used, before, tail);
    }

    /** Zeros up to the end of the block, when there is no room for the length. */
    method ExtraBlock(used: nat, ghost before: Bytes, ghost tail: Bytes)
      requires buffer.Length == 64 && used <= 64 && buffer[..used] == tail
      requires |before| % 64 == 0 == (|before| + 64) % 64 && State() == Spec.HashBlocks(before)
      modifies this`a, this`b, this`c, this`d, buffer
      ensures |before + (tail + Words.Zeros(64 - used))| == |before| + 64
      ensures State() == Spec.HashBlocks(before + (tail + Words.Zeros(64 - used)))
    {
      hide Spec.HashBlocks;
      Sha256.StoreAt(buffer, used, Words.Zeros(64 - used));
      var block := buffer[..];
      assert block == tail + Words.Zeros(64 - used);
      Body(block, before);
    }

    /** Zeros up to the length, and the length. */
    method LengthBlock(used: nat, ghost before: Bytes, ghost tail: Bytes)
      requires buffer.Length == 64 && used <= 56 && buffer[..used] == tail
      requires |before| % 64 == 0 == (|before| + 64) % 64 && State() == Spec.HashBlocks(before)
      modifies this`lo, this`a, this`b, this`c, this`d, buffer
      ensures |before + (tail + Words.Zeros(56 - used) + (Little(old(lo) * 8) + Little(hi)))| == |before| + 64
      ensures State()
              == Spec.HashBlocks(before + (tail + Words.Zeros(56 - used) + (Little(old(lo) * 8) + Little(hi))))
    {
      hide Spec.HashBlocks, Little;
      Sha256.StoreAt(buffer, used, Words.Zeros(56 - used));
      lo := lo * 8;
      Sha256.StoreAt(buffer, 56, Little(lo) + Little(hi));
      var block := buffer[..];
      assert block == tail + Words.Zeros(56 - used) + (Little(lo) + Little(hi));
      Body(block, before);
    }

    /** Whole blocks go straight into the registers, what is left into the buffer. */
    method Whole(rest: Bytes, ghost done: Bytes, ghost data: Bytes)
      requires buffer.Length == 64 && |done| % 64 == 0 && State() == Spec.HashBlocks(done)
      requires done + rest == msg + data && Counts(lo, hi, |msg| + |data|)
      modifies this, buffer
      ensures Valid() && buffer == old(buffer) && msg == old(msg) + data
    {
      hide Spec.HashBlocks;
      var size := |rest| / 64 * 64;
      WholeSize(|done|, |rest|, size);
      if |rest| >= 64 {
        Body(rest[..size], done);
      } else {
        assert done + rest[..0] == done;
      }
      var left := rest[size..];
      forall i | 0 <= i < |left| {
        buffer[i] := left[i];
      }
      msg := msg + data;
      assert buffer[..|left|] == left;
      WholeParts(msg, done, rest, size);
    }
  }

  lemma NothingHashed()
    ensures Spec.HashBlocks([]) == Spec.Vars(0x67452301, 0xefcdab89, 0x98badcfe, 0x10325476)
    ensures Counts(0, 0, 0)
  {
  }

  lemma NextBlock(d: nat, n: nat, p: nat)
    requires p % 64 == 0 == (d + p) % 64 && n % 64 == 0 && p + 64 <= n
    ensures (p + 64) % 64 == 0 == (d + (p + 64)) % 64
    ensures p + 64 == n || p + 128 <= n
  {
    assert (d + p + 64) % 64 == (d + p) % 64;
  }

  lemma WholeBlocks(n: nat, r: nat)
    requires r == n % 64
    ensures r <= n && (n - r) % 64 == 0 && (n - r + 64) % 64 == 0 && (n - r + 128) % 64 == 0
  {
  }

  lemma WholeSize(d: nat, n: nat, size: nat)
    requires d % 64 == 0 && size == n / 64 * 64
    ensures size <= n < size + 64 && size % 64 == 0 == (d + size) % 64 && (d + n) % 64 == n - size
    ensures n >= 64 <==> size > 0
  {
    assert d == 64 * (d / 64);
    assert d + n == 64 * (d / 64 + n / 64) + (n - size);
  }

  lemma WholeParts(m: Bytes, done: Bytes, rest: Bytes, size: nat)
    requires m == done + rest && size <= |rest| && |m| % 64 == |rest| - size
    ensures |m| % 64 == |rest| - size && m[..|m| - (|rest| - size)] == done + rest[..size]
    ensures m[|m| - (|rest| - size)..] == rest[size..]
  {
  }

  lemma OneBlock(done: Bytes, data: Bytes, p: nat)
    requires |done| % 64 == 0 && p % 64 == 0 && p + 64 <= |data|
    ensures Spec.HashBlocks(done + data[..p + 64]) == Spec.Compress(Spec.HashBlocks(done + data[..p]), data[p..p + 64])
  {
    hide Spec.HashBlocks, Spec.Compress;
    var m := done + data;
    Spec.HashBlocksNext(m, |done| + p);
    assert m[..|done| + p] == done + data[..p] && m[..|done| + p + 64] == done + data[..p + 64];
    assert m[|done| + p..|done| + p + 64] == data[p..p + 64];
  }

  /** lo and hi together are the number of bytes modulo 2 to the 61. */
  ghost predicate Counts(lo: nat, hi: nat, n: nat) {
    lo < 0x2000_0000 && hi < 0x1_0000_0000 && lo + 0x2000_0000 * hi == n % 0x2000_0000_0000_0000
  }

  /** Adding to the two words as MD5_hash does, with a carry, adds to the number of bytes. */
  lemma CountsAdd(lo: nat, hi: nat, n: nat, size: nat)
    requires Counts(lo, hi, n)
    ensures var lo' := (lo + size) % 0x2000_0000;
            var carry := if lo' < lo then 1 else 0;
            Counts(lo', ((hi + carry) % 0x1_0000_0000 + size / 0x2000_0000) % 0x1_0000_0000, n + size)
    ensures lo % 64 == n % 64
  {
    var (sh, q) := (size / 0x2000_0000, n / 0x2000_0000_0000_0000);
    var lo' := (lo + size) % 0x2000_0000;
    var carry := if lo' < lo then 1 else 0;
    LowWord(lo, size);
    assert n == lo + 0x2000_0000 * hi + 0x2000_0000_0000_0000 * q;
    HighWord(hi + carry, sh, lo', n + size, q);
    SameBuffer(lo, hi, n, q);
  }

  lemma LowWord(lo: nat, size: nat)
    requires lo < 0x2000_0000
    ensures var lo' := (lo + size) % 0x2000_0000;
            lo + size == lo' + 0x2000_0000 * ((if lo' < lo then 1 else 0) + size / 0x2000_0000)
  {
    var (sl, sh) := (size % 0x2000_0000, size / 0x2000_0000);
    var carry := if lo + sl < 0x2000_0000 then 0 else 1;
    assert lo + size == (lo + sl - 0x2000_0000 * carry) + 0x2000_0000 * (sh + carry);
  }

  lemma SameBuffer(lo: nat, hi: nat, n: nat, q: nat)
    requires n == lo + 0x2000_0000 * hi + 0x2000_0000_0000_0000 * q
    ensures lo % 64 == n % 64
  {
    assert n == lo + 64 * (0x80_0000 * hi + 0x80_0000_0000_0000 * q);
  }

  lemma HighWord(high: nat, sh: nat, lo: nat, n: nat, q: nat)
    requires lo < 0x2000_0000 && n == lo + 0x2000_0000 * (high + sh) + 0x2000_0000_0000_0000 * q
    ensures Counts(lo, (high % 0x1_0000_0000 + sh) % 0x1_0000_0000, n)
  {
    var (hi, k) := ((high + sh) % 0x1_0000_0000, (high + sh) / 0x1_0000_0000);
    assert hi == (high % 0x1_0000_0000 + sh) % 0x1_0000_0000;
    assert n == lo + 0x2000_0000 * hi + 0x2000_0000_0000_0000 * (k + q);
  }

  // ---------------------------------------------------------------- the end of the message

  /** A word in bytes, by shifting. */
  function Little(u: nat): (b: Bytes)
    ensures |b| == 4
  {
    [Words.Octet(u), Words.Octet(u / 0x100), Words.Octet(u / 0x1_0000), Words.Octet(u / 0x100_0000)]
  }

  /** Four bytes off the low end. */
  lemma LittleEndianFour(u: nat, k: nat)
    ensures Spec.LittleEndian(u, k + 4) == Little(u) + Spec.LittleEndian(u / 0x1_0000_0000, k)
  {
    hide Words.Octet;
    Sha256.Shifts(u);
    assert Spec.LittleEndian(u, k + 4) == [Words.Octet(u)] + Spec.LittleEndian(u / 0x100, k + 3);
    assert Spec.LittleEndian(u / 0x100, k + 3) == [Words.Octet(u / 0x100)] + Spec.LittleEndian(u / 0x1_0000, k + 2);
    assert Spec.LittleEndian(u / 0x1_0000, k + 2)
           == [Words.Octet(u / 0x1_0000)] + Spec.LittleEndian(u / 0x100_0000, k + 1);
  }

  lemma LittleIs(u: nat)
    requires u < 0x1_0000_0000
    ensures Little(u) == Spec.LittleEndian(u, 4)
  {
    LittleEndianFour(u, 0);
  }

  /** The two counters, the low one times eight, are the length in bits. */
  lemma LengthIs(lo: nat, hi: nat, n: nat)
    requires Counts(lo, hi, n)
    ensures Little(lo * 8) + Little(hi) == Spec.LittleEndian(8 * n % 0x1_0000_0000_0000_0000, 8)
  {
    hide Words.Octet, Spec.LittleEndian;
    var bits := 8 * n % 0x1_0000_0000_0000_0000;
    assert bits == lo * 8 + 0x1_0000_0000 * hi;
    LittleEndianFour(bits, 4);
    LittleIs(hi);
    Sha256.OctetIgnores(bits, hi * 0x100_0000, lo * 8);
    Sha256.OctetIgnores(bits / 0x100, hi * 0x1_0000, lo * 8 / 0x100);
    Sha256.OctetIgnores(bits / 0x1_0000, hi * 0x100, lo * 8 / 0x1_0000);
    Sha256.OctetIgnores(bits / 0x100_0000, hi, lo * 8 / 0x100_0000);
  }

  /** Up to 55 bytes in the last block leave room for the padding. */
  lemma PadOne(m: Bytes, r: nat, length: Bytes)
    requires r <= 55 && r <= |m| && Spec.Padding(|m|) == [0x80] + Words.Zeros(55 - r) + length
    ensures m[..|m| - r] + (m[|m| - r..] + [0x80] + Words.Zeros(55 - r) + length) == Spec.Pad(m)
  {
    hide Spec.Padding;
    Joins(m, r, [0x80], Words.Zeros(55 - r), length);
  }

  /** More than that take a second block. */
  lemma PadTwo(m: Bytes, r: nat, length: Bytes)
    requires r <= 63 && r <= |m| && Spec.Padding(|m|) == [0x80] + Words.Zeros(63 - r) + Words.Zeros(56) + length
    ensures m[..|m| - r] + (m[|m| - r..] + [0x80] + Words.Zeros(63 - r)) + ([] + Words.Zeros(56) + length)
            == Spec.Pad(m)
  {
    hide Spec.Padding;
    Joins(m, r, [0x80] + Words.Zeros(63 - r), Words.Zeros(56), length);
    assert m[|m| - r..] + [0x80] + Words.Zeros(63 - r) == m[|m| - r..] + ([0x80] + Words.Zeros(63 - r));
    assert [] + Words.Zeros(56) == Words.Zeros(56);
  }

  lemma PaddingShort(n: nat, r: nat)
    requires r == n % 64 && r < 56
    ensures Spec.Padding(n)
            == [0x80] + Words.Zeros(55 - r) + Spec.LittleEndian(8 * n % 0x1_0000_0000_0000_0000, 8)
  {
    hide Spec.LittleEndian;
    assert (55 - n) % 64 == 55 - r;
  }

  lemma PaddingLong(n: nat, r: nat)
    requires r == n % 64 && r >= 56
    ensures Spec.Padding(n)
            == [0x80] + Words.Zeros(63 - r) + Words.Zeros(56) + Spec.LittleEndian(8 * n % 0x1_0000_0000_0000_0000, 8)
  {
    hide Spec.LittleEndian;
    assert (55 - n) % 64 == 119 - r;
    assert [0x80] + Words.Zeros(119 - r) == [0x80] + Words.Zeros(63 - r) + Words.Zeros(56);
  }

  lemma Joins(m: Bytes, r: nat, a: Bytes, b: Bytes, c: Bytes)
    requires r <= |m|
    ensures m[..|m| - r] + (m[|m| - r..] + a + b + c) == m + (a + b + c)
    ensures m[..|m| - r] + (m[|m| - r..] + a) + (b + c) == m + (a + b + c)
  {
  }

  function EncodeState(v: Spec.Vars): (b: Bytes)
    ensures b == Spec.Digest(v)
  {
    LittleIs(v.a as nat);
    LittleIs(v.b as nat);
    LittleIs(v.c as nat);
    LittleIs(v.d as nat);
    Little(v.a as nat) + Little(v.b as nat) + Little(v.c as nat) + Little(v.d as nat)
  }

  /** md5_hash: however the input arrives, the digest is that of the whole. */
  method HashFile(chunks: seq<Bytes>) returns (digest: Bytes)
    ensures digest == Spec.MessageDigest(Sha256.Joined(chunks))
  {
    var ctx := new Context();
    var i := 0;
    while i < |chunks|
      invariant 0 <= i <= |chunks| && ctx.Valid() && fresh(ctx) && fresh(ctx.buffer)
      invariant ctx.msg == Sha256.Joined(chunks[..i])
    {
      ctx.Hash(chunks[i]);
      assert chunks[..i + 1][..i] == chunks[..i];
      i := i + 1;
    }
    assert chunks[..|chunks|] == chunks;
    digest := ctx.End();
  }
}
