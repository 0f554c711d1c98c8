/**
 The writer of the boot selector, which is kept twice: in mtd3 (written first) and mtd2.

 A flash operation may fail at any point.  An erase or a write may leave any bytes behind,
 and may claim success wrongly; a read fails or returns what is on the media.  Every state
 the media go through is recorded, so that what holds of all recorded states holds at a
 crash, too.
 */
module BootSelector {

  const BC_EFF: nat := 0x150
  const BC_HDR: nat := 12
  const BC_ENT: nat := 20
  const BC_NAME_LEN: nat := 16
  const BC_SEL_OFF: nat := 16
  const BC_COUNT: nat := 8
  const BC_MAGIC: bv32 := 0xa3a2a1a0
  const BC_TAIL: bv32 := 0xb3b2b1b0
  const SEL_OFF: nat := 0x080
  const REC_INDEX: nat := 5
  const MAX_ERASE_SIZE: nat := 0x400_0000

  const EX_OK: int := 0
  const EX_USAGE: int := 2
  const EX_STRUCT: int := 3
  const EX_IO: int := 4
  const EX_WRITE1: int := 5
  const EX_VERIFY1: int := 7
  const EX_VERIFY2: int := 8

  type Bytes = seq<bv8>

  // ---------------------------------------------------------------- little-endian words

  function Le32(b: Bytes, at: nat): bv32
    requires at + 4 <= |b|
  {
    (b[at] as bv32) | ((b[at + 1] as bv32) << 8) | ((b[at + 2] as bv32) << 16) | ((b[at + 3] as bv32) << 24)
  }

  method PutLe32(p: array<bv8>, at: nat, v: bv32)
    requires at + 4 <= p.Length
    modifies p
    ensures Le32(p[..], at) == v
    ensures forall i :: 0 <= i < p.Length && !(at <= i < at + 4) ==> p[i] == old(p[i])
  {
    p[at] := (v & 0xff) as bv8;
    p[at + 1] := ((v >> 8) & 0xff) as bv8;
    p[at + 2] := ((v >> 16) & 0xff) as bv8;
    p[at + 3] := ((v >> 24) & 0xff) as bv8;
    Reassembled(v);
  }

  lemma Reassembled(v: bv32)
    ensures (((v & 0xff) as bv8) as bv32) | ((((v >> 8) & 0xff) as bv8) as bv32 << 8)
            | ((((v >> 16) & 0xff) as bv8) as bv32 << 16) | ((((v >> 24) & 0xff) as bv8) as bv32 << 24) == v
  {
  }

  lemma BytesOfWord(b: Bytes, c: Bytes, at: nat)
    requires at + 4 <= |b| && at + 4 <= |c| && Le32(b, at) == Le32(c, at)
    ensures forall i :: at <= i < at + 4 ==> b[i] == c[i]
  {
  }

  // ---------------------------------------------------------------- the layout of a copy

  function Record(i: nat): nat {
    BC_HDR + i * BC_ENT
  }

  function Name(b: Bytes, i: nat): Bytes
    requires i < BC_COUNT && BC_EFF <= |b|
  {
    b[Record(i)..Record(i) + BC_NAME_LEN]
  }

  /** strnlen: the number of bytes before the first NUL, or all of them. */
  function NameLen(name: Bytes): (n: nat)
    ensures n <= |name| && 0 !in name[..n] && (n < |name| ==> name[n] == 0)
  {
    if name == [] || name[0] == 0 then 0 else 1 + NameLen(name[1..])
  }

  /** Neither empty nor without a terminating NUL. */
  predicate NameOk(name: Bytes) {
    0 < NameLen(name) < BC_NAME_LEN
  }

  const MANAGED: Bytes := [0x72, 0x6f, 0x6f, 0x74, 0x66, 0x73, 0]

  /** The record is the one named "rootfs". */
  predicate IsManaged(name: Bytes) {
    MANAGED <= name
  }

  /** A copy that boots: magic, tail, version and count are right, every record has a proper
      name, and the last record named "rootfs" is number 5. */
  ghost predicate Structural(b: Bytes) {
    && |b| >= BC_EFF
    && Le32(b, 0) == BC_MAGIC && Le32(b, 0x14c) == BC_TAIL && Le32(b, 4) == 1 && Le32(b, 8) == BC_COUNT as bv32
    && (forall i :: 0 <= i < BC_COUNT ==> NameOk(Name(b, i)))
    && IsManaged(Name(b, REC_INDEX))
    && (forall i :: REC_INDEX < i < BC_COUNT ==> !IsManaged(Name(b, i)))
  }

  /** A bootable copy whose selector is w. */
  ghost predicate Selects(b: Bytes, w: bv32) {
    Structural(b) && Le32(b, SEL_OFF) == w
  }

  /** The image with the four selector bytes replaced. */
  ghost predicate Patched(live: Bytes, image: Bytes, w: bv32) {
    && |live| == |image| && |image| >= BC_EFF
    && Le32(image, SEL_OFF) == w
    && forall i :: 0 <= i < |image| && !(SEL_OFF <= i < SEL_OFF + 4) ==> image[i] == live[i]
  }

  /** What a bootable image looks like, byte by byte: a0 a1 a2 a3, version 1, eight records, the
      name "rootfs" and a zero byte at 0x070, and b0 b1 b2 b3 at 0x14c. */
  lemma BootableBytes(b: Bytes)
    requires Structural(b)
    ensures |b| >= 0x150
    ensures b[..12] == [0xa0, 0xa1, 0xa2, 0xa3, 1, 0, 0, 0, 8, 0, 0, 0]
    ensures b[0x14c..0x150] == [0xb0, 0xb1, 0xb2, 0xb3]
    ensures forall j :: 0 <= j < 6 ==> b[0x070 + j] as int == "rootfs"[j] as int
    ensures b[0x076] == 0
  {
    hide NameOk, IsManaged;
    WordBytes(b, 0, 0xa0, 0xa1, 0xa2, 0xa3);
    WordBytes(b, 4, 1, 0, 0, 0);
    WordBytes(b, 8, 8, 0, 0, 0);
    WordBytes(b, 0x14c, 0xb0, 0xb1, 0xb2, 0xb3);
    ManagedBytes(Name(b, REC_INDEX));
    assert forall j :: 0 <= j < 7 ==> Name(b, REC_INDEX)[j] == b[0x070 + j];
  }

  /** A word has its least significant byte first. */
  lemma WordBytes(b: Bytes, at: nat, b0: bv8, b1: bv8, b2: bv8, b3: bv8)
    requires at + 4 <= |b|
    ensures Le32(b, at) == (b3 as bv32) * 0x100_0000 + (b2 as bv32) * 0x1_0000 + (b1 as bv32) * 0x100 + (b0 as bv32)
            <==> b[at] == b0 && b[at + 1] == b1 && b[at + 2] == b2 && b[at + 3] == b3
  {
  }

  lemma ManagedBytes(name: Bytes)
    requires IsManaged(name)
    ensures |name| >= 7 && name[6] == 0 && forall j :: 0 <= j < 6 ==> name[j] as int == "rootfs"[j] as int
  {
  }

  /** Replacing the selector of a bootable image gives a bootable image with that selector,
      because the selector of the record "rootfs" is forced to sit at 0x080. */
  lemma PatchedSelects(live: Bytes, image: Bytes, w: bv32)
    requires Structural(live) && Patched(live, image, w)
    ensures Selects(image, w)
    ensures Record(REC_INDEX) + BC_SEL_OFF == SEL_OFF
  {
    forall i | 0 <= i < BC_COUNT ensures Name(image, i) == Name(live, i) {
    }
  }

  /** There is only one such image. */
  lemma PatchedUnique(live: Bytes, a: Bytes, b: Bytes, w: bv32)
    requires Patched(live, a, w) && Patched(live, b, w)
    ensures a == b
  {
    BytesOfWord(a, b, SEL_OFF);
  }

  lemma Le32Prefix(b: Bytes, c: Bytes, at: nat)
    requires at + 4 <= |c| <= |b| && c == b[..|c|]
    ensures Le32(c, at) == Le32(b, at)
  {
  }

  /** Only the first BC_EFF bytes matter. */
  lemma SelectsPrefix(b: Bytes, c: Bytes, w: bv32)
    requires BC_EFF <= |c| <= |b| && c == b[..|c|]
    ensures Structural(c) <==> Structural(b)
    ensures Selects(c, w) <==> Selects(b, w)
  {
    hide NameOk, NameLen, IsManaged, Le32;
    Le32Prefix(b, c, 0);
    Le32Prefix(b, c, 4);
    Le32Prefix(b, c, 8);
    Le32Prefix(b, c, SEL_OFF);
    Le32Prefix(b, c, 0x14c);
    forall i | 0 <= i < BC_COUNT ensures Name(c, i) == Name(b, i) {
    }
  }

  // ---------------------------------------------------------------- the flash

  datatype Part = Mtd2 | Mtd3

  datatype Snapshot = Snapshot(mtd2: Bytes, mtd3: Bytes)

  datatype Deed = Erased(part: Part) | Verified(part: Part, selector: bv32)

  class Flash {
    var mtd2: Bytes
    var mtd3: Bytes
    /** Set when no operation of this run fails or lies. */
    const reliable: bool
    /** Every state the media went through. */
    ghost var trace: seq<Snapshot>
    /** What was undertaken, in order: erases, whether or not they did anything, and readings
        that found a copy valid at the wanted selector. */
    ghost var log: seq<Deed>

    constructor (b2: Bytes, b3: Bytes, reliable: bool)
      ensures mtd2 == b2 && mtd3 == b3 && this.reliable == reliable && trace == [] && log == []
    {
      mtd2, mtd3, this.reliable, trace, log := b2, b3, reliable, [], [];
    }

    ghost function Media(p: Part): Bytes
      reads this
    {
      if p.Mtd2? then mtd2 else mtd3
    }

    ghost function Other(p: Part): Bytes
      reads this
    {
      if p.Mtd2? then mtd3 else mtd2
    }

    ghost function Now(): Snapshot
      reads this
    {
      Snapshot(mtd2, mtd3)
    }

    /** The media, and everything that was done to them. */
    ghost function History(): (Snapshot, seq<Snapshot>, seq<Deed>)
      reads this
    {
      (Now(), trace, log)
    }

    /** A reading has found the copy valid at w. */
    ghost method Note(p: Part, w: bv32)
      requires Selects(Media(p), w)
      modifies this`log
      ensures log == old(log) + [Verified(p, w)]
    {
      log := log + [Verified(p, w)];
    }

    /** pread of the first bytes of a partition */
    method Read(p: Part, buf: array<bv8>) returns (ok: bool)
      modifies buf
      ensures ok ==> buf.Length <= |Media(p)| && buf[..] == Media(p)[..buf.Length]
      ensures reliable ==> (ok <==> buf.Length <= |Media(p)|)
    {
      var media := if p.Mtd2? then mtd2 else mtd3;
      var fails: bool := *;
      ok := buf.Length <= |media| && (reliable || !fails);
      if ok {
        forall i | 0 <= i < buf.Length {
          buf[i] := media[i];
        }
      }
    }

    /** The first bytes of a partition become b, by way of any other bytes. */
    method Program(p: Part, b: Bytes)
      requires |b| <= |Media(p)|
      modifies this
      ensures Media(p) == b + old(Media(p))[|b|..] && Other(p) == old(Other(p))
      ensures log == old(log)
      ensures Recorded(old(trace), trace, p, Other(p)) && trace != [] && trace[|trace| - 1] == Now()
    {
      var between: Bytes := *;
      if p.Mtd2? {
        trace := trace + [Snapshot(between, mtd3)];
        mtd2 := b + mtd2[|b|..];
      } else {
        trace := trace + [Snapshot(mtd2, between)];
        mtd3 := b + mtd3[|b|..];
      }
      trace := trace + [Snapshot(mtd2, mtd3)];
    }

    /** ioctl MEMERASE of the first n bytes; it fails, or ends anywhere. */
    method Erase(p: Part, n: nat) returns (ok: bool)
      modifies this
      ensures |Media(p)| == |old(Media(p))| && Other(p) == old(Other(p))
      ensures n <= |Media(p)| ==> Media(p)[n..] == old(Media(p))[n..]
      ensures log == old(log) + [Erased(p)]
      ensures Recorded(old(trace), trace, p, Other(p))
      ensures reliable && n <= |Media(p)| ==> ok
    {
      log := log + [Erased(p)];
      var media := if p.Mtd2? then mtd2 else mtd3;
      ok := false;
      if n <= |media| {
        ok := *;
        ok := ok || reliable;
        var left: Bytes := *;
        if reliable || |left| != n {
          left := seq(n, _ => 0xff);
        }
        Program(p, left);
      }
    }

    /** pwrite of a whole buffer; it may fail or claim success wrongly. */
    method Write(p: Part, buf: array<bv8>) returns (ok: bool)
      requires buf.Length <= |Media(p)|
      modifies this
      ensures |Media(p)| == |old(Media(p))| && Media(p)[buf.Length..] == old(Media(p))[buf.Length..]
      ensures Other(p) == old(Other(p)) && log == old(log)
      ensures Recorded(old(trace), trace, p, Other(p))
      ensures reliable ==> ok && Media(p)[..buf.Length] == buf[..]
    {
      ok := *;
      ok := ok || reliable;
      var written: Bytes := *;
      if reliable || |written| != buf.Length {
        written := buf[..];
      }
      Program(p, written);
    }
  }

  /** What setting one copy to w undertakes when nothing fails. */
  ghost function Deeds(p: Part, was: Bytes, w: bv32): seq<Deed> {
    if Selects(was, w) then [Verified(p, w)] else [Erased(p), Verified(p, w)]
  }

  /** Since the log was before, mtd2 was not touched until mtd3 had been verified at w. */
  ghost predicate SecondAfterFirst(before: seq<Deed>, log: seq<Deed>, w: bv32) {
    && before <= log
    && forall i :: |before| <= i < |log| && log[i] == Erased(Mtd2) ==>
         exists j :: |before| <= j < i && log[j] == Verified(Mtd3, w)
  }

  /** Whatever comes after the deeds of the first copy, comes after its verification. */
  lemma FirstIsVerified(before: seq<Deed>, was: Bytes, w: bv32, rest: seq<Deed>)
    ensures SecondAfterFirst(before, before + Deeds(Mtd3, was, w) + rest, w)
  {
    var log := before + Deeds(Mtd3, was, w) + rest;
    var j := |before| + |Deeds(Mtd3, was, w)| - 1;
    assert log[j] == Verified(Mtd3, w);
    assert before <= log;
    forall i | |before| <= i < |log| && log[i] == Erased(Mtd2) ensures j < i {
    }
  }

  /** The states recorded between the two traces touch partition p only. */
  ghost predicate Recorded(before: seq<Snapshot>, after: seq<Snapshot>, p: Part, other: Bytes) {
    before <= after
    && forall i :: |before| <= i < |after| ==> (if p.Mtd2? then after[i].mtd3 else after[i].mtd2) == other
  }

  // ---------------------------------------------------------------- parse

  class CopyInfo {
    const part: Part
    const erasesize: nat
    var sel: array<bv32>
    var rec: int
    var valid: bool

    constructor (p: Part, esz: nat)
      ensures part == p && erasesize == esz && !valid && fresh(sel) && sel.Length == BC_COUNT
    {
      part, erasesize, rec, valid := p, esz, 0, false;
      sel := new bv32[BC_COUNT];
    }

    /** The structure is accepted exactly when it is bootable, and then the selector is known. */
    method Parse(b: array<bv8>) returns (r: int)
      requires sel.Length == BC_COUNT && b.Length >= BC_EFF
      modifies this, sel
      ensures sel == old(sel)
      ensures r == if Structural(b[..]) then EX_OK else EX_STRUCT
      ensures r == EX_OK ==> valid && rec == REC_INDEX && sel[rec] == Le32(b[..], SEL_OFF)
      ensures r != EX_OK ==> valid == old(valid)
    {
      hide NameOk, NameLen, IsManaged, Le32;
      var bs := b[..];
      if Le32(bs, 0) != BC_MAGIC || Le32(bs, 0x14c) != BC_TAIL || Le32(bs, 4) != 1 || Le32(bs, 8) != BC_COUNT as bv32 {
        return EX_STRUCT;
      }
      rec := -1;
      var i := 0;
      while i < BC_COUNT
        invariant 0 <= i <= BC_COUNT && sel == old(sel) && valid == old(valid)
        invariant forall k :: 0 <= k < i ==> NameOk(Name(bs, k)) && sel[k] == Le32(bs, Record(k) + BC_SEL_OFF)
        invariant -1 <= rec < i && (rec >= 0 ==> IsManaged(Name(bs, rec)))
        invariant forall k :: rec < k < i ==> !IsManaged(Name(bs, k))
      {
        var named, managed := CheckName(Name(bs, i));
        if !named {
          return EX_STRUCT;
        }
        sel[i] := Le32(bs, Record(i) + BC_SEL_OFF);
        if managed {
          rec := i;
        }
        i := i + 1;
      }
      if rec != REC_INDEX {
        return EX_STRUCT;
      }
      valid := true;
      return EX_OK;
    }

    /** A read and a parse; the media are not touched. */
    method ReadStruct(flash: Flash) returns (r: int)
      requires sel.Length == BC_COUNT
      modifies this, sel
      ensures sel == old(sel)
      ensures r == EX_OK || r == EX_IO || r == EX_STRUCT
      ensures r == EX_OK ==> valid && 0 <= rec < BC_COUNT && Selects(flash.Media(part), sel[rec])
      ensures r == EX_STRUCT ==> !Structural(flash.Media(part))
      ensures flash.reliable ==> (r == EX_OK <==> Structural(flash.Media(part)))
    {
      hide Structural, Le32;
      var buf := new bv8[BC_EFF];
      var ok := flash.Read(part, buf);
      if !ok {
        ShortNotStructural(flash.Media(part));
        return EX_IO;
      }
      SelectsPrefix(flash.Media(part), buf[..], Le32(buf[..], SEL_OFF));
      r := Parse(buf);
    }

    // -------------------------------------------------------------- transaction

    /** One complete transaction.  Success means that the old copy was bootable and is now the
        same image with the wanted selector; a refusal leaves everything alone; and whatever
        happens, the other copy is not touched in any state passed through. */
    method Transaction(flash: Flash, want: bv32) returns (r: int, already: bool)
      requires sel.Length == BC_COUNT
      modifies this, sel, flash
      ensures sel == old(sel)
      ensures flash.Other(part) == old(flash.Other(part)) && |flash.Media(part)| == |old(flash.Media(part))|
      ensures Recorded(old(flash.trace), flash.trace, part, flash.Other(part))
      ensures r == EX_OK || r == EX_STRUCT || r == EX_IO || r == EX_WRITE1 || r == EX_VERIFY1
      ensures r == EX_OK ==>
                && Structural(old(flash.Media(part)))
                && Patched(old(flash.Media(part)), flash.Media(part), want)
      ensures r == EX_OK ==> (already <==> Selects(old(flash.Media(part)), want))
      ensures already ==> r == EX_OK
      ensures r == EX_STRUCT ==> !Structural(old(flash.Media(part)))
      ensures r == EX_STRUCT || r == EX_IO ==> flash.History() == old(flash.History())
      ensures already ==> flash.Now() == old(flash.Now()) && flash.trace == old(flash.trace)
      ensures r == EX_OK ==> flash.log == old(flash.log) + Deeds(part, old(flash.Media(part)), want)
      ensures r != EX_OK ==> flash.log == old(flash.log) || flash.log == old(flash.log) + [Erased(part)]
      ensures flash.reliable && Plausible(erasesize, old(flash.Media(part))) && Structural(old(flash.Media(part)))
              ==> r == EX_OK
    {
      already := false;
      var oom: bool := *;
      if erasesize < BC_EFF || erasesize > MAX_ERASE_SIZE || (oom && !flash.reliable) {
        return EX_WRITE1, false;
      }
      var blk := new bv8[erasesize];
      var ok := flash.Read(part, blk);
      if !ok {
        return EX_IO, false;
      }
      ghost var media := flash.Media(part);
      SelectsPrefix(media, blk[..], want);
      r := Parse(blk);
      if r != EX_OK {
        return r, false;
      }
      if sel[rec] == want {
        flash.Note(part, want);
        return EX_OK, true;
      }
      r := Patch(flash, blk, want);
    }

    /** Steps 3 to 9: patch the selector, check, erase, write, read back, compare, parse again. */
    method Patch(flash: Flash, blk: array<bv8>, want: bv32) returns (r: int)
      requires sel.Length == BC_COUNT
      requires blk.Length >= BC_EFF && blk.Length <= |flash.Media(part)| && blk[..] == flash.Media(part)[..blk.Length]
      requires Structural(flash.Media(part)) && !Selects(flash.Media(part), want)
      modifies this, sel, flash, blk
      ensures sel == old(sel)
      ensures flash.Other(part) == old(flash.Other(part)) && |flash.Media(part)| == |old(flash.Media(part))|
      ensures Recorded(old(flash.trace), flash.trace, part, flash.Other(part))
      ensures r == EX_OK || r == EX_WRITE1 || r == EX_VERIFY1
      ensures r == EX_OK ==> Patched(old(flash.Media(part)), flash.Media(part), want)
      ensures r == EX_OK ==> flash.log == old(flash.log) + [Erased(part), Verified(part, want)]
      ensures r != EX_OK ==> flash.log == old(flash.log) + [Erased(part)]
      ensures flash.reliable ==> r == EX_OK
    {
      ghost var media := flash.Media(part);
      var live := new bv8[blk.Length](i requires 0 <= i < blk.Length reads blk => blk[i]);
      ghost var before := live[..];
      PutLe32(blk, SEL_OFF, want);
      var same := SameOutsideSelector(blk, live);
      if !same {
        r := EX_STRUCT;
      } else {
        r := Reprogram(flash, blk, want);
      }
    }

    /** Steps 5 to 9.  Once the bytes compare equal, the last two checks cannot fail. */
    method Reprogram(flash: Flash, blk: array<bv8>, want: bv32) returns (r: int)
      requires sel.Length == BC_COUNT
      requires blk.Length >= BC_EFF && blk.Length <= |flash.Media(part)|
      requires Structural(flash.Media(part)) && Patched(flash.Media(part)[..blk.Length], blk[..], want)
      modifies this, sel, flash
      ensures sel == old(sel)
      ensures flash.Other(part) == old(flash.Other(part)) && |flash.Media(part)| == |old(flash.Media(part))|
      ensures Recorded(old(flash.trace), flash.trace, part, flash.Other(part))
      ensures r == EX_OK || r == EX_WRITE1 || r == EX_VERIFY1
      ensures r == EX_OK ==> Patched(old(flash.Media(part)), flash.Media(part), want)
      ensures r == EX_OK ==> flash.log == old(flash.log) + [Erased(part), Verified(part, want)]
      ensures r != EX_OK ==> flash.log == old(flash.log) + [Erased(part)]
      ensures flash.reliable ==> r == EX_OK
    {
      hide Structural, Le32;
      var ok := flash.Erase(part, blk.Length);
      if !ok {
        return EX_WRITE1;
      }
      ok := flash.Write(part, blk);
      if !ok {
        return EX_WRITE1;
      }
      var rb := new bv8[blk.Length];
      ok := flash.Read(part, rb);
      if !ok {
        return EX_VERIFY1;
      }
      var equal := SameBytes(rb, blk);
      if !equal {
        return EX_VERIFY1;
      }
      ghost var live := old(flash.Media(part));
      PatchedWhole(live, flash.Media(part), blk[..], want);
      r := Parse(rb);
      if r != EX_OK {
        r := EX_VERIFY1;
      } else if sel[rec] != want {
        r := EX_VERIFY1;
      } else {
        PatchedSelects(live, flash.Media(part), want);
        flash.Note(part, want);
      }
    }
  }

  /** The first block patched and the rest as it was is the whole partition patched. */
  lemma PatchedWhole(live: Bytes, media: Bytes, block: Bytes, w: bv32)
    requires Structural(live) && |media| == |live| && BC_EFF <= |block| <= |live|
    requires Patched(live[..|block|], block, w)
    requires media[..|block|] == block && media[|block|..] == live[|block|..]
    ensures Patched(live, media, w) && Selects(block, w)
  {
    forall i | 0 <= i < |media| && !(SEL_OFF <= i < SEL_OFF + 4) ensures media[i] == live[i] {
      if i < |block| {
        assert media[i] == media[..|block|][i] && live[i] == live[..|block|][i];
      } else {
        assert media[i] == media[|block|..][i - |block|] && live[i] == live[|block|..][i - |block|];
      }
    }
    Le32Prefix(media, block, SEL_OFF);
    PatchedSelects(live, media, w);
    SelectsPrefix(media, block, w);
  }

  method SameBytes(a: array<bv8>, b: array<bv8>) returns (same: bool)
    requires a.Length == b.Length
    ensures same <==> a[..] == b[..]
  {
    var i := 0;
    while i < a.Length
      invariant 0 <= i <= a.Length && a[..i] == b[..i]
    {
      if a[i] != b[i] {
        assert a[..][i] != b[..][i];
        return false;
      }
      i := i + 1;
    }
    return true;
  }

  lemma ShortNotStructural(b: Bytes)
    ensures |b| < BC_EFF ==> !Structural(b)
  {
  }

  predicate Plausible(erasesize: nat, media: Bytes) {
    BC_EFF <= erasesize <= MAX_ERASE_SIZE && erasesize <= |media|
  }

  /** Step 4: every byte outside the selector is what it was. */
  method SameOutsideSelector(blk: array<bv8>, live: array<bv8>) returns (same: bool)
    requires blk.Length == live.Length
    ensures same <==> forall i :: 0 <= i < blk.Length && !(SEL_OFF <= i < SEL_OFF + 4) ==> blk[i] == live[i]
  {
    var i := 0;
    while i < blk.Length
      invariant 0 <= i <= blk.Length
      invariant forall k :: 0 <= k < i && !(SEL_OFF <= k < SEL_OFF + 4) ==> blk[k] == live[k]
    {
      if !(SEL_OFF <= i < SEL_OFF + 4) && blk[i] != live[i] {
        return false;
      }
      i := i + 1;
    }
    return true;
  }

  method CheckName(name: Bytes) returns (named: bool, managed: bool)
    requires |name| == BC_NAME_LEN
    ensures named == NameOk(name) && managed == IsManaged(name)
  {
    var n := StrNLen(name);
    named := n != 0 && n != BC_NAME_LEN;
    managed := name[..7] == MANAGED;
    assert MANAGED <= name <==> name[..7] == MANAGED;
  }

  /** strnlen(name, |name|) */
  method StrNLen(name: Bytes) returns (n: nat)
    ensures n == NameLen(name)
  {
    n := 0;
    while n < |name| && name[n] != 0
      invariant n <= |name| && NameLen(name) == n + NameLen(name[n..])
    {
      assert name[n..][1..] == name[n + 1..];
      n := n + 1;
    }
  }

  // ---------------------------------------------------------------- main

  /** The command line after option parsing; the wanted value is what strtol made of it. */
  datatype Command = Show | VerifyOnly(want: int) | Set(want: int, force: bool) | NoCommand

  /** A state the device still boots from: mtd2 is the bootable copy it was, or mtd3 is a
      bootable copy that has the wanted selector. */
  ghost predicate Boots(s: Snapshot, mtd2: Bytes, w: bv32) {
    (s.mtd2 == mtd2 && Structural(mtd2)) || Selects(s.mtd3, w)
  }

  /** rt3bcwrite --set w [--force-unequal], after the option and device checks. */
  method SetSelector(flash: Flash, b: CopyInfo, a: CopyInfo, w: bv32, force: bool) returns (exit: int)
    requires b.part == Mtd3 && a.part == Mtd2 && b.sel.Length == a.sel.Length == BC_COUNT && b.sel != a.sel
    modifies flash, b, b.sel, a, a.sel
    // success
    ensures exit == EX_OK ==> Patched(old(flash.mtd3), flash.mtd3, w) && Patched(old(flash.mtd2), flash.mtd2, w)
    ensures exit == EX_OK ==> Selects(flash.mtd3, w) && Selects(flash.mtd2, w)
    // safety, in every state passed through
    ensures old(flash.trace) <= flash.trace
    ensures forall i :: |old(flash.trace)| <= i < |flash.trace| ==> Boots(flash.trace[i], old(flash.mtd2), w)
    ensures flash.mtd2 != old(flash.mtd2) ==> Selects(flash.mtd3, w)
    ensures SecondAfterFirst(old(flash.log), flash.log, w)
    // what is left alone
    ensures !Structural(old(flash.mtd3)) || !Structural(old(flash.mtd2)) ==>
              exit != EX_OK && flash.History() == old(flash.History())
    ensures Selects(old(flash.mtd3), w) && Selects(old(flash.mtd2), w) ==>
              flash.History() == old(flash.History())
    ensures !force && !Agree(old(flash.mtd3), old(flash.mtd2)) ==>
              exit != EX_OK && flash.History() == old(flash.History())
    // convergence
    ensures flash.reliable && Plausible(b.erasesize, old(flash.mtd3)) && Plausible(a.erasesize, old(flash.mtd2))
            && Structural(old(flash.mtd3)) && Structural(old(flash.mtd2))
            && (force || Agree(old(flash.mtd3), old(flash.mtd2)))
            ==> && exit == EX_OK
                && ((Selects(old(flash.mtd3), w) && Selects(old(flash.mtd2), w))
                    || flash.log == old(flash.log)
                       + Deeds(Mtd3, old(flash.mtd3), w) + Deeds(Mtd2, old(flash.mtd2), w))
    // what the exit codes mean
    ensures exit in {EX_OK, EX_STRUCT, EX_IO, EX_WRITE1, EX_IO + 2, EX_VERIFY1, EX_VERIFY1 + 2}
    ensures exit == EX_STRUCT ==> flash.History() == old(flash.History())
    ensures exit == EX_IO ==>
              flash.History() == old(flash.History())
              || (Selects(flash.mtd3, w) && Selects(flash.mtd2, w))
    ensures exit == EX_WRITE1 ==> flash.mtd2 == old(flash.mtd2)
    ensures exit == EX_IO + 2 ==> flash.mtd2 == old(flash.mtd2) && Selects(flash.mtd3, w)
    ensures exit == EX_VERIFY1 + 2 ==> Selects(flash.mtd3, w)
    ensures exit == EX_VERIFY1 ==> flash.mtd2 == old(flash.mtd2) || Selects(flash.mtd3, w)
  {
    hide Structural, Le32;
    ghost var mtd2, mtd3 := flash.mtd2, flash.mtd3;
    exit := b.ReadStruct(flash);
    if exit != EX_OK {
      return;
    }
    exit := a.ReadStruct(flash);
    if exit != EX_OK {
      return;
    }
    if b.sel[b.rec] != a.sel[a.rec] && !force {
      return EX_STRUCT;
    }
    ShortNotStructural(mtd2);
    ShortNotStructural(mtd3);
    if b.sel[b.rec] == w && a.sel[a.rec] == w {
      return EX_OK;
    }
    exit := WriteBoth(flash, b, a, w);
  }

  /** The first copy, then the second, then a last look at both. */
  method WriteBoth(flash: Flash, b: CopyInfo, a: CopyInfo, w: bv32) returns (exit: int)
    requires b.part == Mtd3 && a.part == Mtd2 && b.sel.Length == a.sel.Length == BC_COUNT && b.sel != a.sel
    requires Structural(flash.mtd3) && Structural(flash.mtd2)
    modifies flash, b, b.sel, a, a.sel
    ensures exit == EX_OK || exit == EX_IO ==>
              || (Patched(old(flash.mtd3), flash.mtd3, w) && Patched(old(flash.mtd2), flash.mtd2, w)
                  && Selects(flash.mtd3, w) && Selects(flash.mtd2, w))
              || (exit == EX_IO && flash.History() == old(flash.History()))
    ensures old(flash.trace) <= flash.trace
    ensures forall i :: |old(flash.trace)| <= i < |flash.trace| ==> Boots(flash.trace[i], old(flash.mtd2), w)
    ensures flash.mtd2 != old(flash.mtd2) ==> Selects(flash.mtd3, w)
    ensures SecondAfterFirst(old(flash.log), flash.log, w)
    ensures flash.reliable && Plausible(b.erasesize, old(flash.mtd3)) && Plausible(a.erasesize, old(flash.mtd2)) ==>
              && exit == EX_OK
              && flash.log == old(flash.log)
                 + Deeds(Mtd3, old(flash.mtd3), w) + Deeds(Mtd2, old(flash.mtd2), w)
    ensures exit in {EX_OK, EX_IO, EX_WRITE1, EX_IO + 2, EX_VERIFY1, EX_VERIFY1 + 2}
    ensures exit == EX_WRITE1 ==> flash.mtd2 == old(flash.mtd2)
    ensures exit == EX_IO + 2 ==> flash.mtd2 == old(flash.mtd2) && Selects(flash.mtd3, w)
    ensures exit == EX_VERIFY1 + 2 ==> Selects(flash.mtd3, w)
    ensures exit == EX_VERIFY1 ==> flash.mtd2 == old(flash.mtd2) || Selects(flash.mtd3, w)
  {
    hide Structural, Le32;
    ghost var mtd2, mtd3 := flash.mtd2, flash.mtd3;
    var r, already := b.Transaction(flash, w);
    if r != EX_OK {
      return r;
    }
    PatchedSelects(mtd3, flash.mtd3, w);
    r, already := a.Transaction(flash, w);
    FirstIsVerified(old(flash.log), mtd3, w, []);
    FirstIsVerified(old(flash.log), mtd3, w, [Erased(Mtd2)]);
    FirstIsVerified(old(flash.log), mtd3, w, Deeds(Mtd2, mtd2, w));
    if r != EX_OK {
      return r + 2;
    }
    PatchedSelects(mtd2, flash.mtd2, w);
    exit := b.ReadStruct(flash);
    if exit != EX_OK {
      return;
    }
    exit := a.ReadStruct(flash);
    if exit != EX_OK {
      return;
    }
    exit := if b.sel[b.rec] != w || a.sel[a.rec] != w then EX_VERIFY2 else EX_OK;
  }

  /** Both copies are bootable and have the same selector. */
  ghost predicate Agree(b: Bytes, a: Bytes) {
    Structural(b) && Structural(a) && Le32(b, SEL_OFF) == Le32(a, SEL_OFF)
  }

  predicate WantOk(cmd: Command) {
    cmd.Show? || ((cmd.VerifyOnly? || cmd.Set?) && (cmd.want == 0 || cmd.want == 1))
  }

  /** The copy is bootable, and its selector is the number given. */
  ghost predicate IsAt(b: Bytes, want: int) {
    Structural(b) && Le32(b, SEL_OFF) as int == want
  }

  lemma SelectsIsAt(b: Bytes, want: int)
    requires want == 0 || want == 1
    ensures Selects(b, want as bv32) <==> IsAt(b, want)
  {
    hide Structural, Le32;
  }

  /** main: only --set with 0 or 1 ever touches the media, and then as SetSelector says of the very
      number on the command line. */
  method Run(flash: Flash, cmd: Command, erasesize3: nat, erasesize2: nat) returns (exit: int)
    modifies flash
    ensures !WantOk(cmd) && flash.reliable ==> exit == EX_USAGE
    ensures !WantOk(cmd) || !cmd.Set? ==> flash.History() == old(flash.History())
    // --verify-only
    ensures WantOk(cmd) && cmd.VerifyOnly? && exit == EX_OK ==> IsAt(flash.mtd3, cmd.want) && IsAt(flash.mtd2, cmd.want)
    ensures WantOk(cmd) && cmd.VerifyOnly? && flash.reliable ==>
              (exit == EX_OK <==> IsAt(flash.mtd3, cmd.want) && IsAt(flash.mtd2, cmd.want))
    // --set: safety in every state passed through
    ensures WantOk(cmd) && cmd.Set? ==>
              forall i :: |old(flash.trace)| <= i < |flash.trace| ==>
                Boots(flash.trace[i], old(flash.mtd2), cmd.want as bv32)
    ensures WantOk(cmd) && cmd.Set? ==> SecondAfterFirst(old(flash.log), flash.log, cmd.want as bv32)
    // --set: success
    ensures WantOk(cmd) && cmd.Set? && exit == EX_OK ==>
              && IsAt(flash.mtd3, cmd.want) && IsAt(flash.mtd2, cmd.want)
              && Patched(old(flash.mtd3), flash.mtd3, cmd.want as bv32)
              && Patched(old(flash.mtd2), flash.mtd2, cmd.want as bv32)
    // --set: refusals, and nothing to do
    ensures WantOk(cmd) && cmd.Set? && !(Structural(old(flash.mtd3)) && Structural(old(flash.mtd2))) ==>
              exit != EX_OK && flash.History() == old(flash.History())
    ensures WantOk(cmd) && cmd.Set? && !cmd.force && !Agree(old(flash.mtd3), old(flash.mtd2)) ==>
              exit != EX_OK && flash.History() == old(flash.History())
    ensures WantOk(cmd) && cmd.Set? && IsAt(old(flash.mtd3), cmd.want) && IsAt(old(flash.mtd2), cmd.want) ==>
              flash.History() == old(flash.History())
    // --set: without faults
    ensures WantOk(cmd) && cmd.Set? && flash.reliable
            && 0x150 <= erasesize3 <= 0x400_0000 && erasesize3 <= |old(flash.mtd3)|
            && 0x150 <= erasesize2 <= 0x400_0000 && erasesize2 <= |old(flash.mtd2)|
            && Structural(old(flash.mtd3)) && Structural(old(flash.mtd2))
            && (cmd.force || Agree(old(flash.mtd3), old(flash.mtd2)))
            ==> exit == EX_OK
  {
    hide Structural, Le32, Selects, Boots, Patched, IsAt, Agree;
    var found: bool := *;
    if !found && !flash.reliable {
      return EX_IO;
    }
    var b := new CopyInfo(Mtd3, erasesize3);
    var a := new CopyInfo(Mtd2, erasesize2);
    if cmd.Show? {
      var r := b.ReadStruct(flash);
      r := a.ReadStruct(flash);
      exit := EX_OK;
    } else if cmd.NoCommand? || (cmd.want != 0 && cmd.want != 1) {
      exit := EX_USAGE;
    } else {
      SelectsIsAt(flash.mtd3, cmd.want);
      SelectsIsAt(flash.mtd2, cmd.want);
      if cmd.VerifyOnly? {
        exit := VerifyBoth(flash, b, a, cmd.want as bv32);
      } else {
        exit := SetSelector(flash, b, a, cmd.want as bv32, cmd.force);
        SelectsIsAt(flash.mtd3, cmd.want);
        SelectsIsAt(flash.mtd2, cmd.want);
      }
    }
  }

  /** --verify-only w */
  method VerifyBoth(flash: Flash, b: CopyInfo, a: CopyInfo, w: bv32) returns (exit: int)
    requires b.part == Mtd3 && a.part == Mtd2 && b.sel.Length == a.sel.Length == BC_COUNT && b.sel != a.sel
    modifies b, b.sel, a, a.sel
    ensures exit == EX_OK ==> Selects(flash.mtd3, w) && Selects(flash.mtd2, w)
    ensures flash.reliable ==> (exit == EX_OK <==> Selects(flash.mtd3, w) && Selects(flash.mtd2, w))
  {
    hide Structural, Le32;
    exit := b.ReadStruct(flash);
    if exit != EX_OK {
      return;
    }
    exit := a.ReadStruct(flash);
    if exit != EX_OK {
      return;
    }
    exit := if b.sel[b.rec] == w && a.sel[a.rec] == w then EX_OK else EX_VERIFY2;
  }
}
