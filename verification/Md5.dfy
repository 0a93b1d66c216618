/** The streaming of clib/md5.c on a little-endian host.  The compression function is a parameter. */
module Md5 {

  import opened Words
  import opened Codes

  const BLOCK: nat := 64

  /** Four u32s. */
  type Digest = seq<nat>

  type Compression = (Digest, seq<byte>) -> Digest

  // ---------- What is computed ----------

  /** The compression function folded over whole blocks. */
  function Fold(f: Compression, s: Digest, m: seq<byte>): Digest {
    if |m| < BLOCK then s else f(Fold(f, s, m[..|m| - BLOCK]), m[|m| - BLOCK..])
  }

  /** The padding of RFC 1321, section 3.1: a one and as many zeros as leave room for the length. */
  function Padding(n: nat): (p: seq<byte>)
    ensures 1 <= |p| <= BLOCK && (n + |p| + 8) % BLOCK == 0
  {
    var k := if n % BLOCK < 56 then 56 - n % BLOCK else 120 - n % BLOCK;
    [0x80] + seq(k - 1, i => 0)
  }

  /** The message padded, and then its length in bits, as in section 3.2. */
  ghost function Padded(m: seq<byte>): (p: seq<byte>)
    ensures |p| % BLOCK == 0
  {
    EightBytesInLength();
    m + Padding(|m|) + LittleBytes(BitLength(|m|), LengthBytes())
  }

  /** The low 64 bits of the length in bits. */
  function BitLength(n: nat): nat {
    8 * n % U64
  }

  /** The bytes of the length, which are 8.  Proofs see the number only where they mention Open. */
  ghost function LengthBytes(): nat {
    assert IsEight(8);
    var n: nat :| IsEight(n);
    n
  }

  ghost predicate IsEight(n: nat) {
    forall k {:trigger Open(k)} :: Open(k) ==> n == 8
  }

  lemma EightBytesInLength()
    ensures LengthBytes() == 8
  {
    assert Open(0);
    assert IsEight(LengthBytes());
  }

  lemma LengthRange()
    ensures Range(LengthBytes()) == U64
  {
    EightBytesInLength();
    assert Range(4) == U32;
  }

  lemma OneMoreBlock(f: Compression, s: Digest, m: seq<byte>, block: seq<byte>)
    requires |block| == BLOCK
    ensures Fold(f, s, m + block) == f(Fold(f, s, m), block)
  {
    var all := m + block;
    assert all[..|all| - BLOCK] == m && all[|all| - BLOCK..] == block;
  }

  /** The blocks go in from the first to the last. */
  lemma {:induction false} FirstBlock(f: Compression, s: Digest, block: seq<byte>, m: seq<byte>)
    requires |block| == BLOCK && |m| % BLOCK == 0
    ensures Fold(f, s, block + m) == Fold(f, f(s, block), m)
  {
    var all := block + m;
    if m == [] {
      assert all[..0] == [] && all[0..] == block;
    } else {
      var n := |m| - BLOCK;
      FirstBlock(f, s, block, m[..n]);
      assert all[..|all| - BLOCK] == block + m[..n] && all[|all| - BLOCK..] == m[n..];
    }
  }

  /** Different messages are padded differently, up to the length that can be represented. */
  lemma PaddedInjective(m: seq<byte>, n: seq<byte>)
    requires 8 * |m| < U64 && 8 * |n| < U64 && Padded(m) == Padded(n)
    ensures m == n
  {
    var w := LengthBytes();
    PaddedParts(m);
    PaddedParts(n);
    LengthRange();
    LittleRoundTrip(8 * |m|, w);
    LittleRoundTrip(8 * |n|, w);
  }

  lemma PaddedParts(m: seq<byte>)
    requires 8 * |m| < U64
    ensures var p, w := Padded(m), LengthBytes();
            && |m| + w <= |p|
            && p[..|m|] == m && p[|p| - w..] == LittleBytes(8 * |m|, w)
  {
    var s := LittleBytes(8 * |m|, LengthBytes());
    SmallLength(|m|);
    PaddedIs(m, Padding(|m|), 8 * |m|, s);
    ThreeParts(m, Padding(|m|), s);
  }

  /** What a padded message p of n bytes is: the message, one 1 bit, zeros up to the next multiple
      of a block that leaves room for the length, and the length in bits, the low byte first. */
  ghost predicate IsPadded(p: seq<byte>, m: seq<byte>) {
    var n := |m|;
    && |p| % 64 == 0 && n + 9 <= |p| < n + 9 + 64
    && p[..n] == m && p[n] == 0x80 && (forall i :: n < i < |p| - 8 ==> p[i] == 0)
    && forall i {:trigger LengthByte(n, i)} :: 0 <= i < 8 ==> p[|p| - 8 + i] == LengthByte(n, i)
  }

  /** Byte i, from the lowest, of the length in bits of n bytes. */
  function LengthByte(n: nat, i: nat): (b: byte) {
    8 * n % 0x1_0000_0000_0000_0000 / Range(i) % 256
  }

  /** The compression function folded over the message m, padded. */
  ghost predicate IsDigest(f: Compression, s: Digest, m: seq<byte>, digest: Digest) {
    exists p :: IsPadded(p, m) && digest == Fold(f, s, p)
  }

  lemma PaddedMeans(m: seq<byte>)
    ensures IsPadded(Padded(m), m)
  {
    var p, s := Padding(|m|), LittleBytes(BitLength(|m|), LengthBytes());
    EightBytesInLength();
    PaddedIs(m, p, BitLength(|m|), s);
    PaddingMeans(|m|);
    forall i {:trigger LengthByte(|m|, i)} | 0 <= i < 8 ensures s[i] == LengthByte(|m|, i) {
      LittleByteAt(BitLength(|m|), LengthBytes(), i);
    }
    PaddedMessage(m, p, s);
  }

  lemma PaddingMeans(n: nat)
    ensures var p := Padding(n);
            p[0] == 0x80 && (forall i :: 0 < i < |p| ==> p[i] == 0) && |p| <= 64 && (n + |p| + 8) % 64 == 0
  {
  }

  lemma PaddedMessage(m: seq<byte>, p: seq<byte>, s: seq<byte>)
    requires 1 <= |p| <= 64 && (|m| + |p| + 8) % 64 == 0 && p[0] == 0x80 && forall i :: 0 < i < |p| ==> p[i] == 0
    requires |s| == 8 && forall i {:trigger LengthByte(|m|, i)} :: 0 <= i < 8 ==> s[i] == LengthByte(|m|, i)
    ensures IsPadded((m + p) + s, m)
  {
    var q, n := (m + p) + s, |m|;
    ThreeParts(m, p, s);
    forall i | n < i < |q| - 8 ensures q[i] == 0 {
      assert q[i] == p[i - n];
    }
    forall i {:trigger LengthByte(n, i)} | 0 <= i < 8 ensures q[|q| - 8 + i] == LengthByte(n, i) {
      assert q[|q| - 8 + i] == s[i];
    }
  }

  lemma SmallLength(n: nat)
    requires 8 * n < U64
    ensures BitLength(n) == 8 * n
  {
  }

  lemma ThreeParts(a: seq<byte>, b: seq<byte>, c: seq<byte>)
    ensures var p := (a + b) + c;
            p[..|a|] == a && p[|p| - |c|..] == c
  {
  }

  lemma PaddedIs(m: seq<byte>, padding: seq<byte>, bits: nat, length: seq<byte>)
    requires padding == Padding(|m|) && bits == BitLength(|m|)
    requires length == LittleBytes(bits, LengthBytes())
    ensures Padded(m) == (m + padding) + length
  {
  }

  /** Where in its block a message ends, by its length in bits. */
  lemma BlockIndex(k: nat, t: nat, bits: nat)
    requires t < BLOCK && bits == BitLength(BLOCK * k + t)
    ensures (BLOCK * k + t) % BLOCK == t && bits / 8 % BLOCK == t && (bits % 512 == 0 <==> t == 0)
  {
    var q := 8 * (BLOCK * k + t) / U64;
    var j := k - 0x80_0000_0000_0000 * q;
    assert bits == 512 * j + 8 * t;
    BitsInBlock(k, t);
    BitsInBlock(j, t);
  }

  lemma BitsInBlock(j: int, t: nat)
    requires t < BLOCK
    ensures (512 * j + 8 * t) / 8 == 64 * j + t && (64 * j + t) % 64 == t && (512 * j + 8 * t) % 512 == 8 * t
  {
  }

  lemma MoreBits(n: nat, d: nat, bits: nat)
    requires bits == BitLength(n)
    ensures (bits + 8 * d) % U64 == BitLength(n + d)
  {
    var q := 8 * n / U64;
    assert 8 * (n + d) == bits + 8 * d + U64 * q;
    Wraps(bits + 8 * d, q);
  }

  lemma Wraps(x: nat, q: nat)
    ensures (x + U64 * q) % U64 == x % U64
  {
  }

  // ---------- The context ----------

  class Context {
    const f: Compression
    const init: Digest
    var nBits: nat
    var state: Digest
    var buffer: seq<byte>
    ghost var blocks: nat
    ghost var done: seq<byte>
    ghost var tail: seq<byte>

    /** The message so far. */
    ghost function Message(): seq<byte>
      reads this
    {
      done + tail
    }

    /** Whole blocks have gone into the state, and the rest is in the buffer. */
    ghost predicate Holds()
      reads this
    {
      && |done| == BLOCK * blocks && state == Fold(f, init, done)
      && |buffer| == BLOCK && |tail| < BLOCK && buffer[..|tail|] == tail
    }

    ghost predicate Valid()
      reads this
    {
      Holds() && nBits == BitLength(|Message()|)
    }

    /** md5_init, with the constants it loads. */
    constructor (compression: Compression, constants: Digest)
      ensures Valid() && f == compression && init == constants && Message() == []
    {
      f, init, state := compression, constants, constants;
      nBits, buffer := 0, seq(BLOCK, i => 0);
      blocks, done, tail := 0, [], [];
    }

    /** md5_transform without a result. */
    method Transform(data: seq<byte>, zeroBuffer: bool)
      requires |data| == BLOCK
      modifies this`state, this`buffer
      ensures state == f(old(state), data)
      ensures buffer == if zeroBuffer then seq(BLOCK, i => 0) else old(buffer)
    {
      state := f(state, data);
      if zeroBuffer {
        buffer := seq(BLOCK, i => 0);
      }
    }

    /** The aligned loop of md5_add. */
    method AddBlocks(data: seq<byte>) returns (rest: seq<byte>)
      requires Holds() && tail == [] && |data| >= BLOCK
      modifies this`state, this`buffer, this`blocks, this`done
      ensures Holds() && |rest| < BLOCK && done + rest == old(done) + data
    {
      rest := data;
      while true
        invariant Holds() && |rest| >= BLOCK && done + rest == old(done) + data
        decreases |rest|
      {
        var block, isLast := rest[..BLOCK], |rest| - BLOCK < BLOCK;
        Transform(block, isLast);
        OneMoreBlock(f, init, done, block);
        assert done + rest == (done + block) + rest[BLOCK..];
        done, blocks, rest := done + block, blocks + 1, rest[BLOCK..];
        if isLast {
          break;
        }
      }
    }

    /** The byte loop of md5_add, from index bi of the buffer on. */
    method AddBytes(data: seq<byte>, start: nat)
      requires Holds() && start == |tail|
      modifies this`state, this`buffer, this`blocks, this`done, this`tail
      ensures Holds() && Message() == old(Message()) + data
    {
      var bi: nat, i: nat := start, 0;
      assert Message() + [] == Message();
      while i < |data|
        invariant Holds() && i <= |data| && bi == |tail|
        invariant Message() == old(Message()) + data[..i]
      {
        bi := AddByte(data[i], bi);
        assert data[..i + 1] == data[..i] + [data[i]];
        i := i + 1;
      }
      assert data[..|data|] == data;
    }

    method AddByte(x: byte, bi: nat) returns (bi': nat)
      requires Holds() && bi == |tail|
      modifies this`state, this`buffer, this`blocks, this`done, this`tail
      ensures Holds() && bi' == |tail| && Message() == old(Message()) + [x]
    {
      buffer := buffer[bi := x];
      bi' := bi + 1;
      assert buffer[..bi'] == tail + [x];
      ghost var all := tail + [x];
      assert (done + tail) + [x] == done + all;
      if bi' == BLOCK {
        bi' := 0;
        assert buffer == all;
        OneMoreBlock(f, init, done, all);
        Transform(buffer, true);
        done, tail, blocks := done + all, [], blocks + 1;
        assert done + tail == done;
      } else {
        tail := all;
      }
    }

    /** md5_add, for data at a given address. */
    method Add(data: seq<byte>, address: nat)
      requires Valid()
      modifies this`nBits, this`state, this`buffer, this`blocks, this`done, this`tail
      ensures Valid() && Message() == old(Message()) + data
    {
      if data == [] {
        return;
      }
      var start, isStart := BufferIndex();
      var aligned := address % 4 == 0 && isStart && |data| >= BLOCK;
      AddData(data, start, aligned);
      MoreBits(|old(Message())|, |data|, nBits);
      nBits := (nBits + 8 * |data|) % U64;
    }

    method BufferIndex() returns (start: nat, isStart: bool)
      requires Valid()
      ensures start == |tail| == |Message()| % BLOCK && (isStart <==> tail == [])
    {
      assert |Message()| == BLOCK * blocks + |tail|;
      BlockIndex(blocks, |tail|, nBits);
      start, isStart := nBits / 8 % BLOCK, nBits % 512 == 0;
    }

    /** What it does but count; the index in the buffer is worked out after the aligned loop. */
    method AddData(data: seq<byte>, start: nat, aligned: bool)
      requires Holds() && start == |tail| && (aligned ==> tail == [] && |data| >= BLOCK)
      modifies this`state, this`buffer, this`blocks, this`done, this`tail
      ensures Holds() && Message() == old(Message()) + data
    {
      var rest := data;
      if aligned {
        rest := AddBlocks(data);
        assert done + [] == done && old(done) + [] == old(done);
      }
      AddBytes(rest, start);
    }

    /** md5_finish; the padding is at a given address. */
    method Finish(address: nat) returns (digest: Digest)
      requires Valid()
      modifies this`nBits, this`state, this`buffer, this`blocks, this`done, this`tail
      ensures digest == Fold(f, init, Padded(old(Message()))) && IsDigest(f, init, old(Message()), digest)
    {
      ghost var m := Message();
      var saved := nBits;
      var bi, _ := BufferIndex();
      var padding := PaddingFor(bi, |m|);
      Add(padding, address);
      assert done + tail == m + padding;
      var length := EncodeLength(saved);
      PaddedIs(m, padding, saved, length);
      FullBlock(|m|, blocks, |tail|, padding);
      digest := LastBlock(length);
      PaddedMeans(m);
      nBits, state, buffer := U64 - 1, seq(4, i => U32 - 1), seq(BLOCK, i => 255);
    }

    method LastBlock(length: seq<byte>) returns (digest: Digest)
      requires Holds() && |tail| == BLOCK - 8 && |length| == 8
      modifies this`buffer
      ensures digest == Fold(f, init, (done + tail) + length)
    {
      buffer := buffer[..BLOCK - 8] + length;
      assert buffer == tail + length;
      OneMoreBlock(f, init, done, buffer);
      assert done + buffer == (done + tail) + length;
      digest := f(state, buffer);
    }
  }

  /** As many bytes of the padding as end 8 bytes before the end of a block. */
  method PaddingFor(bi: nat, ghost n: nat) returns (p: seq<byte>)
    requires bi == n % BLOCK
    ensures p == Padding(n)
  {
    var nPad := BLOCK - (bi + 8);
    if nPad <= 0 {
      nPad := nPad + BLOCK;
    }
    p := ([0x80] + seq(BLOCK - 1, i => 0))[..nPad];
  }

  method EncodeLength(bits: nat) returns (s: seq<byte>)
    ensures s == LittleBytes(bits, LengthBytes()) && |s| == 8
  {
    EightBytesInLength();
    s := LittleBytes(bits, 8);
  }

  /** With the padding, the last block lacks the length only. */
  lemma FullBlock(n: nat, k: nat, t: nat, padding: seq<byte>)
    requires padding == Padding(n) && n + |padding| == BLOCK * k + t && t < BLOCK
    ensures t == BLOCK - 8
  {
    FullBlockIndex(n + |padding|, k, t);
  }

  lemma FullBlockIndex(n: nat, k: nat, t: nat)
    requires (n + 8) % BLOCK == 0 && n == BLOCK * k + t && t < BLOCK
    ensures t == BLOCK - 8
  {
  }

  // ---------- Whole messages ----------

  /** Data handed to md5_add: some bytes at some address. */
  datatype Part = Part(address: nat, bytes: seq<byte>)

  function Joined(parts: seq<Part>): seq<byte> {
    if parts == [] then [] else Joined(parts[..|parts| - 1]) + parts[|parts| - 1].bytes
  }

  /** However a message is cut up, and wherever its parts are, the digest is that of the message. */
  method DigestOf(f: Compression, constants: Digest, parts: seq<Part>, address: nat) returns (digest: Digest)
    ensures digest == Fold(f, constants, Padded(Joined(parts))) && IsDigest(f, constants, Joined(parts), digest)
  {
    var c := new Context(f, constants);
    var i: nat := 0;
    assert parts[..0] == [];
    while i < |parts|
      invariant i <= |parts| && c.Valid() && c.Message() == Joined(parts[..i])
    {
      c.Add(parts[i].bytes, parts[i].address);
      assert parts[..i + 1][..i] == parts[..i];
      i := i + 1;
    }
    assert parts[..|parts|] == parts;
    digest := c.Finish(address);
  }
}
