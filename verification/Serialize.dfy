/** Serializing to, and unserializing from, a flat buffer: clib/serialize.h and clib/serialize.c. */
module Serialize {

  import opened Words
  import opened Codes
  import opened Stored
  import opened Pools
  import opened PoolCodes

  const CHUNK: nat := 64

  lemma HighHalf(x: nat)
    requires x < U64
    ensures x / U32 % U32 == x / U32
  {
    assert x / U32 < U32;
  }

  /** The first n halves are in place, and the others are still zero. */
  ghost predicate Filled(b: seq<nat>, ys: seq<nat>, n: nat) {
    |b| == |ys| && forall m {:trigger Open(m)} :: Open(m) ==> FilledTo(b, ys, n / 2, n % 2)
  }

  ghost predicate FilledTo(b: seq<nat>, ys: seq<nat>, q: nat, r: nat)
    requires |b| == |ys|
  {
    && (forall j :: 0 <= j < q && j < |ys| ==> b[j] == ys[j])
    && (forall j :: q < j < |ys| ==> b[j] == 0)
    && (q < |ys| ==> b[q] == if r == 0 then 0 else ys[q] % U32)
  }

  lemma NoneFilled(b: seq<nat>, ys: seq<nat>)
    requires |b| == |ys| && forall j :: 0 <= j < |b| ==> b[j] == 0
    ensures Filled(b, ys, 0)
  {
  }

  lemma AllFilled(b: seq<nat>, ys: seq<nat>)
    requires Filled(b, ys, 2 * |ys|)
    ensures b == ys
  {
    assert Open(0);
  }

  lemma NextFilled(b: seq<nat>, b': seq<nat>, ys: seq<nat>, n: nat, n': nat, data: nat)
    requires n < 2 * |ys| && n' == n + 1 && Filled(b, ys, n) && data == Halves(ys)[n]
    requires b' == if n % 2 == 0 then b[n / 2 := b[n / 2] + data] else b[n / 2 := b[n / 2] + data * U32]
    ensures Filled(b', ys, n')
  {
    var q, r := n / 2, n % 2;
    assert Open(0);
    HalfAt(ys, q);
    assert n == 2 * q + r;
    StepFilled(b, ys, q, r, data);
    if r == 0 {
      assert (n + 1) / 2 == q && (n + 1) % 2 == 1;
    } else {
      assert (n + 1) / 2 == q + 1 && (n + 1) % 2 == 0;
    }
  }

  lemma StepFilled(b: seq<nat>, ys: seq<nat>, q: nat, r: nat, data: nat)
    requires |b| == |ys| && q < |ys| && r < 2 && FilledTo(b, ys, q, r)
    requires data == if r == 0 then ys[q] % U32 else ys[q] / U32
    ensures r == 0 ==> FilledTo(b[q := b[q] + data], ys, q, 1)
    ensures r == 1 ==> FilledTo(b[q := b[q] + data * U32], ys, q + 1, 0)
  {
    assert ys[q] == ys[q] % U32 + ys[q] / U32 * U32;
  }

  lemma WroteVector(was: seq<byte>, i: nat, vec: seq<nat>, now: seq<byte>, j: nat)
    requires Wrote(was, i, VectorBytes(vec, WordBytes()), now, j)
    ensures VectorAt(now, i, vec, 4)
  {
    WroteAt(was, i, VectorBytes(vec, WordBytes()), now, j);
    VectorStored(now, i, vec, WordBytes());
    FourBytesInWord();
  }

  /** A pool is in b at index i: its length and, unless that is 0, the vector of free indices and
      the elements in use. */
  ghost predicate PoolAt(b: seq<byte>, i: nat, elts: seq<nat>, fi: seq<nat>, w: nat) {
    && NetAt(b, i, |elts|, 4)
    && (elts != [] ==>
        VectorAt(b, i + 4, fi, 4) && ElementsAt(b, i + 8 + 4 * |fi|, LiveElts(elts, fi, |elts|), w))
  }

  lemma WrotePool(was: seq<byte>, i: nat, elts: seq<nat>, fi: seq<nat>, w: nat, now: seq<byte>, j: nat)
    requires Wrote(was, i, PoolBytes(elts, fi, w), now, j)
    ensures PoolAt(now, i, elts, fi, w)
  {
    var n := WordBytes();
    var length, indices, live := NetBytes(|elts|, n), VectorBytes(fi, n), LiveElts(elts, fi, |elts|);
    FourBytesInWord();
    WroteAt(was, i, PoolBytes(elts, fi, w), now, j);
    AtBoth(now, i, length, PoolBody(elts, fi, w));
    NetStored(now, i, |elts|, n);
    if elts != [] {
      AtBoth(now, i + n, indices, VecBytes(live, w));
      VectorStored(now, i + n, fi, n);
      VecBytesLength(fi, n);
      ElementsStored(now, i + n + |indices|, live, w);
    }
  }

  /** What one byte at i is read as. */
  lemma OneByteAt(b: seq<byte>, i: nat, a: nat)
    requires i < |b| && a == b[i] && a % 2 == 1
    ensures a / 2 < U64 && At(b, i, SmallBytes(a / 2))
  {
    assert b[i..i + 1] == [b[i]] && SmallBytes(a / 2) == [b[i]];
  }

  /** What the two bytes at i are read as. */
  lemma TwoBytesAt(b: seq<byte>, i: nat, second: byte, x: nat, y: nat)
    requires i + 2 <= |b| && second == b[i + 1] && x == 0x80 + (b[i] as int) / 4 + (second as int) * 64 && y < U64
    ensures x < U64 && (CodeLength(b[i] as int) == 2 ==> At(b, i, SmallBytes(x)))
    ensures |SmallBytes(y)| == 2 && b[i..i + 2] == SmallBytes(y) ==> x == y
  {
    assert b[i..i + 2] == [b[i], second];
    if CodeLength(b[i] as int) == 2 {
      TwoBytesCode(b[i], second);
    }
    if |SmallBytes(y)| == 2 && b[i..i + 2] == SmallBytes(y) {
      TwoBytes(y, b[i], second);
    }
  }

  lemma FourBytesAt(b: seq<byte>, i: nat, p: seq<byte>, x: nat, y: nat)
    requires i + 4 <= |b| && p == b[i + 1..i + 4] && y < U64
    requires x == 0x4080 + (b[i] as int) / 8 + (p[0] as int) * 32 + (p[1] as int) * 0x2000 + (p[2] as int) * 0x20_0000
    ensures x < U64 && (CodeLength(b[i] as int) == 4 ==> At(b, i, SmallBytes(x)))
    ensures |SmallBytes(y)| == 4 && b[i..i + 4] == SmallBytes(y) ==> x == y
  {
    var s := b[i..i + 4];
    assert s == [b[i], p[0], p[1], p[2]];
    if CodeLength(b[i] as int) == 4 {
      FourBytesCode(s);
    }
    if |SmallBytes(y)| == 4 && s == SmallBytes(y) {
      FourBytes(y, s);
    }
  }

  lemma EightBytes()
    ensures Range(8) == U64
  {
    assert Range(4) == U32;
  }

  /** What the n bytes s at i are read as. */
  lemma NumberRead(b: seq<byte>, i: nat, s: seq<byte>, n: nat, y: nat)
    requires i + n <= |b| && |s| == n && s == b[i..i + n]
    ensures NetValue(s) < Range(n) && At(b, i, NetBytes(NetValue(s), n))
    ensures y < Range(n) && At(b, i, NetBytes(y, n)) ==> NetValue(s) == y
  {
    NetInverse(s);
    ReadBack(y, n);
    TakenIs(b, i, NetBytes(y, n), s);
  }

  lemma BytesOf(ys: seq<nat>, n: nat, w: nat)
    ensures n * w >= 0 && (|ys| == n ==> |VecBytes(ys, w)| == n * w)
  {
    VecBytesLength(ys, w);
  }

  class Stream {
    var buffer: seq<byte>
    var index: nat

    predicate Valid()
      reads this
    {
      index <= |buffer|
    }

    constructor (bytes: seq<byte>)
      ensures Valid() && buffer == bytes && index == 0
    {
      buffer, index := bytes, 0;
    }

    /** serialize_get and the stores that follow. */
    method Put(s: seq<byte>) returns (ok: bool)
      requires Valid()
      modifies this
      ensures Valid() && (ok <==> old(index) + |s| <= |old(buffer)|)
      ensures ok ==> Wrote(old(buffer), old(index), s, buffer, index)
      ensures !ok ==> buffer == old(buffer) && index == old(index)
    {
      var j := index + |s|;
      ok := j <= |buffer|;
      if ok {
        buffer := buffer[..index] + s + buffer[j..];
        index := j;
      }
    }

    /** unserialize_get and the loads that follow. */
    method Take(n: nat) returns (ok: bool, s: seq<byte>)
      requires Valid()
      modifies this`index
      ensures Valid() && (ok <==> old(index) + n <= |buffer|)
      ensures ok ==> s == buffer[old(index)..old(index) + n] && |s| == n && index == old(index) + n
      ensures !ok ==> s == [] && index == old(index)
    {
      var j := index + n;
      ok := j <= |buffer|;
      if ok {
        s := buffer[index..j];
        index := j;
      } else {
        s := [];
      }
    }

    // ---------- Integers ----------

    /** serialize_integer. */
    method PutInteger(x: nat, n: nat) returns (ok: bool)
      requires Valid() && n in {1, 2, 4, 8}
      modifies this
      ensures Valid() && (ok <==> old(index) + n <= |old(buffer)|)
      ensures ok ==> Wrote(old(buffer), old(index), NetBytes(x, n), buffer, index) && NetAt(buffer, old(index), x, n)
      ensures !ok ==> buffer == old(buffer) && index == old(index)
    {
      ok := Put(NetBytes(x, n));
      if ok {
        WroteAt(old(buffer), old(index), NetBytes(x, n), buffer, index);
        NetStored(buffer, old(index), x, n);
      }
    }

    /** unserialize_integer. */
    method TakeInteger(n: nat, ghost y: nat) returns (ok: bool, x: nat)
      requires Valid() && n in {1, 2, 4, 8}
      modifies this`index
      ensures Valid() && (ok <==> old(index) + n <= |buffer|)
      ensures ok ==> index == old(index) + n && x < Range(n) && At(buffer, old(index), NetBytes(x, n))
      ensures y < Range(n) && At(buffer, old(index), NetBytes(y, n)) ==> ok && x == y
    {
      var s;
      ok, s := Take(n);
      x := NetValue(s);
      if ok {
        NumberRead(buffer, old(index), s, n, y);
      }
    }

    /** A u32. */
    method PutWord(x: nat) returns (ok: bool)
      requires Valid()
      modifies this
      ensures Valid() && (ok <==> old(index) + WordBytes() <= |old(buffer)|)
      ensures ok ==> Wrote(old(buffer), old(index), NetBytes(x, WordBytes()), buffer, index)
      ensures !ok ==> buffer == old(buffer) && index == old(index)
    {
      FourBytesInWord();
      ok := PutInteger(x, 4);
    }

    method TakeWord(ghost y: nat) returns (ok: bool, x: nat)
      requires Valid()
      modifies this`index
      ensures Valid() && (ok <==> old(index) + WordBytes() <= |buffer|)
      ensures ok ==> index == old(index) + WordBytes() && x < U32 && At(buffer, old(index), NetBytes(x, WordBytes()))
      ensures y < U32 && At(buffer, old(index), NetBytes(y, WordBytes())) ==> ok && x == y
    {
      FourBytesInWord();
      ok, x := TakeInteger(4, y);
    }

    /** serialize_likely_small_unsigned_integer. */
    method PutSmall(x: nat) returns (ok: bool)
      requires Valid() && x < U64
      modifies this
      ensures Valid() && (ok <==> old(index) + |SmallBytes(x)| <= |old(buffer)|)
      ensures ok ==> Wrote(old(buffer), old(index), SmallBytes(x), buffer, index)
      ensures !ok ==> buffer == old(buffer) && index == old(index)
    {
      var r := x;
      if r < 0x80 {
        ok := Put([1 + 2 * r]);
        return;
      }
      r := r - 0x80;
      if r < 0x4000 {
        ok := Put(LittleBytes(4 * r + 2, 2));
        return;
      }
      r := r - 0x4000;
      if r < 0x2000_0000 {
        ok := Put(LittleBytes(8 * r + 4, 4));
        return;
      }
      ok := Put([0] + LittleBytes(x, 8));
    }

    /** unserialize_likely_small_unsigned_integer: whatever number was written is read back, and
        exactly its bytes are used up.  It fails exactly when the code is cut off; and what is read
        could have been written, or stands in nine bytes where fewer would do. */
    method TakeSmall(ghost y: nat) returns (ok: bool, x: nat)
      requires Valid() && y < U64
      modifies this`index
      ensures Valid()
      ensures ok <==> old(index) < |buffer| && old(index) + CodeLength(buffer[old(index)]) <= |buffer|
      ensures ok ==> x < U64 && index == old(index) + CodeLength(buffer[old(index)])
      ensures ok ==> if CodeLength(buffer[old(index)]) < 9 then At(buffer, old(index), SmallBytes(x))
                     else At(buffer, old(index) + 1, LittleBytes(x, 8))
      ensures At(buffer, old(index), SmallBytes(y)) ==> ok && x == y && index == old(index) + |SmallBytes(y)|
    {
      var p;
      ok, p := Take(1);
      if !ok {
        return false, 0;
      }
      assert At(buffer, old(index), SmallBytes(y)) ==> Began(y) && p[0] == SmallBytes(y)[0] by {
        assert Open(0);
      }
      var y0 := p[0] as int;
      FirstByte(y);
      if y0 % 2 == 1 {
        OneByteAt(buffer, index - 1, y0);
        return true, y0 / 2;
      }
      if y0 / 2 % 2 == 1 {
        ok, x := TakeTwo(y0, y);
      } else if y0 / 4 % 2 == 1 {
        ok, x := TakeFour(y0, y);
      } else {
        ok, x := TakeNine(y);
      }
    }

    /** The code of y, or what it would be, began one byte before. */
    ghost predicate Began(y: nat)
      requires y < U64
      reads this
    {
      index > 0 && index - 1 + |SmallBytes(y)| <= |buffer| &&
          buffer[index - 1..index - 1 + |SmallBytes(y)|] == SmallBytes(y)
    }

    /** The rest of a code of two bytes. */
    method TakeTwo(y0: nat, ghost y: nat) returns (ok: bool, x: nat)
      requires Valid() && y < U64 && 0 < index && y0 == buffer[index - 1]
      modifies this`index
      ensures Valid() && (ok <==> old(index) < |buffer|) && (ok ==> x < U64 && index == old(index) + 1)
      ensures ok && CodeLength(y0) == 2 ==> At(buffer, old(index) - 1, SmallBytes(x))
      ensures old(Began(y)) && |SmallBytes(y)| == 2 ==> ok && x == y && index == old(index) + 1
    {
      var p;
      ok, p := Take(1);
      x := 0;
      if ok {
        x := 0x80 + y0 / 4 + (p[0] as int) * 64;
        TwoBytesAt(buffer, index - 2, p[0], x, y);
      }
    }

    /** The rest of a code of four bytes. */
    method TakeFour(y0: nat, ghost y: nat) returns (ok: bool, x: nat)
      requires Valid() && y < U64 && 0 < index && y0 == buffer[index - 1]
      modifies this`index
      ensures Valid() && (ok <==> old(index) + 3 <= |buffer|) && (ok ==> x < U64 && index == old(index) + 3)
      ensures ok && CodeLength(y0) == 4 ==> At(buffer, old(index) - 1, SmallBytes(x))
      ensures old(Began(y)) && |SmallBytes(y)| == 4 ==> ok && x == y && index == old(index) + 3
    {
      var p;
      ok, p := Take(3);
      x := 0;
      if ok {
        x := 0x4080 + y0 / 8 + (p[0] as int) * 32 + (p[1] as int) * 0x2000 + (p[2] as int) * 0x20_0000;
        FourBytesAt(buffer, index - 4, p, x, y);
      }
    }

    /** The rest of a code of nine bytes. */
    method TakeNine(ghost y: nat) returns (ok: bool, x: nat)
      requires Valid() && y < U64 && 0 < index
      modifies this`index
      ensures Valid() && (ok <==> old(index) + 8 <= |buffer|)
      ensures ok ==> x < U64 && index == old(index) + 8 && At(buffer, old(index), LittleBytes(x, 8))
      ensures old(Began(y)) && |SmallBytes(y)| == 9 ==> ok && x == y && index == old(index) + 8
    {
      var p;
      ok, p := Take(8);
      x := LittleValue(p);
      if ok {
        LittleInverse(p);
        EightBytes();
      }
      if old(Began(y)) && |SmallBytes(y)| == 9 {
        NineBytes(y);
        assert p == SmallBytes(y)[1..];
      }
    }

    // ---------- Vectors ----------

    /** serialize_vec_16, _32 and _64: four elements at a time, then one. */
    method PutElements(xs: seq<nat>, w: nat) returns (ok: bool)
      requires Valid()
      modifies this
      ensures Valid() && (ok <==> old(index) + |VecBytes(xs, w)| <= |old(buffer)|)
      ensures ok ==> Wrote(old(buffer), old(index), VecBytes(xs, w), buffer, index)
      ensures !ok ==> buffer == old(buffer) && index == old(index)
    {
      var p: seq<byte> := [];
      var i: nat, n: nat := 0, |xs|;
      while n >= 4
        invariant buffer == old(buffer) && index == old(index)
        invariant i + n == |xs|
        invariant p == VecBytes(xs[..i], w)
        decreases n
      {
        FourElements(xs, i, w);
        p := p + NetBytes(xs[i], w) + NetBytes(xs[i + 1], w) + NetBytes(xs[i + 2], w) + NetBytes(xs[i + 3], w);
        i, n := i + 4, n - 4;
      }
      while n >= 1
        invariant buffer == old(buffer) && index == old(index)
        invariant i + n == |xs|
        invariant p == VecBytes(xs[..i], w)
        decreases n
      {
        VecBytesNext(xs, i, w);
        p := p + NetBytes(xs[i], w);
        i, n := i + 1, n - 1;
      }
      assert xs[..i] == xs;
      ok := Put(p);
    }

    /** unserialize_vec_16, _32 and _64. */
    method TakeElements(n: nat, w: nat, ghost ys: seq<nat>) returns (ok: bool, xs: seq<nat>)
      requires Valid()
      modifies this`index
      ensures Valid() && (ok <==> old(index) + n * w <= |buffer|)
      ensures ok ==> |xs| == n && Read(buffer, old(index), xs, w, index)
      ensures |ys| == n && Fit(ys, w) && At(buffer, old(index), VecBytes(ys, w)) ==>
                ok && xs == ys && index == old(index) + |VecBytes(ys, w)|
    {
      var p;
      ghost var s := VecBytes(ys, w);
      BytesOf(ys, n, w);
      ok, p := Take(n * w);
      xs := [];
      if ok {
        TakenIs(buffer, old(index), s, p);
        xs := ReadElements(p, n, w, ys);
        ReadIs(buffer, old(index), xs, w, p, index);
      }
    }

    /** The elements stored in p. */
    method ReadElements(p: seq<byte>, n: nat, w: nat, ghost ys: seq<nat>) returns (xs: seq<nat>)
      requires |p| == n * w
      ensures |xs| == n && Fit(xs, w) && p == VecBytes(xs, w)
      ensures |ys| == n && Fit(ys, w) && p == VecBytes(ys, w) ==> xs == ys
    {
      xs := [];
      var q, left: nat := p, n;
      assert VecBytes([], w) + q == p;
      while left >= 1
        invariant |xs| + left == n && |q| == left * w && Fit(xs, w) && p == VecBytes(xs, w) + q
        decreases left
      {
        NextElement(p, xs, q, w, left);
        xs := xs + [NetValue(q[..w])];
        q := q[w..];
        left := left - 1;
      }
      assert q == [] && VecBytes(xs, w) + [] == VecBytes(xs, w);
      if |ys| == n && Fit(ys, w) && p == VecBytes(ys, w) {
        VecBytesInjective(xs, ys, w);
      }
    }

    /** The elements from k to k', which complete the bytes done. */
    method PutPart(xs: seq<nat>, w: nat, ghost was: seq<byte>, ghost i0: nat, ghost done: seq<byte>,
                   ghost vec: seq<nat>, ghost k: nat, ghost k': nat, ghost total: seq<byte>)
      returns (ok: bool, ghost done': seq<byte>)
      requires Valid() && Wrote(was, i0, done, buffer, index)
      requires k <= k' <= |vec| && xs == vec[k..k'] && Left(done, vec, k, w, total)
      modifies this
      ensures Valid()
      ensures ok ==> Wrote(was, i0, done', buffer, index) && Left(done', vec, k', w, total)
      ensures !ok ==> i0 + |total| > |was|
    {
      ghost var before := buffer;
      done' := done + VecBytes(xs, w);
      NextLeft(done, vec, k, k', w, total);
      ok := PutElements(xs, w);
      if ok {
        WroteBoth(was, i0, done, before, old(index), VecBytes(xs, w), buffer, index);
      }
    }

    /** The elements from k to k'. */
    method TakePart(n: nat, w: nat, ghost ys: seq<nat>, ghost k: nat, ghost k': nat, ghost end: nat, ghost good: bool)
      returns (ok: bool, xs: seq<nat>)
      requires Valid()
      requires good ==> k + n == k' <= |ys| && ToCome(buffer, index, ys, k, w, end)
      modifies this`index
      ensures Valid() && (ok <==> old(index) + n * w <= |buffer|)
      ensures ok ==> |xs| == n && Read(buffer, old(index), xs, w, index)
      ensures good ==> ok && xs == ys[k..k'] && ToCome(buffer, index, ys, k', w, end)
    {
      ghost var chunk := [];
      if good {
        NextToCome(buffer, index, ys, k, k', w, end);
        chunk := ys[k..k'];
      }
      ok, xs := TakeElements(n, w, chunk);
    }

    /** serialize_vector: in chunks, which leave no trace. */
    method PutVector(vec: seq<nat>, w: nat) returns (ok: bool)
      requires Valid() && |vec| < U32
      modifies this
      ensures Valid() && (ok <==> old(index) + |VectorBytes(vec, w)| <= |old(buffer)|)
      ensures ok ==> Wrote(old(buffer), old(index), VectorBytes(vec, w), buffer, index)
      ensures ok ==> VectorAt(buffer, old(index), vec, w)
    {
      ok := PutWord(|vec|);
      if ok {
        ok := PutChunks(vec, w, old(buffer), old(index), NetBytes(|vec|, WordBytes()));
      }
      if ok {
        WroteAt(old(buffer), old(index), VectorBytes(vec, w), buffer, index);
        VectorStored(buffer, old(index), vec, w);
      }
    }

    /** The loop over the chunks. */
    method PutChunks(vec: seq<nat>, w: nat, ghost was: seq<byte>, ghost i0: nat, ghost head: seq<byte>)
      returns (ok: bool)
      requires Valid() && Wrote(was, i0, head, buffer, index)
      modifies this
      ensures Valid() && (ok <==> i0 + |head| + |VecBytes(vec, w)| <= |was|)
      ensures ok ==> Wrote(was, i0, head + VecBytes(vec, w), buffer, index)
    {
      var l: nat, p: nat := |vec|, 0;
      ghost var done, total := head, head + VecBytes(vec, w);
      ok := true;
      AllLeft(head, vec, w);
      while l != 0
        invariant Valid() && ok && l <= |vec| && (l != 0 ==> p + l == |vec|)
        invariant Wrote(was, i0, done, buffer, index) && Left(done, vec, |vec| - l, w, total)
        decreases l
      {
        var n: nat := if l < CHUNK then l else CHUNK;
        ghost var k, k' := |vec| - l, |vec| - (l - n);
        ok, done := PutPart(vec[p..p + n], w, was, i0, done, vec, k, k', total);
        if !ok {
          return;
        }
        l, p := l - n, p + CHUNK;
      }
      assert |vec| - l == |vec|;
      NoneLeft(done, vec, w, total);
    }

    /** unserialize_vector_ha: whatever vector was written is read back, and what is read could have
        been written. */
    method TakeVector(w: nat, maxLength: nat, ghost ys: seq<nat>) returns (ok: bool, xs: seq<nat>)
      requires Valid() && |ys| < U32
      modifies this`index
      ensures Valid()
      ensures ok ==>
                && |xs| <= maxLength && |xs| < U32 && Fit(xs, w) && At(buffer, old(index), VectorBytes(xs, w))
                && index == old(index) + |VectorBytes(xs, w)|
      ensures Fit(ys, w) && |ys| <= maxLength && At(buffer, old(index), VectorBytes(ys, w)) ==>
                ok && xs == ys && index == old(index) + |VectorBytes(ys, w)|
    {
      ghost var good := Fit(ys, w) && |ys| <= maxLength && At(buffer, index, VectorBytes(ys, w));
      if good {
        AtBoth(buffer, index, NetBytes(|ys|, WordBytes()), VecBytes(ys, w));
      }
      var l: nat;
      ok, l := TakeWord(|ys|);
      xs := [];
      if !ok {
        return;
      }
      if l > maxLength {
        return false, [];
      }
      ghost var j := index;
      ok, xs := TakeChunks(l, w, ys, good);
      if ok {
        WholeVector(old(index), j, xs, w);
      }
    }

    lemma WholeVector(i: nat, j: nat, xs: seq<nat>, w: nat)
      requires At(buffer, i, NetBytes(|xs|, WordBytes())) && j == i + WordBytes() && Read(buffer, j, xs, w, index)
      ensures Fit(xs, w) && At(buffer, i, VectorBytes(xs, w)) && index == i + |VectorBytes(xs, w)|
    {
      assert Open(0);
      VecBytesLength(xs, w);
      AtJoined(buffer, i, NetBytes(|xs|, WordBytes()), VecBytes(xs, w));
    }

    /** The loop over the chunks. */
    method TakeChunks(n: nat, w: nat, ghost ys: seq<nat>, ghost good: bool) returns (ok: bool, xs: seq<nat>)
      requires Valid()
      requires good ==> Fit(ys, w) && n == |ys| && At(buffer, index, VecBytes(ys, w))
      modifies this`index
      ensures Valid() && (ok <==> old(index) + n * w <= |buffer|)
      ensures ok ==> |xs| == n && Read(buffer, old(index), xs, w, index)
      ensures good ==> ok && xs == ys && index == old(index) + |VecBytes(ys, w)|
    {
      var l: nat := n;
      ghost var end := index + |VecBytes(ys, w)|;
      ok, xs := true, [];
      if good {
        AllToCome(buffer, index, ys, w);
      }
      ReadNothing(buffer, index, w);
      while l != 0
        invariant Valid() && ok && |xs| + l == n && Read(buffer, old(index), xs, w, index)
        invariant good ==> xs == ys[..|xs|] && ToCome(buffer, index, ys, |xs|, w, end)
        decreases l
      {
        var c: nat := if l < CHUNK then l else CHUNK;
        var part;
        ghost var k, k' := |xs|, |xs| + c;
        ghost var j := index;
        ok, part := TakePart(c, w, ys, k, k', end, good);
        if !ok {
          TooShort(old(index), xs, j, c, n, w);
          return;
        }
        ReadMore(buffer, old(index), xs, j, part, index, w);
        xs := xs + part;
        assert |xs| == k';
        assert good ==> xs == ys[..k'];
        l := l - c;
      }
      EnoughRead(old(index), xs, w);
      if good {
        assert |xs| == |ys|;
        NoneToCome(buffer, index, ys, w, end);
      }
    }

    /** When there is no room for a chunk there is none for all. */
    lemma TooShort(i: nat, xs: seq<nat>, j: nat, c: nat, n: nat, w: nat)
      requires Read(buffer, i, xs, w, j) && |xs| + c <= n && j + c * w > |buffer|
      ensures i + n * w > |buffer|
    {
      assert Open(0);
      VecBytesLength(xs, w);
      PartOfAll(|xs|, c, n, w);
    }

    lemma EnoughRead(i: nat, xs: seq<nat>, w: nat)
      requires Read(buffer, i, xs, w, index)
      ensures i + |xs| * w == index <= |buffer|
    {
      assert Open(0);
      VecBytesLength(xs, w);
    }

    // ---------- Bitmaps ----------

    /** serialize_bitmap */
    method PutBitmap(words: seq<nat>) returns (ok: bool)
      requires Valid() && 2 * |words| < U32 && forall i :: 0 <= i < |words| ==> words[i] < U64
      modifies this
      ensures Valid() && (ok <==> old(index) + |VectorBytes(Halves(words), WordBytes())| <= |old(buffer)|)
      ensures ok ==> Wrote(old(buffer), old(index), VectorBytes(Halves(words), WordBytes()), buffer, index)
      ensures ok ==> VectorAt(buffer, old(index), Halves(words), 4)
    {
      ok := PutWord(2 * |words|);
      if !ok {
        return;
      }
      ghost var h, done := Halves(words), NetBytes(2 * |words|, WordBytes());
      ghost var total := done + VecBytes(h, WordBytes());
      AllLeft(done, h, WordBytes());
      var i: nat := 0;
      while i < |words|
        invariant Valid() && ok && i <= |words|
        invariant Wrote(old(buffer), old(index), done, buffer, index)
        invariant Left(done, h, 2 * i, WordBytes(), total)
      {
        HalfAt(words, i);
        HighHalf(words[i]);
        ghost var j: nat, k: nat := 2 * i + 1, 2 * (i + 1);
        ok, done := PutHalf(words[i], old(buffer), old(index), done, h, 2 * i, j, total);
        if !ok {
          return;
        }
        ok, done := PutHalf(words[i] / U32, old(buffer), old(index), done, h, j, k, total);
        if !ok {
          return;
        }
        i := i + 1;
      }
      assert 2 * i == |h|;
      NoneLeft(done, h, WordBytes(), total);
      WroteVector(old(buffer), old(index), h, buffer, index);
    }

    /** The low 32 bits of x, which are element k. */
    method PutHalf(x: nat, ghost was: seq<byte>, ghost i0: nat, ghost done: seq<byte>,
                   ghost h: seq<nat>, ghost k: nat, ghost k': nat, ghost total: seq<byte>)
      returns (ok: bool, ghost done': seq<byte>)
      requires Valid() && Wrote(was, i0, done, buffer, index)
      requires k + 1 == k' <= |h| && x % U32 == h[k] && Left(done, h, k, WordBytes(), total)
      modifies this
      ensures Valid()
      ensures ok ==> Wrote(was, i0, done', buffer, index) && Left(done', h, k', WordBytes(), total)
      ensures !ok ==> i0 + |total| > |was|
    {
      ghost var before := buffer;
      ghost var s := NetBytes(x, WordBytes());
      assert h[k..k'] == [x % U32];
      OneWord(x);
      NextLeft(done, h, k, k', WordBytes(), total);
      done' := done + s;
      ok := PutWord(x);
      if ok {
        WroteBoth(was, i0, done, before, old(index), s, buffer, index);
      }
    }

    /** unserialize_bitmap: into words that are zero to begin with. */
    method TakeBitmap(ghost ys: seq<nat>) returns (ok: bool, b: seq<nat>)
      requires Valid() && 2 * |ys| < U32
      modifies this`index
      ensures Valid()
      ensures (forall i :: 0 <= i < |ys| ==> ys[i] < U64) &&
              At(buffer, old(index), VectorBytes(Halves(ys), WordBytes())) ==>
                ok && b == ys && index == old(index) + |VectorBytes(Halves(ys), WordBytes())|
    {
      ghost var h := Halves(ys);
      ghost var good := (forall i :: 0 <= i < |ys| ==> ys[i] < U64) && At(buffer, index, VectorBytes(h, WordBytes()));
      if good {
        AtBoth(buffer, index, NetBytes(|h|, WordBytes()), VecBytes(h, WordBytes()));
        HalvesFit(ys);
      }
      var n: nat;
      ok, n := TakeWord(|h|);
      b := [];
      if ok {
        ok, b := TakeHalves(n, ys, good);
      }
    }

    method TakeHalves(n: nat, ghost ys: seq<nat>, ghost good: bool) returns (ok: bool, b: seq<nat>)
      requires Valid()
      requires good ==>
               n == |Halves(ys)| && Fit(Halves(ys), WordBytes()) && At(buffer, index, VecBytes(Halves(ys), WordBytes()))
      modifies this`index
      ensures Valid()
      ensures good ==> ok && b == ys && index == old(index) + |VecBytes(Halves(ys), WordBytes())|
    {
      ghost var h := Halves(ys);
      ghost var end := index + |VecBytes(h, WordBytes())|;
      b := seq((4 * n + 7) / 8, i => 0);
      ok := true;
      if good {
        NoneFilled(b, ys);
        AllToCome(buffer, index, h, WordBytes());
      }
      var i: nat := 0;
      while i < n
        invariant Valid() && ok && i <= n && |b| == (4 * n + 7) / 8
        invariant good ==> ToCome(buffer, index, h, i, WordBytes(), end)
        invariant good ==> Filled(b, ys, i)
      {
        var data;
        ghost var i': nat := i + 1;
        ok, data := TakeHalf(h, i, i', end, good);
        if !ok {
          return;
        }
        ghost var was := b;
        b := if i % 2 == 0 then b[i / 2 := b[i / 2] + data] else b[i / 2 := b[i / 2] + data * U32];
        if good {
          NextFilled(was, b, ys, i, i', data);
        }
        i := i + 1;
      }
      if good {
        assert i == |h| && i == 2 * |ys|;
        NoneToCome(buffer, index, h, WordBytes(), end);
        AllFilled(b, ys);
      }
    }

    method TakeHalf(ghost h: seq<nat>, ghost k: nat, ghost k': nat, ghost end: nat, ghost good: bool)
      returns (ok: bool, x: nat)
      requires Valid()
      requires good ==> k + 1 == k' <= |h| && ToCome(buffer, index, h, k, WordBytes(), end)
      modifies this`index
      ensures Valid()
      ensures good ==> ok && x == h[k] && ToCome(buffer, index, h, k', WordBytes(), end)
    {
      ghost var y := 0;
      if good {
        y := h[k];
        NextToCome(buffer, index, h, k, k', WordBytes(), end);
        assert h[k..k'] == [y];
        VecBytesOne(y, WordBytes());
        FourBytesInWord();
        assert [y][0] < U32;
      }
      ok, x := TakeWord(y);
    }

    // ---------- Pools ----------

    /** serialize_pool */
    method PutPool(elts: seq<nat>, freeBitmap: seq<Word>, freeIndices: seq<nat>, w: nat) returns (ok: bool)
      requires Valid() && |elts| < U32 && |freeIndices| < U32
      requires GoodIndices(freeIndices, |elts|) && Marks(freeBitmap, freeIndices)
      modifies this
      ensures Valid() && (ok <==> old(index) + |PoolBytes(elts, freeIndices, w)| <= |old(buffer)|)
      ensures ok ==> Wrote(old(buffer), old(index), PoolBytes(elts, freeIndices, w), buffer, index)
      ensures ok ==> PoolAt(buffer, old(index), elts, freeIndices, w)
    {
      var l := |elts|;
      ok := PutWord(l);
      ghost var head := NetBytes(l, WordBytes());
      if !ok {
        return;
      }
      if l == 0 {
        assert head + [] == head;
        WrotePool(old(buffer), old(index), elts, freeIndices, w, buffer, index);
        return;
      }
      ghost var between, j, indices := buffer, index, VectorBytes(freeIndices, WordBytes());
      ok := PutIndices(freeIndices);
      if !ok {
        return;
      }
      WroteBoth(old(buffer), old(index), head, between, j, indices, buffer, index);
      var rs := RegionsOf(freeBitmap, l);
      ghost var live := LiveElts(elts, freeIndices, l);
      NoneVisited(elts, freeIndices, rs);
      ok := PutRegions(elts, freeIndices, freeBitmap, rs, w, old(buffer), old(index), head + indices, live);
      Associates(head, indices, VecBytes(live, w));
      if ok {
        WrotePool(old(buffer), old(index), elts, freeIndices, w, buffer, index);
      }
    }

    method PutIndices(freeIndices: seq<nat>) returns (ok: bool)
      requires Valid() && |freeIndices| < U32
      modifies this
      ensures Valid() && (ok <==> old(index) + |VectorBytes(freeIndices, WordBytes())| <= |old(buffer)|)
      ensures ok ==> Wrote(old(buffer), old(index), VectorBytes(freeIndices, WordBytes()), buffer, index)
    {
      FourBytesInWord();
      ok := PutVector(freeIndices, 4);
    }

    /** The body of pool_foreach_region. */
    method PutRegions(elts: seq<nat>, ghost fi: seq<nat>, ghost b: seq<Word>, rs: seq<Region>, w: nat,
                      ghost was: seq<byte>, ghost i0: nat, ghost head: seq<byte>, ghost live: seq<nat>)
                        returns (ok: bool)
      requires Valid() && Wrote(was, i0, head, buffer, index)
      requires Listed(rs, b, fi, |elts|) && Visited(elts, fi, rs, 0, live, 0)
      modifies this
      ensures Valid() && (ok <==> i0 + |head| + |VecBytes(live, w)| <= |was|)
      ensures ok ==> Wrote(was, i0, head + VecBytes(live, w), buffer, index)
    {
      ok := true;
      ghost var done, total := head, head + VecBytes(live, w);
      AllLeft(head, live, w);
      var k: nat := 0;
      ghost var m: nat := 0;
      while k < |rs|
        invariant Valid() && ok && k <= |rs|
        invariant Visited(elts, fi, rs, k, live, m)
        invariant Wrote(was, i0, done, buffer, index) && Left(done, live, m, w, total)
      {
        InRange(rs, b, fi, |elts|, k);
        ghost var m': nat := m + (rs[k].hi - rs[k].lo);
        RegionElts(elts, fi, b, rs, k, live, m, m');
        ok, done := PutPart(elts[rs[k].lo..rs[k].hi], w, was, i0, done, live, m, m', total);
        if !ok {
          return;
        }
        k, m := k + 1, m';
      }
      assert k == |rs|;
      AllVisited(elts, fi, b, rs, live, m);
      NoneLeft(done, live, w, total);
    }

    /** unserialize_pool: the elements in use are the same, and so are the free indices, in the same
        order. The others hold whatever is in the new memory. */
    method TakePool(w: nat, raw: nat -> nat, ghost ys: seq<nat>, ghost fi: seq<nat>)
      returns (ok: bool, elts: seq<nat>, freeBitmap: seq<Word>, freeIndices: seq<nat>)
      requires Valid() && |ys| < U32 && |fi| < U32
      modifies this`index
      ensures Valid()
      ensures Fit(ys, w) && GoodIndices(fi, |ys|) && At(buffer, old(index), PoolBytes(ys, fi, w)) ==>
                && ok && index == old(index) + |PoolBytes(ys, fi, w)|
                && SameLive(elts, ys, fi) && freeIndices == fi && Marks(freeBitmap, fi)
    {
      ghost var head := NetBytes(|ys|, WordBytes());
      ghost var good := Fit(ys, w) && GoodIndices(fi, |ys|) && At(buffer, index, PoolBytes(ys, fi, w));
      if good {
        AtBoth(buffer, index, head, PoolBody(ys, fi, w));
      }
      var l: nat;
      elts, freeBitmap, freeIndices := [], [], [];
      ok, l := TakeWord(|ys|);
      NoIndices(fi);
      if ok && l != 0 {
        assert good ==> index == old(index) + |head|;
        ok, elts, freeBitmap, freeIndices := TakeBody(l, w, raw, ys, fi, good);
      }
    }

    method TakeBody(l: nat, w: nat, raw: nat -> nat, ghost ys: seq<nat>, ghost fi: seq<nat>, ghost good: bool)
      returns (ok: bool, elts: seq<nat>, freeBitmap: seq<Word>, freeIndices: seq<nat>)
      requires Valid() && l > 0 && |ys| < U32 && |fi| < U32
      requires good ==> |ys| == l && Fit(ys, w) && GoodIndices(fi, l) && At(buffer, index, PoolBody(ys, fi, w))
      modifies this`index
      ensures Valid()
      ensures good ==>
                && ok && index == old(index) + |PoolBody(ys, fi, w)|
                && SameLive(elts, ys, fi) && freeIndices == fi && Marks(freeBitmap, fi)
    {
      ghost var f, r := VectorBytes(fi, WordBytes()), VecBytes(LiveElts(ys, fi, |ys|), w);
      if good {
        AtBoth(buffer, index, f, r);
      }
      ghost var j := index + |f|;
      elts, freeBitmap := [], [];
      ok, freeIndices := TakeIndices(fi, |ys|);
      if ok {
        if good {
          assert index == j && LiveElts(ys, freeIndices, l) == LiveElts(ys, fi, |ys|);
        }
        ok, elts, freeBitmap := TakeLive(l, freeIndices, w, raw, ys, good);
      }
    }

    method TakeIndices(ghost fi: seq<nat>, ghost n: nat) returns (ok: bool, freeIndices: seq<nat>)
      requires Valid() && n < U32 && |fi| < U32
      modifies this`index
      ensures Valid()
      ensures GoodIndices(fi, n) && At(buffer, old(index), VectorBytes(fi, WordBytes())) ==>
                ok && freeIndices == fi && index == old(index) + |VectorBytes(fi, WordBytes())|
    {
      FourBytesInWord();
      if GoodIndices(fi, n) {
        IndicesFit(fi, n);
      }
      ok, freeIndices := TakeVector(4, 0xffff_ffff, fi);
    }

    /** The elements in use, once the length and the free indices are known. */
    method TakeLive(l: nat, indices: seq<nat>, w: nat, raw: nat -> nat, ghost ys: seq<nat>, ghost good: bool)
      returns (ok: bool, elts: seq<nat>, b: seq<Word>)
      requires Valid()
      requires good ==>
               |ys| == l && Fit(ys, w) && GoodIndices(indices, l) &&
               At(buffer, index, VecBytes(LiveElts(ys, indices, l), w))
      modifies this`index
      ensures Valid()
      ensures good ==>
                && ok && index == old(index) + |VecBytes(LiveElts(ys, indices, l), w)|
                && SameLive(elts, ys, indices) && Marks(b, indices)
    {
      elts := seq(l, i requires 0 <= i < l => raw(i));
      b := MarkAll(indices);
      if exists k :: 0 <= k < |indices| && indices[k] >= l {
        return false, elts, b;
      }
      var rs := RegionsOf(b, l);
      ghost var live := [];
      if good {
        live := LiveElts(ys, indices, l);
        LiveFit(ys, indices, l, w);
        NoneVisited(ys, indices, rs);
      }
      ok, elts := TakeRegions(elts, indices, b, rs, w, ys, live, good);
    }

    /** The body of pool_foreach_region. */
    method TakeRegions(raw: seq<nat>, ghost fi: seq<nat>, ghost b: seq<Word>, rs: seq<Region>, w: nat,
                       ghost ys: seq<nat>,
                       ghost live: seq<nat>, ghost good: bool)
      returns (ok: bool, elts: seq<nat>)
      requires Valid() && Listed(rs, b, fi, |raw|)
      requires good ==>
               |ys| == |raw| && Fit(live, w) && Visited(ys, fi, rs, 0, live, 0) && At(buffer, index, VecBytes(live, w))
      modifies this`index
      ensures Valid() && |elts| == |raw|
      ensures good ==> ok && SameLive(elts, ys, fi) && index == old(index) + |VecBytes(live, w)|
    {
      ok, elts := true, raw;
      ghost var end := index + |VecBytes(live, w)|;
      if good {
        AllToCome(buffer, index, live, w);
      }
      var k: nat := 0;
      ghost var m: nat := 0;
      while k < |rs|
        invariant Valid() && k <= |rs| && ok && |elts| == |raw|
        invariant good ==> Visited(ys, fi, rs, k, live, m)
        invariant good ==> ToCome(buffer, index, live, m, w, end)
        invariant good ==> SameTo(elts, ys, rs, k)
      {
        ok, elts, m := TakeRegion(elts, fi, b, rs, k, w, ys, live, m, end, good);
        if !ok {
          return;
        }
        k := k + 1;
      }
      assert k == |rs|;
      if good {
        AllVisited(ys, fi, b, rs, live, m);
        NoneToCome(buffer, index, live, w, end);
        SameAll(elts, ys, fi, rs, b);
      }
    }

    method TakeRegion(raw: seq<nat>, ghost fi: seq<nat>, ghost b: seq<Word>, rs: seq<Region>, k: nat, w: nat,
                      ghost ys: seq<nat>, ghost live: seq<nat>, ghost m: nat, ghost end: nat, ghost good: bool)
      returns (ok: bool, elts: seq<nat>, ghost m': nat)
      requires Valid() && k < |rs| && Listed(rs, b, fi, |raw|)
      requires good ==> Visited(ys, fi, rs, k, live, m)
      requires good ==> ToCome(buffer, index, live, m, w, end) && SameTo(raw, ys, rs, k)
      modifies this`index
      ensures Valid() && |elts| == |raw|
      ensures good ==> ok && Visited(ys, fi, rs, k + 1, live, m')
      ensures good ==> ToCome(buffer, index, live, m', w, end) && SameTo(elts, ys, rs, k + 1)
    {
      var lo, hi := rs[k].lo, rs[k].hi;
      InRange(rs, b, fi, |raw|, k);
      m', elts := m + (hi - lo), raw;
      if good {
        RegionElts(ys, fi, b, rs, k, live, m, m');
        SameNext(raw, ys, rs, k);
      }
      var part;
      ok, part := TakePart(hi - lo, w, live, m, m', end, good);
      if ok {
        elts := raw[..lo] + part + raw[hi..];
      }
    }
  }
}
