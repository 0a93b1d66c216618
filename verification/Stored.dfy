/** Bytes stored in a buffer.  What the predicates here say of slices is seen only by proofs that
    mention Open.
 */
module Stored {

  import opened Words
  import opened Codes

  /** The bytes s are in b at index i. */
  ghost predicate At(b: seq<byte>, i: nat, s: seq<byte>) {
    i + |s| <= |b| && forall k {:trigger Open(k)} :: Open(k) ==> b[i..i + |s|] == s
  }

  /** The bytes s were stored in was at index i, which gave now; the index after them is j. */
  ghost predicate Wrote(was: seq<byte>, i: nat, s: seq<byte>, now: seq<byte>, j: nat) {
    && j == i + |s| <= |was| == |now|
    && forall k {:trigger Open(k)} :: Open(k) ==> now == was[..i] + s + was[j..]
  }

  /** What has been written can be read where it was written. */
  lemma WroteAt(was: seq<byte>, i: nat, s: seq<byte>, now: seq<byte>, j: nat)
    requires Wrote(was, i, s, now, j)
    ensures At(now, i, s)
  {
    assert Open(0);
  }

  lemma WroteNothing(was: seq<byte>, i: nat)
    requires i <= |was|
    ensures Wrote(was, i, [], was, i)
  {
    assert was == was[..i] + [] + was[i..];
  }

  /** Two writes in a row are one. */
  lemma WroteBoth(was: seq<byte>, i: nat, s: seq<byte>, between: seq<byte>, j: nat, t: seq<byte>, now: seq<byte>,
                  k: nat)
    requires Wrote(was, i, s, between, j) && Wrote(between, j, t, now, k)
    ensures Wrote(was, i, s + t, now, k)
  {
    assert Open(0);
    assert between[..j] == was[..i] + s;
    assert between[k..] == was[k..];
  }

  /** Of bytes in two parts, the second is after the first. */
  lemma AtBoth(b: seq<byte>, i: nat, s: seq<byte>, t: seq<byte>)
    requires At(b, i, s + t)
    ensures At(b, i, s) && At(b, i + |s|, t)
  {
    assert Open(0);
    var u := b[i..i + |s + t|];
    assert u[..|s|] == s && u[|s|..] == t;
    assert b[i..i + |s|] == u[..|s|];
    assert b[i + |s|..i + |s| + |t|] == u[|s|..];
  }

  /** Bytes after bytes are there together. */
  lemma AtJoined(b: seq<byte>, i: nat, s: seq<byte>, t: seq<byte>)
    requires At(b, i, s) && At(b, i + |s|, t)
    ensures At(b, i, s + t)
  {
    assert Open(0);
    assert b[i..i + |s + t|] == b[i..i + |s|] + b[i + |s|..i + |s| + |t|];
  }

  // ---------- Byte by byte ----------

  /** The n low bytes of x are in b at index i, the highest first. */
  ghost predicate NetAt(b: seq<byte>, i: nat, x: nat, n: nat) {
    i + n <= |b| && forall k {:trigger NetByte(x, n, k)} :: 0 <= k < n ==> b[i + k] == NetByte(x, n, k)
  }

  /** Elements of w bytes each are in b from index i on. */
  ghost predicate ElementsAt(b: seq<byte>, i: nat, xs: seq<nat>, w: nat) {
    forall j :: 0 <= j < |xs| ==> j * w >= 0 && NetAt(b, i + j * w, xs[j], w)
  }

  /** So is a vector: its length as a u32, and its elements. */
  ghost predicate VectorAt(b: seq<byte>, i: nat, vec: seq<nat>, w: nat) {
    NetAt(b, i, |vec|, 4) && ElementsAt(b, i + 4, vec, w)
  }

  lemma NetStored(b: seq<byte>, i: nat, x: nat, n: nat)
    requires At(b, i, NetBytes(x, n))
    ensures NetAt(b, i, x, n)
  {
    assert Open(0);
    forall k {:trigger NetByte(x, n, k)} | 0 <= k < n ensures b[i + k] == NetByte(x, n, k) {
      NetByteAt(x, n, k);
      assert b[i..i + n][k] == b[i + k];
    }
  }

  lemma {:induction false} ElementsStored(b: seq<byte>, i: nat, xs: seq<nat>, w: nat)
    requires At(b, i, VecBytes(xs, w))
    ensures ElementsAt(b, i, xs, w)
  {
    if xs != [] {
      var n := |xs| - 1;
      var front, x := xs[..n], xs[n];
      AtBoth(b, i, VecBytes(front, w), NetBytes(x, w));
      VecBytesLength(front, w);
      NetStored(b, i + |VecBytes(front, w)|, x, w);
      ElementsStored(b, i, front, w);
      forall j | 0 <= j < |xs| ensures j * w >= 0 && NetAt(b, i + j * w, xs[j], w) {
        assert j < n ==> xs[j] == front[j];
      }
    }
  }

  lemma VectorStored(b: seq<byte>, i: nat, vec: seq<nat>, w: nat)
    requires At(b, i, VectorBytes(vec, w))
    ensures VectorAt(b, i, vec, w)
  {
    FourBytesInWord();
    AtBoth(b, i, NetBytes(|vec|, WordBytes()), VecBytes(vec, w));
    NetStored(b, i, |vec|, WordBytes());
    ElementsStored(b, i + WordBytes(), vec, w);
  }

  // ---------- Elements ----------

  /** The elements from k on complete the bytes done. */
  ghost predicate Left(done: seq<byte>, vec: seq<nat>, k: nat, w: nat, total: seq<byte>) {
    k <= |vec| && forall m {:trigger Open(m)} :: Open(m) ==> total == done + VecBytes(vec[k..], w)
  }

  lemma AllLeft(head: seq<byte>, vec: seq<nat>, w: nat)
    ensures Left(head, vec, 0, w, head + VecBytes(vec, w))
  {
    assert vec[0..] == vec;
  }

  lemma NextLeft(done: seq<byte>, vec: seq<nat>, k: nat, k': nat, w: nat, total: seq<byte>)
    requires k <= k' <= |vec| && Left(done, vec, k, w, total)
    ensures Left(done + VecBytes(vec[k..k'], w), vec, k', w, total)
    ensures |done| + |VecBytes(vec[k..k'], w)| <= |total|
  {
    assert Open(0);
    RestParts(vec, k, k', w);
    Associates(done, VecBytes(vec[k..k'], w), VecBytes(vec[k'..], w));
  }

  lemma NoneLeft(done: seq<byte>, vec: seq<nat>, w: nat, total: seq<byte>)
    requires Left(done, vec, |vec|, w, total)
    ensures done == total
  {
    assert Open(0);
    assert vec[|vec|..] == [];
  }

  /** The elements from k on are at index i, and end at index end. */
  ghost predicate ToCome(b: seq<byte>, i: nat, ys: seq<nat>, k: nat, w: nat, end: nat) {
    k <= |ys| && forall m {:trigger Open(m)} :: Open(m) ==>
      Fit(ys, w) && i + |VecBytes(ys[k..], w)| == end && At(b, i, VecBytes(ys[k..], w))
  }

  /** The elements read from index i, which end at j. */
  ghost predicate Read(b: seq<byte>, i: nat, xs: seq<nat>, w: nat, j: nat) {
    j <= |b| && forall m {:trigger Open(m)} :: Open(m) ==>
      Fit(xs, w) && At(b, i, VecBytes(xs, w)) && j == i + |VecBytes(xs, w)|
  }

  lemma ReadNothing(b: seq<byte>, i: nat, w: nat)
    requires i <= |b|
    ensures Read(b, i, [], w, i)
  {
    assert b[i..i] == [];
  }

  lemma ReadIs(b: seq<byte>, i: nat, xs: seq<nat>, w: nat, p: seq<byte>, j: nat)
    requires j <= |b| && j == i + |p| && p == b[i..j] && Fit(xs, w) && p == VecBytes(xs, w)
    ensures Read(b, i, xs, w, j)
  {
  }

  lemma TakenIs(b: seq<byte>, i: nat, s: seq<byte>, p: seq<byte>)
    requires i + |p| <= |b| && p == b[i..i + |p|]
    ensures At(b, i, s) && |s| == |p| ==> p == s
  {
    assert Open(0);
  }

  lemma ReadMore(b: seq<byte>, i: nat, xs: seq<nat>, j: nat, ys: seq<nat>, k: nat, w: nat)
    requires Read(b, i, xs, w, j) && Read(b, j, ys, w, k)
    ensures Read(b, i, xs + ys, w, k)
  {
    assert Open(0);
    VecBytesJoin(xs, ys, w);
    AtJoined(b, i, VecBytes(xs, w), VecBytes(ys, w));
  }

  lemma AllToCome(b: seq<byte>, i: nat, ys: seq<nat>, w: nat)
    requires Fit(ys, w) && At(b, i, VecBytes(ys, w))
    ensures ToCome(b, i, ys, 0, w, i + |VecBytes(ys, w)|)
  {
    assert ys[0..] == ys;
  }

  lemma NoneToCome(b: seq<byte>, i: nat, ys: seq<nat>, w: nat, end: nat)
    requires ToCome(b, i, ys, |ys|, w, end)
    ensures i == end && ys[..|ys|] == ys
  {
    assert Open(0);
    assert ys[|ys|..] == [];
  }

  lemma NextToCome(b: seq<byte>, i: nat, ys: seq<nat>, k: nat, k': nat, w: nat, end: nat)
    requires k <= k' <= |ys| && ToCome(b, i, ys, k, w, end)
    ensures Fit(ys[k..k'], w) && At(b, i, VecBytes(ys[k..k'], w))
    ensures ToCome(b, i + |VecBytes(ys[k..k'], w)|, ys, k', w, end)
  {
    assert Open(0);
    RestParts(ys, k, k', w);
    AtBoth(b, i, VecBytes(ys[k..k'], w), VecBytes(ys[k'..], w));
  }
}
