/** The byte code of a pool, and the regions in which its elements are visited. */
module PoolCodes {

  import opened Words
  import opened Codes
  import opened Pools

  /** The elements in use among the first k, in order. */
  function LiveElts(elts: seq<nat>, fi: seq<nat>, k: nat): seq<nat>
    requires k <= |elts|
  {
    if k == 0 then [] else LiveElts(elts, fi, k - 1) + (if k - 1 in fi then [] else [elts[k - 1]])
  }

  /** An element in use stands after those in use before it. */
  lemma {:induction false} LiveEltAt(elts: seq<nat>, fi: seq<nat>, k: nat, n: nat)
    requires k < n <= |elts| && k !in fi
    ensures |LiveElts(elts, fi, k)| < |LiveElts(elts, fi, n)|
    ensures LiveElts(elts, fi, n)[|LiveElts(elts, fi, k)|] == elts[k]
  {
    if k < n - 1 {
      LiveEltAt(elts, fi, k, n - 1);
    }
  }

  /** After the length: the free indices, and the elements in use. */
  ghost function PoolBody(elts: seq<nat>, fi: seq<nat>, w: nat): seq<byte> {
    if elts == [] then [] else VectorBytes(fi, WordBytes()) + VecBytes(LiveElts(elts, fi, |elts|), w)
  }

  ghost function PoolBytes(elts: seq<nat>, fi: seq<nat>, w: nat): seq<byte> {
    NetBytes(|elts|, WordBytes()) + PoolBody(elts, fi, w)
  }

  /** The elements in use are the same. */
  ghost predicate SameLive(elts: seq<nat>, ys: seq<nat>, fi: seq<nat>) {
    |elts| == |ys| && forall i :: 0 <= i < |ys| && i !in fi ==> elts[i] == ys[i]
  }

  /** The elements of the first k regions are the same. */
  ghost predicate SameTo(elts: seq<nat>, ys: seq<nat>, rs: seq<Region>, k: nat) {
    && k <= |rs| && |elts| == |ys|
    && forall m {:trigger Open(m)} :: Open(m) ==>
      forall j, i :: 0 <= j < k && rs[j].lo <= i < rs[j].hi && i < |ys| ==> elts[i] == ys[i]
  }

  lemma SameNext(elts: seq<nat>, ys: seq<nat>, rs: seq<Region>, k: nat)
    requires k < |rs| && SameTo(elts, ys, rs, k) && rs[k].lo <= rs[k].hi <= |ys|
    ensures SameTo(elts[..rs[k].lo] + ys[rs[k].lo..rs[k].hi] + elts[rs[k].hi..], ys, rs, k + 1)
  {
    assert Open(0);
  }

  lemma SameAll(elts: seq<nat>, ys: seq<nat>, fi: seq<nat>, rs: seq<Region>, b: seq<Word>)
    requires SameTo(elts, ys, rs, |rs|) && Listed(rs, b, fi, |ys|)
    ensures SameLive(elts, ys, fi)
  {
    assert Open(0);
    forall i | 0 <= i < |ys| && i !in fi
      ensures elts[i] == ys[i]
    {
      assert !IsSet(b, i);
    }
  }

  /** The bitmap marks the free indices, and the regions are the runs in between. */
  ghost predicate Listed(rs: seq<Region>, b: seq<Word>, fi: seq<nat>, n: nat) {
    forall m {:trigger Open(m)} :: Open(m) ==> AreRuns(rs, b, n) && Marks(b, fi)
  }

  lemma InRange(rs: seq<Region>, b: seq<Word>, fi: seq<nat>, n: nat, k: nat)
    requires Listed(rs, b, fi, n) && k < |rs|
    ensures rs[k].lo < rs[k].hi <= n && forall i :: rs[k].lo <= i < rs[k].hi ==> i !in fi
  {
    assert Open(0);
    assert IsRun(rs[k], b, n);
  }

  /** What follows the first k regions, up to the next one or to the end, is free. */
  lemma Gap(rs: seq<Region>, b: seq<Word>, fi: seq<nat>, n: nat, k: nat)
    requires Listed(rs, b, fi, n) && k <= |rs|
    ensures RegionsEnd(rs, k) <= n
    ensures k < |rs| ==> RegionsEnd(rs, k) <= rs[k].lo
    ensures forall i :: RegionsEnd(rs, k) <= i < (if k < |rs| then rs[k].lo else n) && i < n ==> i in fi
  {
    assert Open(0);
    if k > 0 {
      assert IsRun(rs[k - 1], b, n);
    }
    forall i | RegionsEnd(rs, k) <= i < (if k < |rs| then rs[k].lo else n) && i < n
      ensures i in fi
    {
      Between(rs, b, n, k, i);
    }
  }

  lemma NoIndices(fi: seq<nat>)
    ensures GoodIndices(fi, 0) ==> fi == []
  {
    if |fi| > 0 {
      assert fi[0] >= 0;
    }
  }

  lemma IndicesFit(fi: seq<nat>, n: nat)
    requires GoodIndices(fi, n) && n < U32
    ensures Fit(fi, WordBytes())
  {
    FourBytesInWord();
  }

  lemma {:induction false} LiveFit(elts: seq<nat>, fi: seq<nat>, k: nat, w: nat)
    requires k <= |elts| && Fit(elts, w)
    ensures Fit(LiveElts(elts, fi, k), w)
  {
    if k > 0 {
      LiveFit(elts, fi, k - 1, w);
    }
  }

  lemma {:induction false} LivePrefix(elts: seq<nat>, fi: seq<nat>, j: nat, k: nat)
    requires j <= k <= |elts|
    ensures |LiveElts(elts, fi, j)| <= |LiveElts(elts, fi, k)|
    ensures LiveElts(elts, fi, k)[..|LiveElts(elts, fi, j)|] == LiveElts(elts, fi, j)
  {
    if j < k {
      LivePrefix(elts, fi, j, k - 1);
    }
  }

  lemma {:induction false} LiveRun(elts: seq<nat>, fi: seq<nat>, lo: nat, hi: nat)
    requires lo <= hi <= |elts| && forall i :: lo <= i < hi ==> i !in fi
    ensures LiveElts(elts, fi, hi) == LiveElts(elts, fi, lo) + elts[lo..hi]
  {
    if lo < hi {
      LiveRun(elts, fi, lo, hi - 1);
      assert elts[lo..hi] == elts[lo..hi - 1] + [elts[hi - 1]];
    }
  }

  lemma {:induction false} FreeRun(elts: seq<nat>, fi: seq<nat>, lo: nat, hi: nat)
    requires lo <= hi <= |elts| && forall i :: lo <= i < hi ==> i in fi
    ensures LiveElts(elts, fi, hi) == LiveElts(elts, fi, lo)
  {
    if lo < hi {
      FreeRun(elts, fi, lo, hi - 1);
    }
  }

  /** The end of the last of the first k regions. */
  function RegionsEnd(rs: seq<Region>, k: nat): nat
    requires k <= |rs|
  {
    if k == 0 then 0 else rs[k - 1].hi
  }

  /** The elements in use are live; m of them are before the end of the first k regions. */
  ghost predicate Visited(elts: seq<nat>, fi: seq<nat>, rs: seq<Region>, k: nat, live: seq<nat>, m: nat) {
    k <= |rs| && forall o {:trigger Open(o)} :: Open(o) ==>
      && live == LiveElts(elts, fi, |elts|)
      && RegionsEnd(rs, k) <= |elts| && m == |LiveElts(elts, fi, RegionsEnd(rs, k))|
  }

  lemma WhatIsVisited(elts: seq<nat>, fi: seq<nat>, rs: seq<Region>, k: nat, live: seq<nat>, m: nat)
    requires Visited(elts, fi, rs, k, live, m)
    ensures live == LiveElts(elts, fi, |elts|)
    ensures RegionsEnd(rs, k) <= |elts| && m == |LiveElts(elts, fi, RegionsEnd(rs, k))|
  {
    assert Open(0);
  }

  lemma NoneVisited(elts: seq<nat>, fi: seq<nat>, rs: seq<Region>)
    ensures Visited(elts, fi, rs, 0, LiveElts(elts, fi, |elts|), 0)
  {
  }

  /** The next elements in use are those of region k. */
  lemma RegionElts(elts: seq<nat>, fi: seq<nat>, b: seq<Word>, rs: seq<Region>, k: nat, live: seq<nat>, m: nat, m': nat)
    requires Listed(rs, b, fi, |elts|) && k < |rs| && Visited(elts, fi, rs, k, live, m)
    requires m' == m + (rs[k].hi - rs[k].lo)
    ensures rs[k].lo < rs[k].hi <= |elts|
    ensures m <= m' <= |live| && live[m..m'] == elts[rs[k].lo..rs[k].hi]
    ensures Visited(elts, fi, rs, k + 1, live, m')
  {
    var lo, hi := rs[k].lo, rs[k].hi;
    WhatIsVisited(elts, fi, rs, k, live, m);
    InRange(rs, b, fi, |elts|, k);
    Gap(rs, b, fi, |elts|, k);
    FreeRun(elts, fi, RegionsEnd(rs, k), lo);
    LiveRun(elts, fi, lo, hi);
    LivePrefix(elts, fi, hi, |elts|);
    RunInside(live, LiveElts(elts, fi, lo), elts[lo..hi]);
  }

  lemma RunInside(live: seq<nat>, s: seq<nat>, t: seq<nat>)
    requires |s| + |t| <= |live| && live[..|s| + |t|] == s + t
    ensures live[|s|..|s| + |t|] == t
  {
    assert live[|s|..|s| + |t|] == live[..|s| + |t|][|s|..];
  }

  lemma AllVisited(elts: seq<nat>, fi: seq<nat>, b: seq<Word>, rs: seq<Region>, live: seq<nat>, m: nat)
    requires Listed(rs, b, fi, |elts|) && Visited(elts, fi, rs, |rs|, live, m)
    ensures m == |live|
  {
    WhatIsVisited(elts, fi, rs, |rs|, live, m);
    Gap(rs, b, fi, |elts|, |rs|);
    FreeRun(elts, fi, RegionsEnd(rs, |rs|), |elts|);
  }
}
