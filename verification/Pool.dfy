/** Pools of clib/pool.h: a vector of elements, some of which are free. The free ones are listed in
    the order in which they were freed, and marked in a bitmap.
 */
module Pools {

  import opened Words

  type Word = b: seq<bool> | |b| == 64 witness seq(64, i => false)

  const Zero: Word := seq(64, i => false)

  /** clib_bitmap_get: bits beyond the last word are zero. */
  predicate IsSet(b: seq<Word>, i: nat) {
    i / 64 < |b| && b[i / 64][i % 64]
  }

  lemma Place(w: nat, q: nat)
    requires q < 64
    ensures (64 * w + q) / 64 == w && (64 * w + q) % 64 == q
  {
  }

  // ---------- Regions ----------

  /** From lo up to, but not including, hi. */
  datatype Region = Region(lo: nat, hi: nat)

  /** The regions are the longest runs of clear bits below end, in ascending order. At end, a run is
      taken to stop. */
  ghost predicate AreRuns(rs: seq<Region>, b: seq<Word>, end: nat) {
    && (forall k :: 0 <= k < |rs| ==> IsRun(rs[k], b, end))
    && (forall j, k :: 0 <= j < k < |rs| ==> rs[j].hi < rs[k].lo)
    && (forall i: nat :: i < end && !IsSet(b, i) ==> exists k :: 0 <= k < |rs| && rs[k].lo <= i < rs[k].hi)
  }

  ghost predicate IsRun(r: Region, b: seq<Word>, end: nat) {
    && r.lo < r.hi <= end
    && (forall i: nat :: r.lo <= i < r.hi ==> !IsSet(b, i))
    && (r.lo == 0 || IsSet(b, r.lo - 1))
    && (r.hi == end || IsSet(b, r.hi))
  }

  /** Everything below lo has been seen: the set bit before lo is the last one below end. */
  ghost predicate Seen(rs: seq<Region>, b: seq<Word>, lo: nat, end: nat) {
    lo <= end &&
    forall m {:trigger Open(m)} :: Open(m) ==>
      && (lo == 0 || IsSet(b, lo - 1))
      && (forall i: nat :: lo <= i < end ==> !IsSet(b, i))
      && AreRuns(rs, b, lo)
      && (forall k :: 0 <= k < |rs| ==> rs[k].hi < lo)
  }

  function Extended(rs: seq<Region>, lo: nat, hi: nat): seq<Region> {
    if hi > lo then rs + [Region(lo, hi)] else rs
  }

  /** The clear bits from lo to hi are a run, if there are any; e is hi, or one more when hi is set. */
  lemma AddRun(rs: seq<Region>, b: seq<Word>, lo: nat, hi: nat, e: nat)
    requires AreRuns(rs, b, lo) && (forall k :: 0 <= k < |rs| ==> rs[k].hi < lo)
    requires lo <= hi && (lo == 0 || IsSet(b, lo - 1)) && (forall i: nat :: lo <= i < hi ==> !IsSet(b, i))
    requires e == hi || (e == hi + 1 && IsSet(b, hi))
    ensures AreRuns(Extended(rs, lo, hi), b, e)
  {
    var rs' := Extended(rs, lo, hi);
    forall i: nat | i < e && !IsSet(b, i)
      ensures exists k :: 0 <= k < |rs'| && rs'[k].lo <= i < rs'[k].hi
    {
      AllInRuns(rs, b, lo, hi, i);
    }
    forall k | 0 <= k < |rs'|
      ensures IsRun(rs'[k], b, e)
    {
      if k < |rs| {
        RunStays(rs, b, lo, e, k);
      }
    }
  }

  lemma RunStays(rs: seq<Region>, b: seq<Word>, lo: nat, e: nat, k: nat)
    requires AreRuns(rs, b, lo) && k < |rs| && rs[k].hi < lo <= e
    ensures IsRun(rs[k], b, e)
  {
    assert IsRun(rs[k], b, lo);
  }

  lemma AllInRuns(rs: seq<Region>, b: seq<Word>, lo: nat, hi: nat, i: nat)
    requires AreRuns(rs, b, lo) && i < hi && !IsSet(b, i)
    ensures exists k :: 0 <= k < |Extended(rs, lo, hi)| && Extended(rs, lo, hi)[k].lo <= i < Extended(rs, lo, hi)[k].hi
  {
    var rs' := Extended(rs, lo, hi);
    if i < lo {
      var k :| 0 <= k < |rs| && rs[k].lo <= i < rs[k].hi;
      assert rs'[k] == rs[k];
    } else {
      assert rs'[|rs|] == Region(lo, hi);
    }
  }

  /** The next set bit is at hi. */
  lemma NextSet(rs: seq<Region>, b: seq<Word>, lo: nat, end: nat, hi: nat)
    requires Seen(rs, b, lo, end) && end <= hi && IsSet(b, hi)
    requires forall i: nat :: end <= i < hi ==> !IsSet(b, i)
    ensures Seen(Extended(rs, lo, hi), b, hi + 1, hi + 1)
  {
    assert Open(0);
    AddRun(rs, b, lo, hi, hi + 1);
  }

  /** The bits from end up to end' are clear too. */
  lemma NoneSet(rs: seq<Region>, b: seq<Word>, lo: nat, end: nat, end': nat)
    requires Seen(rs, b, lo, end) && end <= end' && forall i: nat :: end <= i < end' ==> !IsSet(b, i)
    ensures Seen(rs, b, lo, end')
  {
    assert Open(0);
  }

  /** What lies between two regions is free. */
  lemma Between(rs: seq<Region>, b: seq<Word>, end: nat, k: nat, i: nat)
    requires AreRuns(rs, b, end) && k <= |rs| && i < end
    requires k > 0 ==> rs[k - 1].hi <= i
    requires k < |rs| ==> i < rs[k].lo
    ensures IsSet(b, i)
  {
    forall j | 0 <= j < |rs|
      ensures !(rs[j].lo <= i < rs[j].hi)
    {
      assert IsRun(rs[j], b, end);
      assert k > 0 ==> IsRun(rs[k - 1], b, end);
    }
  }

  predicate Lowest(m: Word, f: nat) {
    f < 64 && m[f] && forall q :: 0 <= q < f ==> !m[q]
  }

  /** first_set and min_log2: the place of the lowest bit that is set. */
  method FirstSet(m: Word) returns (f: nat)
    requires m != Zero
    ensures Lowest(m, f)
  {
    f := 0;
    assert exists q :: 0 <= q < 64 && m[q] != Zero[q];
    while !m[f]
      invariant f < 64 && forall q :: 0 <= q < f ==> !m[q]
      decreases 64 - f
    {
      f := f + 1;
    }
  }

  /** pool_foreach_region: the regions, in the order in which they are visited. */
  method RegionsOf(b: seq<Word>, len: nat) returns (rs: seq<Region>)
    requires forall i: nat :: IsSet(b, i) ==> i < len
    ensures AreRuns(rs, b, len)
  {
    var lo: nat, i: nat := 0, 0;
    rs := [];
    while i < |b|
      invariant i <= |b| && lo <= 64 * i
      invariant Seen(rs, b, lo, 64 * i)
    {
      lo, rs := WordRegions(b, i, lo, rs);
      i := i + 1;
    }
    assert Open(0);
    // Past the bitmap, hi is the length of the vector.
    if lo > 0 {
      assert IsSet(b, lo - 1);
    }
    forall k: nat | lo <= k < len
      ensures !IsSet(b, k)
    {
      if k >= 64 * |b| {
        assert k / 64 >= |b|;
      }
    }
    AddRun(rs, b, lo, len, len);
    if len > lo {
      rs := rs + [Region(lo, len)];
    }
  }

  /** The bits of word i from end on. */
  ghost predicate Remaining(m: Word, b: seq<Word>, i: nat, end: nat)
    requires i < |b|
  {
    forall k {:trigger Open(k)} :: Open(k) ==>
      forall q :: 0 <= q < 64 ==> (m[q] <==> b[i][q] && 64 * i + q >= end)
  }

  lemma AllRemaining(b: seq<Word>, i: nat, end: nat)
    requires i < |b| && end == 64 * i
    ensures Remaining(b[i], b, i, end)
  {
  }

  /** The bits of word i from end on are clear below bit f, which is set or past the word. */
  lemma ClearTo(m: Word, b: seq<Word>, i: nat, end: nat, f: nat)
    requires i < |b| && end >= 64 * i && Remaining(m, b, i, end)
    requires f <= 64 && (forall q :: 0 <= q < f ==> !m[q]) && (f < 64 ==> m[f])
    ensures forall k: nat :: end <= k < 64 * i + f ==> !IsSet(b, k)
    ensures f < 64 ==> IsSet(b, 64 * i + f) && 64 * i + f >= end
    ensures f < 64 ==> Remaining(m[f := false], b, i, 64 * i + f + 1)
  {
    assert Open(0);
    forall k: nat | end <= k < 64 * i + f
      ensures !IsSet(b, k)
    {
      Place(i, k - 64 * i);
      assert !m[k - 64 * i];
    }
    if f < 64 {
      Place(i, f);
    }
  }

  /** The lowest bit left of word i, at hi, ends what is clear up to there. */
  lemma NextInWord(m: Word, b: seq<Word>, i: nat, end: nat, f: nat, rs: seq<Region>, lo: nat, hi: nat)
    requires i < |b| && end >= 64 * i && Remaining(m, b, i, end) && Seen(rs, b, lo, end) && hi == 64 * i + f
    requires Lowest(m, f)
    ensures end <= hi && Remaining(m[f := false], b, i, hi + 1) && Seen(Extended(rs, lo, hi), b, hi + 1, hi + 1)
  {
    ClearTo(m, b, i, end, f);
    NextSet(rs, b, lo, end, hi);
  }

  lemma RestOfWord(m: Word, b: seq<Word>, i: nat, end: nat, rs: seq<Region>, lo: nat)
    requires i < |b| && 64 * i <= end <= 64 * (i + 1) && Remaining(m, b, i, end) && m == Zero && Seen(rs, b, lo, end)
    ensures Seen(rs, b, lo, 64 * (i + 1))
  {
    ClearTo(m, b, i, end, 64);
    NoneSet(rs, b, lo, end, 64 * (i + 1));
  }

  /** The set bits of one word. */
  method WordRegions(b: seq<Word>, i: nat, lo: nat, rs: seq<Region>) returns (lo': nat, rs': seq<Region>)
    requires i < |b| && lo <= 64 * i && Seen(rs, b, lo, 64 * i)
    ensures lo' <= 64 * (i + 1) && Seen(rs', b, lo', 64 * (i + 1))
  {
    var m := b[i];
    lo', rs' := lo, rs;
    ghost var end: nat := 64 * i;
    ghost var stop: nat := 64 * i + 64;
    AllRemaining(b, i, end);
    while m != Zero
      invariant 64 * i <= end <= stop && lo' <= end
      invariant Remaining(m, b, i, end)
      invariant Seen(rs', b, lo', end)
      decreases stop - end
    {
      lo', rs', m := NextRegion(m, b, i, end, rs', lo');
      end := lo';
    }
    RestOfWord(m, b, i, end, rs', lo');
  }

  /** Up to the lowest bit that is left. */
  method NextRegion(m: Word, b: seq<Word>, i: nat, ghost end: nat, rs: seq<Region>, lo: nat)
    returns (lo': nat, rs': seq<Region>, m': Word)
    requires i < |b| && 64 * i <= end && Remaining(m, b, i, end) && Seen(rs, b, lo, end) && m != Zero
    ensures end < lo' <= 64 * i + 64 && Remaining(m', b, i, lo') && Seen(rs', b, lo', lo')
  {
    var f := FirstSet(m);
    var hi := 64 * i + f;
    NextInWord(m, b, i, end, f, rs, lo, hi);
    rs', m', lo' := Extended(rs, lo, hi), m[f := false], hi + 1;
  }

  // ---------- Bitmap ----------

  /** clib_bitmap_ori */
  method WithBit(b: seq<Word>, i: nat) returns (r: seq<Word>)
    ensures forall j: nat :: IsSet(r, j) <==> j == i || IsSet(b, j)
  {
    var i0, i1 := i / 64, i % 64;
    r := b;
    if i0 >= |r| {
      r := r + seq(i0 + 1 - |r|, k => Zero);
    }
    r := r[i0 := r[i0][i1 := true]];
    forall j: nat
      ensures IsSet(r, j) <==> j == i || IsSet(b, j)
    {
      SamePlace(i, j);
    }
  }

  /** The bitmap with the given bits set. */
  method MarkAll(indices: seq<nat>) returns (b: seq<Word>)
    ensures forall j: nat :: IsSet(b, j) <==> j in indices
  {
    b := [];
    for i := 0 to |indices|
      invariant forall j: nat :: IsSet(b, j) <==> j in indices[..i]
    {
      b := WithBit(b, indices[i]);
      assert indices[..i + 1] == indices[..i] + [indices[i]];
    }
    assert indices[..|indices|] == indices;
  }

  /** clib_bitmap_andnoti */
  method WithoutBit(b: seq<Word>, i: nat) returns (r: seq<Word>)
    ensures forall j: nat :: IsSet(r, j) <==> j != i && IsSet(b, j)
  {
    var i0, i1 := i / 64, i % 64;
    r := b;
    if i0 >= |r| {
      r := r + seq(i0 + 1 - |r|, k => Zero);
    }
    r := r[i0 := r[i0][i1 := false]];
    forall j: nat
      ensures IsSet(r, j) <==> j != i && IsSet(b, j)
    {
      SamePlace(i, j);
    }
    if r[i0] == Zero {
      r := WithoutTrailingZeros(r);
    }
  }

  /** _clib_bitmap_remove_trailing_zeros */
  method WithoutTrailingZeros(b: seq<Word>) returns (r: seq<Word>)
    ensures forall j: nat :: IsSet(r, j) <==> IsSet(b, j)
    ensures r == [] || r[|r| - 1] != Zero
  {
    var n: nat := |b|;
    while n > 0 && b[n - 1] == Zero
      invariant n <= |b| && forall k :: n <= k < |b| ==> b[k] == Zero
    {
      n := n - 1;
    }
    r := b[..n];
  }

  lemma SamePlace(i: nat, j: nat)
    ensures i / 64 == j / 64 && i % 64 == j % 64 ==> i == j
  {
  }

  // ---------- The pool ----------

  ghost predicate Distinct(s: seq<nat>) {
    forall j, k :: 0 <= j < k < |s| ==> s[j] != s[k]
  }

  /** Distinct indices of a vector of length n. */
  ghost predicate GoodIndices(fi: seq<nat>, n: nat) {
    Distinct(fi) && forall k :: 0 <= k < |fi| ==> fi[k] < n
  }

  ghost predicate Marks(b: seq<Word>, fi: seq<nat>) {
    forall i: nat :: IsSet(b, i) <==> i in fi
  }

  class Pool<T> {
    var elts: seq<T>
    var freeBitmap: seq<Word>
    var freeIndices: seq<nat>

    /** pool_validate, both ways, and what it takes for granted. */
    ghost predicate Valid()
      reads this
    {
      GoodIndices(freeIndices, |elts|) && Marks(freeBitmap, freeIndices)
    }

    /** The elements in use. */
    ghost function Live(): (m: map<nat, T>)
      reads this
    {
      map i: nat | i < |elts| && i !in freeIndices :: elts[i]
    }

    constructor ()
      ensures Valid() && Live() == map[] && elts == [] && freeIndices == []
    {
      elts, freeBitmap, freeIndices := [], [], [];
    }

    /** pool_is_free_index */
    predicate IsFree(i: nat)
      reads this
    {
      if i < |elts| then IsSet(freeBitmap, i) else true
    }

    /** pool_get: the element freed last, as it was left, or else a new one at the end. Its content
        is not specified: raw is what happens to be there. */
    method Get(raw: T) returns (i: nat)
      requires Valid()
      modifies this
      ensures Valid() && i !in old(Live()) && i in Live() && Live() == old(Live())[i := Live()[i]]
      ensures old(freeIndices) == [] ==> i == |old(elts)| && elts == old(elts) + [raw] && freeIndices == []
      ensures old(freeIndices) != [] ==> old(freeIndices) == freeIndices + [i] && elts == old(elts)
    {
      var l := |freeIndices|;
      if l > 0 {
        i := freeIndices[l - 1];
        freeBitmap := WithoutBit(freeBitmap, i);
        freeIndices := freeIndices[..l - 1];
        assert old(freeIndices) == freeIndices + [i];
      } else {
        i := |elts|;
        elts := elts + [raw];
      }
    }

    /** pool_put */
    method Put(i: nat)
      requires Valid() && i < |elts| && !IsFree(i)
      modifies this
      ensures Valid() && old(i in Live()) && Live() == old(Live()) - {i}
      ensures freeIndices == old(freeIndices) + [i] && elts == old(elts)
    {
      freeBitmap := WithBit(freeBitmap, i);
      freeIndices := freeIndices + [i];
    }

    /** The regions hold the live elements only, and all of them. */
    method Regions() returns (rs: seq<Region>)
      requires Valid()
      ensures AreRuns(rs, freeBitmap, |elts|)
      ensures forall i: nat :: i in Live() <==> exists k :: 0 <= k < |rs| && rs[k].lo <= i < rs[k].hi
    {
      rs := RegionsOf(freeBitmap, |elts|);
      forall i: nat
        ensures i in Live() <==> exists k :: 0 <= k < |rs| && rs[k].lo <= i < rs[k].hi
      {
        forall k | 0 <= k < |rs| && rs[k].lo <= i < rs[k].hi
          ensures i in Live()
        {
          assert IsRun(rs[k], freeBitmap, |elts|);
        }
      }
    }
  }
}
