/** clib/qsort.c: quicksort down to short runs, then one insertion pass that runs without
    a bounds check because a minimum has been put first.

    Positions count elements instead of bytes, so the loops that exchange two records or shift
    one byte at a time move whole elements here.
 */
module Qsort {
  import opened Words

  const THRESH := 4
  const MTHRESH := 6

  /** compar orders T totally, up to ties: its sign flips with its arguments and "not greater"
      is transitive. */
  ghost predicate Comparator<T(!new)>(cmp: (T, T) -> int) {
    && (forall x, y {:trigger Pair(x, y)} :: Pair(x, y) ==> (cmp(x, y) > 0 <==> cmp(y, x) < 0))
    && (forall x, y, z {:trigger Triple(x, y, z)} :: Triple(x, y, z) ==>
          cmp(x, y) <= 0 && cmp(y, z) <= 0 ==> cmp(x, z) <= 0)
  }

  // always true; they keep the two laws from being applied to everything in sight
  ghost predicate Pair<T>(x: T, y: T) { true }
  ghost predicate Triple<T>(x: T, y: T, z: T) { true }

  lemma Flip<T(!new)>(cmp: (T, T) -> int, x: T, y: T)
    requires Comparator(cmp)
    ensures cmp(x, y) > 0 <==> cmp(y, x) < 0
    ensures cmp(y, x) > 0 <==> cmp(x, y) < 0
    ensures cmp(x, x) == 0
  {
    assert Pair(x, y) && Pair(y, x) && Pair(x, x);
  }

  lemma Chain<T(!new)>(cmp: (T, T) -> int, x: T, y: T, z: T)
    requires Comparator(cmp) && cmp(x, y) <= 0 && cmp(y, z) <= 0
    ensures cmp(x, z) <= 0
  {
    assert Triple(x, y, z);
  }

  ghost predicate Sorted<T>(s: seq<T>, cmp: (T, T) -> int) {
    forall i, j :: 0 <= i < j < |s| ==> cmp(s[i], s[j]) <= 0
  }

  /** x is no greater than any element of s[lo..hi]. */
  ghost predicate Least<T>(x: T, s: seq<T>, lo: int, hi: int, cmp: (T, T) -> int)
    requires 0 <= lo <= hi <= |s|
  {
    forall k :: lo <= k < hi ==> cmp(x, s[k]) <= 0
  }

  lemma SwapKeeps<T>(s: seq<T>, i: nat, j: nat)
    requires i < |s| && j < |s|
    ensures multiset(s[i := s[j]][j := s[i]]) == multiset(s)
  {
  }

  /** Equal multisets outside of which nothing changed. */
  ghost predicate Rearranged<T>(s: seq<T>, t: seq<T>, lo: int, hi: int) {
    && |s| == |t| && 0 <= lo <= hi <= |s|
    && s[..lo] == t[..lo] && s[hi..] == t[hi..]
    && multiset(s[lo..hi]) == multiset(t[lo..hi])
  }

  lemma RearrangedWider<T>(s: seq<T>, t: seq<T>, lo: int, hi: int, lo': int, hi': int)
    requires Rearranged(s, t, lo, hi) && 0 <= lo' <= lo && hi <= hi' <= |s|
    ensures Rearranged(s, t, lo', hi')
  {
    assert s[..lo'] == s[..lo][..lo'] && t[..lo'] == t[..lo][..lo'];
    assert s[hi'..] == s[hi..][hi' - hi..] && t[hi'..] == t[hi..][hi' - hi..];
    InThree(s, lo, hi, lo', hi');
    InThree(t, lo, hi, lo', hi');
  }

  lemma InThree<T>(s: seq<T>, lo: int, hi: int, lo': int, hi': int)
    requires 0 <= lo' <= lo <= hi <= hi' <= |s|
    ensures s[lo'..hi'] == s[..lo][lo'..] + s[lo..hi] + s[hi..][..hi' - hi]
  {
  }

  lemma RearrangedTrans<T>(s: seq<T>, t: seq<T>, u: seq<T>, lo: int, hi: int)
    requires Rearranged(s, t, lo, hi) && Rearranged(t, u, lo, hi)
    ensures Rearranged(s, u, lo, hi)
  {
  }

  lemma RearrangedAll<T>(s: seq<T>, t: seq<T>)
    requires Rearranged(s, t, 0, |s|)
    ensures multiset(s) == multiset(t)
  {
    assert s[0..|s|] == s && t[0..|t|] == t;
  }

  lemma SwapRearranges<T>(s: seq<T>, i: nat, j: nat, lo: nat, hi: nat)
    requires lo <= i < hi <= |s| && lo <= j < hi
    ensures Rearranged(s, s[i := s[j]][j := s[i]], lo, hi)
  {
    var t, r := s[i := s[j]][j := s[i]], s[lo..hi];
    SwapWithin(s, t, r, i, j, lo, hi);
    SwapKeeps(r, i - lo, j - lo);
  }

  lemma SwapWithin<T>(s: seq<T>, t: seq<T>, r: seq<T>, i: nat, j: nat, lo: nat, hi: nat)
    requires lo <= i < hi <= |s| && lo <= j < hi
    requires t == s[i := s[j]][j := s[i]] && r == s[lo..hi]
    ensures t[lo..hi] == r[i - lo := r[j - lo]][j - lo := r[i - lo]]
    ensures t[..lo] == s[..lo] && t[hi..] == s[hi..]
  {
  }

  /** What holds of every element of a rearranged range held of every element before. */
  lemma RearrangedElement<T>(s: seq<T>, t: seq<T>, lo: int, hi: int, k: int) returns (m: int)
    requires Rearranged(s, t, lo, hi) && lo <= k < hi
    ensures lo <= m < hi && s[m] == t[k]
  {
    assert t[lo..hi][k - lo] in multiset(t[lo..hi]);
    assert t[k] in multiset(s[lo..hi]);
    var i :| 0 <= i < |s[lo..hi]| && s[lo..hi][i] == t[k];
    m := lo + i;
  }

  /** Exchange two elements. */
  method Swap<T>(a: array<T>, i: nat, j: nat)
    requires i < a.Length && j < a.Length
    modifies a
    ensures a[..] == old(a[..])[i := old(a[j])][j := old(a[i])]
  {
    a[i], a[j] := a[j], a[i];
  }

  /** m is one of the three, with at least one of the other two on either side of it. */
  ghost predicate Median<T>(m: T, x: T, y: T, z: T, cmp: (T, T) -> int) {
    || (m == x && ((cmp(y, x) <= 0 && cmp(x, z) <= 0) || (cmp(z, x) <= 0 && cmp(x, y) <= 0)))
    || (m == y && ((cmp(x, y) <= 0 && cmp(y, z) <= 0) || (cmp(z, y) <= 0 && cmp(y, x) <= 0)))
    || (m == z && ((cmp(x, z) <= 0 && cmp(z, y) <= 0) || (cmp(y, z) <= 0 && cmp(z, x) <= 0)))
  }

  /** Bring the median of the first, middle and last element to the middle. */
  method MedianToMiddle<T(!new)>(a: array<T>, base: nat, max: nat, cmp: (T, T) -> int)
    requires base < max <= a.Length && Comparator(cmp)
    modifies a
    ensures Rearranged(old(a[..]), a[..], base, max)
    ensures max - base >= MTHRESH ==>
              Median(a[base + (max - base) / 2], old(a[base]), old(a[base + (max - base) / 2]), old(a[max - 1]), cmp)
  {
    var mid := base + (max - base) / 2;
    if max - base >= MTHRESH {
      ghost var x, y, z := a[base], a[mid], a[max - 1];
      Flip(cmp, x, y);
      Flip(cmp, y, z);
      Flip(cmp, x, z);
      var j := if cmp(a[base], a[mid]) > 0 then base else mid;
      if cmp(a[j], a[max - 1]) > 0 {
        j := if j == base then mid else base;
        if cmp(a[j], a[max - 1]) < 0 {
          j := max - 1;
        }
      }
      assert Median(a[j], x, y, z, cmp);
      if j != mid {
        SwapRearranges(a[..], mid, j, base, max);
        Swap(a, mid, j);
      }
    }
  }

  /** Midway through a partition: what lies before i is no greater, what lies after j no less
      than the pivot at mid. */
  ghost predicate Split<T>(s: seq<T>, base: nat, i: int, mid: int, j: int, max: nat, pivot: T, cmp: (T, T) -> int) {
    && base <= i <= mid <= j < max <= |s| && s[mid] == pivot
    && (forall k :: base <= k < i ==> cmp(s[k], pivot) <= 0)
    && (forall k :: j < k < max ==> cmp(pivot, s[k]) <= 0)
  }

  /** After both scans stop short: which exchange is made, and where the scans resume. */
  lemma ExchangeSplits<T(!new)>(s: seq<T>, t: seq<T>, base: nat, i: nat, mid: nat, j: nat, max: nat, pivot: T,
                         cmp: (T, T) -> int)
    requires Split(s, base, i, mid, j, max, pivot, cmp) && Comparator(cmp)
    requires i < mid ==> cmp(s[i], pivot) > 0
    requires j > mid ==> cmp(pivot, s[j]) > 0
    requires i < mid || j > mid
    requires t == s[i := s[if j > mid then j else mid]][(if j > mid then j else mid) := s[i]]
    ensures if j > mid then
              (if i == mid then Split(t, base, i + 1, j, j, max, pivot, cmp)
                  else Split(t, base, i + 1, mid, j - 1, max, pivot, cmp))
            else Split(t, base, i, i, j - 1, max, pivot, cmp)
  {
    Flip(cmp, s[i], pivot);
    Flip(cmp, pivot, s[j]);
  }

  /** The partitioning loop: on return everything before mid is no greater, everything after no
      less than the element at mid, which is the one that started in the middle. */
  method Partition<T(!new)>(a: array<T>, base: nat, max: nat, cmp: (T, T) -> int) returns (mid: nat)
    requires base < max <= a.Length && Comparator(cmp)
    modifies a
    ensures base <= mid < max && Rearranged(old(a[..]), a[..], base, max)
    ensures Split(a[..], base, mid, mid, mid, max, old(a[base + (max - base) / 2]), cmp)
  {
    mid := base + (max - base) / 2;
    ghost var pivot := a[mid];
    var i, j := base, max - 1;
    Flip(cmp, pivot, pivot);
    while true
      invariant Split(a[..], base, i, mid, j, max, pivot, cmp)
      invariant Rearranged(old(a[..]), a[..], base, max)
      decreases j - i
    {
      i, j := Scan(a, base, i, mid, j, max, cmp);
      if i == mid == j {
        return;
      }
      ghost var before := a[..];
      var i', mid', j', jj := i + 1, mid, j, j;
      if j > mid {
        if i == mid {        // j <-> mid, new mid is j
          mid' := j;
        } else {             // i <-> j
          j' := j - 1;
        }
      } else {               // i <-> mid, new mid is i
        i', mid', j', jj := i, i, j - 1, mid;
      }
      Swap(a, i, jj);
      ExchangeSplits(before, a[..], base, i, mid, j, max, pivot, cmp);
      SwapRearranges(before, i, jj, base, max);
      RearrangedTrans(old(a[..]), before, a[..], base, max);
      i, mid, j := i', mid', j';
    }
  }

  /** Both inner scans: past the elements that may stay where they are. */
  method Scan<T(!new)>(a: array<T>, base: nat, i: nat, mid: nat, j: nat, max: nat, cmp: (T, T) -> int)
    returns (i': nat, j': nat)
    requires max <= a.Length && base <= i <= mid <= j < max && Split(a[..], base, i, mid, j, max, a[mid], cmp)
    ensures i <= i' && j' <= j && Split(a[..], base, i', mid, j', max, a[mid], cmp)
    ensures i' < mid ==> cmp(a[i'], a[mid]) > 0
    ensures j' > mid ==> cmp(a[mid], a[j']) > 0
  {
    i', j' := i, j;
    while i' < mid && cmp(a[i'], a[mid]) <= 0
      invariant i <= i' && Split(a[..], base, i', mid, j, max, a[mid], cmp)
    {
      i' := i' + 1;
    }
    while j' > mid && cmp(a[mid], a[j']) <= 0
      invariant j' <= j && Split(a[..], base, i', mid, j', max, a[mid], cmp)
      decreases j'
    {
      j' := j' - 1;
    }
  }

  // ---------- Recursion ----------

  lemma LeastKept<T>(x: T, s: seq<T>, t: seq<T>, lo: int, hi: int, cmp: (T, T) -> int)
    requires Rearranged(s, t, lo, hi) && Least(x, s, lo, hi, cmp)
    ensures Least(x, t, lo, hi, cmp)
  {
    forall k | lo <= k < hi ensures cmp(x, t[k]) <= 0 {
      var m := RearrangedElement(s, t, lo, hi, k);
    }
  }

  lemma RearrangedSym<T>(s: seq<T>, t: seq<T>, lo: int, hi: int)
    requires Rearranged(s, t, lo, hi)
    ensures Rearranged(t, s, lo, hi)
  {
  }

  /** A minimum of s[base..max] lies in s[base..hi]. */
  ghost predicate LeastWithin<T>(s: seq<T>, base: nat, hi: int, max: nat, cmp: (T, T) -> int) {
    base <= hi <= max <= |s| && exists k :: base <= k < hi && Least(s[k], s, base, max, cmp)
  }

  /** While the range [b, m) is being worked on: if it is still the leftmost one it has a
      minimum of everything, otherwise the first THRESH places before it have one. */
  ghost predicate LeastPlaced<T>(s: seq<T>, base: nat, b: int, m: int, max: nat, cmp: (T, T) -> int) {
    && base <= b && b <= m <= max
    && LeastWithin(s, base, if b == base then m else if b < base + THRESH then b else base + THRESH, max, cmp)
  }

  /** Rearranging the range it lies in keeps a minimum within that range. */
  lemma LeastMoves<T>(s: seq<T>, t: seq<T>, base: nat, hi: int, max: nat, cmp: (T, T) -> int)
    requires Rearranged(s, t, base, hi) && LeastWithin(s, base, hi, max, cmp)
    ensures LeastWithin(t, base, hi, max, cmp)
  {
    var k :| base <= k < hi && Least(s[k], s, base, max, cmp);
    RearrangedSym(s, t, base, hi);
    var m := RearrangedElement(t, s, base, hi, k);
    RearrangedWider(s, t, base, hi, base, max);
    LeastKept(s[k], s, t, base, max, cmp);
    assert Least(t[m], t, base, max, cmp);
  }

  /** Rearranging a range to its right leaves a minimum where it is. */
  lemma LeastStays<T>(s: seq<T>, t: seq<T>, base: nat, hi: int, lo: int, hi2: int, max: nat, cmp: (T, T) -> int)
    requires LeastWithin(s, base, hi, max, cmp) && hi <= lo && hi2 <= max && Rearranged(s, t, lo, hi2)
    ensures LeastWithin(t, base, hi, max, cmp)
  {
    var k :| base <= k < hi && Least(s[k], s, base, max, cmp);
    RearrangedWider(s, t, lo, hi2, base, max);
    LeastKept(s[k], s, t, base, max, cmp);
    assert s[k] == s[..lo][k] == t[..lo][k];
  }

  /** After partitioning, a minimum is at mid or before it. */
  lemma LeastLeft<T(!new)>(s: seq<T>, base: nat, mid: int, m: nat, max: nat, pivot: T, cmp: (T, T) -> int)
    requires Comparator(cmp) && LeastWithin(s, base, m, max, cmp) && Split(s, base, mid, mid, mid, m, pivot, cmp)
    ensures LeastWithin(s, base, mid + 1, max, cmp)
    ensures mid > base ==> LeastWithin(s, base, mid, max, cmp)
  {
    var k :| base <= k < m && Least(s[k], s, base, max, cmp);
    if k > mid {
      forall i | base <= i < max ensures cmp(s[mid], s[i]) <= 0 {
        Chain(cmp, s[mid], s[k], s[i]);
      }
      assert Least(s[mid], s, base, max, cmp);
    }
    if mid > base && k >= mid {
      assert Least(s[mid], s, base, max, cmp);
      forall i | base <= i < max ensures cmp(s[base], s[i]) <= 0 {
        Chain(cmp, s[base], s[mid], s[i]);
      }
      assert Least(s[base], s, base, max, cmp);
    }
  }

  /** A minimum of the left part is a minimum of everything if the left part has one. */
  lemma LeastOfLeft<T(!new)>(s: seq<T>, base: nat, mid: int, max: nat, cmp: (T, T) -> int)
    requires Comparator(cmp) && base + THRESH <= mid
    requires LeastWithin(s, base, mid, max, cmp) && LeastWithin(s, base, base + THRESH, mid, cmp)
    ensures LeastWithin(s, base, base + THRESH, max, cmp)
  {
    var k :| base <= k < mid && Least(s[k], s, base, max, cmp);
    var j :| base <= j < base + THRESH && Least(s[j], s, base, mid, cmp);
    forall i | base <= i < max ensures cmp(s[j], s[i]) <= 0 {
      Chain(cmp, s[j], s[k], s[i]);
    }
    assert Least(s[j], s, base, max, cmp);
  }

  lemma {:induction false} SomeLeast<T(!new)>(s: seq<T>, base: nat, max: nat, cmp: (T, T) -> int)
    requires base < max <= |s| && Comparator(cmp)
    ensures LeastWithin(s, base, max, max, cmp)
  {
    if max - 1 == base {
      Flip(cmp, s[base], s[base]);
      assert Least(s[base], s, base, max, cmp);
    } else {
      SomeLeast(s, base, max - 1, cmp);
      var k :| base <= k < max - 1 && Least(s[k], s, base, max - 1, cmp);
      OneMoreLeast(s, base, max, k, cmp);
    }
  }

  lemma OneMoreLeast<T(!new)>(s: seq<T>, base: nat, max: nat, k: nat, cmp: (T, T) -> int)
    requires base <= k < max - 1 < |s| && Comparator(cmp) && Least(s[k], s, base, max - 1, cmp)
    ensures LeastWithin(s, base, max, max, cmp)
  {
    var last := s[max - 1];
    Flip(cmp, last, last);
    Flip(cmp, s[k], last);
    if cmp(s[k], last) <= 0 {
      assert Least(s[k], s, base, max, cmp);
    } else {
      forall i | base <= i < max - 1 ensures cmp(last, s[i]) <= 0 {
        Chain(cmp, last, s[k], s[i]);
      }
      assert Least(s[max - 1], s, base, max, cmp);
    }
  }

  /** Partition one range of the whole: its parts are ready to be worked on in turn. */
  method Divide<T(!new)>(a: array<T>, ghost base: nat, b: nat, m: nat, ghost max: nat, cmp: (T, T) -> int)
    returns (mid: nat)
    requires base <= b && b + THRESH <= m <= max <= a.Length && Comparator(cmp)
    requires LeastPlaced(a[..], base, b, m, max, cmp)
    modifies a
    ensures b <= mid < m && Rearranged(old(a[..]), a[..], b, m)
    ensures Split(a[..], b, mid, mid, mid, m, a[mid], cmp)
    ensures LeastPlaced(a[..], base, mid + 1, m, max, cmp) || (b == base && mid - b >= THRESH)
    ensures b == base ==>
            LeastWithin(a[..], base, mid + 1, max, cmp) && (mid > base ==> LeastWithin(a[..], base, mid, max, cmp))
    ensures b > base ==> LeastPlaced(a[..], base, b, mid, max, cmp)
  {
    ghost var before := a[..];
    MedianToMiddle(a, b, m, cmp);
    ghost var median := a[..];
    mid := Partition(a, b, m, cmp);
    RearrangedTrans(before, median, a[..], b, m);
    if b == base {
      LeastMoves(before, a[..], base, m, max, cmp);
      LeastLeft(a[..], base, mid, m, max, a[mid], cmp);
    } else {
      LeastStays(before, a[..], base, if b < base + THRESH then b else base + THRESH, b, m, max, cmp);
    }
  }

  /** qst: recurse into the smaller part, go round again with the larger one, stop at ranges
      shorter than THRESH.  d bounds the recursion depth: a range of fewer than 2^d elements
      needs at most d levels. */
  method Qst<T(!new)>(a: array<T>, base: nat, max: nat, cmp: (T, T) -> int, ghost d: nat)
    requires base + THRESH <= max <= a.Length && Comparator(cmp) && max - base < Pow2(d)
    modifies a
    ensures Rearranged(old(a[..]), a[..], base, max)
    ensures LeastWithin(a[..], base, base + THRESH, max, cmp)
    decreases d, 1
  {
    var b, m := base, max;
    SomeLeast(a[..], base, max, cmp);
    while m - b >= THRESH
      invariant LeastPlaced(a[..], base, b, m, max, cmp) && m - b < Pow2(d)
      invariant Rearranged(old(a[..]), a[..], base, max)
      decreases m - b
    {
      ghost var before := a[..];
      var mid := Divide(a, base, b, m, max, cmp);
      RearrangedWider(before, a[..], b, m, base, max);
      RearrangedTrans(old(a[..]), before, a[..], base, max);
      if mid - b <= m - (mid + 1) {
        if mid - b >= THRESH {
          LeftPart(a, base, b, mid, m, max, cmp, d);
        }
        b := mid + 1;
      } else {
        if m - (mid + 1) >= THRESH {
          RightPart(a, base, b, mid, m, max, cmp, d);
        }
        m := mid;
      }
    }
  }

  /** The recursive call on the left part. */
  method LeftPart<T(!new)>(a: array<T>, ghost base: nat, b: nat, mid: nat, ghost m: nat, ghost max: nat,
                    cmp: (T, T) -> int, ghost d: nat)
    requires base <= b && b + THRESH <= mid < m <= max <= a.Length && Comparator(cmp)
    requires mid - b <= m - (mid + 1) && m - b < Pow2(d)
    requires if b == base then LeastWithin(a[..], base, mid, max, cmp) else LeastPlaced(a[..], base, b, mid, max, cmp)
    modifies a
    ensures Rearranged(old(a[..]), a[..], base, max)
    ensures LeastPlaced(a[..], base, mid + 1, m, max, cmp)
    decreases d, 0
  {
    ghost var before := a[..];
    Qst(a, b, mid, cmp, d - 1);
    RearrangedWider(before, a[..], b, mid, base, max);
    if b == base {
      LeastMoves(before, a[..], base, mid, max, cmp);
      LeastOfLeft(a[..], base, mid, max, cmp);
    } else {
      LeastStays(before, a[..], base, if b < base + THRESH then b else base + THRESH, b, mid, max, cmp);
    }
  }

  /** The recursive call on the right part. */
  method RightPart<T(!new)>(a: array<T>, ghost base: nat, ghost b: nat, mid: nat, m: nat, ghost max: nat,
                     cmp: (T, T) -> int, ghost d: nat)
    requires base <= b <= mid && mid + 1 + THRESH <= m <= max <= a.Length && Comparator(cmp)
    requires m - (mid + 1) < mid - b && m - b < Pow2(d)
    requires LeastPlaced(a[..], base, b, mid, max, cmp)
    modifies a
    ensures Rearranged(old(a[..]), a[..], base, max)
    ensures LeastPlaced(a[..], base, b, mid, max, cmp)
    decreases d, 0
  {
    ghost var before := a[..];
    Qst(a, mid + 1, m, cmp, d - 1);
    RearrangedWider(before, a[..], mid + 1, m, base, max);
    LeastStays(before, a[..], base, if b == base then mid else if b < base + THRESH then b else base + THRESH, mid + 1,
        m, max, cmp);
  }

  // ---------- The insertion pass ----------

  /** s with the element at min moved down to hi, the ones between moved up by one. */
  function MovedDown<T>(s: seq<T>, hi: nat, min: nat): seq<T>
    requires hi <= min < |s|
  {
    s[..hi] + [s[min]] + s[hi..min] + s[min + 1..]
  }

  lemma MovedDownKeeps<T>(s: seq<T>, hi: nat, min: nat)
    requires hi <= min < |s|
    ensures multiset(MovedDown(s, hi, min)) == multiset(s)
  {
    assert s == s[..hi] + s[hi..min] + [s[min]] + s[min + 1..];
  }

  lemma MovedDownSorts<T(!new)>(s: seq<T>, hi: nat, min: nat, cmp: (T, T) -> int)
    requires hi <= min < |s| && Comparator(cmp) && Sorted(s[..min], cmp)
    requires hi > 0 ==> cmp(s[hi - 1], s[min]) <= 0
    requires forall k :: hi <= k < min ==> cmp(s[min], s[k]) <= 0
    ensures Sorted(MovedDown(s, hi, min)[..min + 1], cmp)
  {
    var t := MovedDown(s, hi, min)[..min + 1];
    forall k | 0 <= k < hi ensures cmp(s[k], s[min]) <= 0 {
      if k < hi - 1 {
        assert cmp(s[..min][k], s[..min][hi - 1]) <= 0;
        Chain(cmp, s[k], s[hi - 1], s[min]);
      }
    }
    forall i, j | 0 <= i < j < |t| ensures cmp(t[i], t[j]) <= 0 {
      var i', j' := if i < hi then i else i - 1, if j < hi then j else j - 1;
      assert i != hi && j != hi ==> t[i] == s[..min][i'] && t[j] == s[..min][j'];
    }
  }

  /** Insert the element at min into the sorted ones before it.  The search for its place has
      no bounds check: the element at 0 is no greater than any other. */
  method Insert<T(!new)>(a: array<T>, min: nat, cmp: (T, T) -> int)
    requires 0 < min < a.Length && Comparator(cmp)
    requires Sorted(a[..min], cmp) && Least(a[0], a[..], 0, a.Length, cmp)
    modifies a
    ensures Sorted(a[..min + 1], cmp) && multiset(a[..]) == multiset(old(a[..]))
    ensures Least(a[0], a[..], 0, a.Length, cmp)
  {
    var hi := FindPlace(a, min, cmp);
    MovedDownSorts(a[..], hi, min, cmp);
    MovedDownKeeps(a[..], hi, min);
    ShiftUp(a, hi, min);
    LeastOfAll(old(a[..]), a[..], cmp);
  }

  /** The search: the element at min belongs at hi. */
  method FindPlace<T(!new)>(a: array<T>, min: nat, cmp: (T, T) -> int) returns (hi: nat)
    requires 0 < min < a.Length && Comparator(cmp) && Least(a[0], a[..], 0, a.Length, cmp)
    ensures 0 < hi <= min && cmp(a[hi - 1], a[min]) <= 0
    ensures forall k :: hi <= k < min ==> cmp(a[min], a[k]) <= 0
  {
    hi := min - 1;
    assert cmp(a[0], a[..][min]) <= 0;
    while cmp(a[hi], a[min]) > 0
      invariant 0 <= hi < min
      invariant forall k :: hi < k < min ==> cmp(a[min], a[k]) <= 0
      decreases hi
    {
      assert hi != 0;
      Flip(cmp, a[hi], a[min]);
      hi := hi - 1;
    }
    hi := hi + 1;
  }

  /** The shift: the element at min goes to hi, those between one place up. */
  method ShiftUp<T>(a: array<T>, hi: nat, min: nat)
    requires hi <= min < a.Length
    modifies a
    ensures a[..] == MovedDown(old(a[..]), hi, min)
  {
    if hi != min {
      ghost var s := a[..];
      var c := a[min];
      var i := min;
      while i > hi
        invariant hi <= i <= min
        invariant forall k :: 0 <= k <= i || min < k < a.Length ==> a[k] == s[k]
        invariant forall k :: i < k <= min ==> a[k] == s[k - 1]
      {
        a[i] := a[i - 1];
        i := i - 1;
      }
      a[i] := c;
      forall k | 0 <= k < a.Length ensures a[k] == MovedDown(s, hi, min)[k] {
      }
    }
  }

  lemma LeastOfAll<T(!new)>(s: seq<T>, t: seq<T>, cmp: (T, T) -> int)
    requires multiset(s) == multiset(t) && |s| > 0 && |t| > 0 && s[0] == t[0] && Least(s[0], s, 0, |s|, cmp)
    ensures Least(t[0], t, 0, |t|, cmp)
  {
    forall k | 0 <= k < |t| ensures cmp(t[0], t[k]) <= 0 {
      assert t[k] in multiset(s);
      var m :| 0 <= m < |s| && s[m] == t[k];
    }
  }

  /** The position of a minimum of the first hi elements. */
  method FindLeast<T(!new)>(a: array<T>, hi: nat, cmp: (T, T) -> int) returns (j: nat)
    requires 0 < hi <= a.Length && Comparator(cmp)
    ensures j < hi && Least(a[j], a[..], 0, hi, cmp)
  {
    j := 0;
    var lo := 1;
    Flip(cmp, a[0], a[0]);
    while lo < hi
      invariant 1 <= lo <= hi && j < lo && Least(a[j], a[..], 0, lo, cmp)
    {
      Flip(cmp, a[j], a[lo]);
      Flip(cmp, a[lo], a[lo]);
      if cmp(a[j], a[lo]) > 0 {
        forall k | 0 <= k < lo ensures cmp(a[lo], a[k]) <= 0 {
          Chain(cmp, a[lo], a[j], a[k]);
        }
        j := lo;
      }
      lo := lo + 1;
    }
  }

  /** A minimum of the first places is a minimum of everything if those places have one. */
  lemma LeastOfFirst<T(!new)>(s: seq<T>, j: nat, hi: nat, cmp: (T, T) -> int)
    requires Comparator(cmp) && j < hi <= |s| && Least(s[j], s, 0, hi, cmp) && LeastWithin(s, 0, hi, |s|, cmp)
    ensures Least(s[j], s, 0, |s|, cmp)
  {
    var k :| 0 <= k < hi && Least(s[k], s, 0, |s|, cmp);
    forall i | 0 <= i < |s| ensures cmp(s[j], s[i]) <= 0 {
      Chain(cmp, s[j], s[k], s[i]);
    }
  }

  /** Some power of two exceeds n. */
  lemma {:induction false} EnoughDepth(n: nat) returns (d: nat)
    ensures n < Pow2(d) && (n > 0 ==> Pow2(d) <= 2 * n)
  {
    d := 0;
    while Pow2(d) <= n
      invariant d == 0 || Pow2(d) <= 2 * n
      decreases 2 * n + 1 - Pow2(d)
    {
      d := d + 1;
    }
  }

  /** qsort: the array ends up sorted and a permutation of what it was. */
  method Sort<T(!new)>(a: array<T>, cmp: (T, T) -> int)
    requires Comparator(cmp)
    modifies a
    ensures Sorted(a[..], cmp)
    ensures multiset(a[..]) == multiset(old(a[..]))
  {
    if a.Length <= 1 {
      return;
    }
    var hi := a.Length;
    if a.Length >= THRESH {
      ghost var d := EnoughDepth(a.Length);
      Qst(a, 0, a.Length, cmp, d);
      RearrangedAll(old(a[..]), a[..]);
      hi := THRESH;
    } else {
      SomeLeast(a[..], 0, a.Length, cmp);
    }
    var j := FindLeast(a, hi, cmp);
    LeastOfFirst(a[..], j, hi, cmp);
    PutFirst(a, j, cmp);
    InsertAll(a, cmp);
  }

  /** The insertion sort, once a least element is in the first place. */
  method InsertAll<T(!new)>(a: array<T>, cmp: (T, T) -> int)
    requires Comparator(cmp) && a.Length > 1 && Least(a[0], a[..], 0, a.Length, cmp)
    modifies a
    ensures Sorted(a[..], cmp) && multiset(a[..]) == multiset(old(a[..]))
  {
    var min := 1;
    Flip(cmp, a[0], a[0]);
    while min < a.Length
      invariant 1 <= min <= a.Length
      invariant Sorted(a[..min], cmp) && multiset(a[..]) == multiset(old(a[..]))
      invariant Least(a[0], a[..], 0, a.Length, cmp)
    {
      Insert(a, min, cmp);
      min := min + 1;
    }
    assert a[..a.Length] == a[..];
  }

  /** Exchange the minimum at j with the first element. */
  method PutFirst<T(!new)>(a: array<T>, j: nat, cmp: (T, T) -> int)
    requires j < a.Length && Least(a[j], a[..], 0, a.Length, cmp)
    modifies a
    ensures multiset(a[..]) == multiset(old(a[..])) && Least(a[0], a[..], 0, a.Length, cmp)
  {
    if j != 0 {
      SwapKeeps(a[..], j, 0);
      Swap(a, j, 0);
    }
  }
}
