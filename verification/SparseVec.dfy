/** The sparse vector of clib/sparse_vec.h: a bitmap of the indices that have an element, counts
    of members before each of its words, and the elements in order.
 */
module SparseVec {
  import opened Words
  import opened Bitops
  import Popcount

  /** BITS (uword) */
  const BITS: nat := 64

  /** Whether sparse index si is a member. */
  predicate Member(bitmap: seq<Word>, si: nat)
    requires si / BITS < |bitmap| && forall i :: 0 <= i < |bitmap| ==> |bitmap[i]| == BITS
  {
    bitmap[si / BITS][si % BITS]
  }

  ghost predicate Words64(bitmap: seq<Word>) {
    forall i :: 0 <= i < |bitmap| ==> |bitmap[i]| == BITS
  }

  /** The number of members below n. */
  ghost function Rank(bitmap: seq<Word>, n: nat): nat
    requires Words64(bitmap) && n <= BITS * |bitmap|
  {
    if n == 0 then 0 else Rank(bitmap, n - 1) + if Member(bitmap, n - 1) then 1 else 0
  }

  /** Counting within one word. */
  lemma {:induction false} RankInWord(bitmap: seq<Word>, i: nat, b: nat)
    requires Words64(bitmap) && i < |bitmap| && b <= BITS
    ensures BITS * i + b <= BITS * |bitmap| &&
            Rank(bitmap, BITS * i + b) == Rank(bitmap, BITS * i) + Count(bitmap[i], b)
  {
    if b > 0 {
      RankInWord(bitmap, i, b - 1);
      assert (BITS * i + b - 1) / BITS == i && (BITS * i + b - 1) % BITS == b - 1;
    }
  }

  lemma {:induction false} RankGrows(bitmap: seq<Word>, m: nat, n: nat)
    requires Words64(bitmap) && m <= n <= BITS * |bitmap|
    ensures Rank(bitmap, m) <= Rank(bitmap, n) <= Rank(bitmap, m) + (n - m)
    ensures m < n && Member(bitmap, m) ==> Rank(bitmap, m) < Rank(bitmap, n)
    decreases n
  {
    if m < n {
      RankGrows(bitmap, m, n - 1);
    }
  }

  /** Setting a bit that was clear. */
  ghost predicate OneSet(bitmap: seq<Word>, bitmap': seq<Word>, si: nat) {
    && Words64(bitmap) && Words64(bitmap') && |bitmap'| == |bitmap| && si < BITS * |bitmap|
    && !Member(bitmap, si)
    && forall n {:trigger Member(bitmap', n)} :: 0 <= n < BITS * |bitmap| ==>
        (Member(bitmap', n) <==> Member(bitmap, n) || n == si)
  }

  lemma {:induction false} RankAfter(bitmap: seq<Word>, bitmap': seq<Word>, si: nat, n: nat)
    requires OneSet(bitmap, bitmap', si) && n <= BITS * |bitmap|
    ensures Rank(bitmap', n) == Rank(bitmap, n) + if n > si then 1 else 0
  {
    if n > 0 {
      RankAfter(bitmap, bitmap', si, n - 1);
    }
  }

  /** w & ((1 << b) - 1), with what count_set_bits and is_pow2 say about it. */
  method BitsBelow(w: Word, b: nat) returns (v: nat)
    requires b < |w| == BITS
    ensures v < 0x1_0000_0000_0000_0000 && Popcount.OnesOf(v) == Count(w, b)
    ensures (v == 0 <==> Count(w, b) == 0) && (Popcount.IsPow2(v) <==> Count(w, b) <= 1)
  {
    v := Popcount.AndBits(Popcount.Value(w), Pow2(b) - 1);
    Popcount.BitsBelow(w, b, v);
    Popcount.AtMostOneBit(v);
  }

  class SparseVector<T> {
    var bitmap: seq<Word>
    var memberCounts: seq<nat>
    var v: seq<T>                // v[0] stands for "no such member"

    ghost predicate Valid()
      reads this
    {
      && Words64(bitmap) && |memberCounts| == |bitmap|
      && (forall i :: 0 <= i < |bitmap| ==> memberCounts[i] == Rank(bitmap, BITS * i))
      && |v| == 1 + Rank(bitmap, BITS * |bitmap|)
    }

    /** Where the element of a member is: one more than its rank. */
    ghost function Position(si: nat): nat
      requires Valid() && si < BITS * |bitmap|
      reads this
    {
      1 + Rank(bitmap, si)
    }

    /** The element of a member: the vector stands for the partial map from members to these. */
    ghost function Element(si: nat): T
      requires Valid() && si < BITS * |bitmap| && Member(bitmap, si)
      reads this
    {
      RankGrows(bitmap, si, BITS * |bitmap|);
      v[Position(si)]
    }

    /** Every member has an element, no two the same one, and their order is that of the indices. */
    lemma PositionsInOrder(si: nat, sj: nat)
      requires Valid() && si < sj < BITS * |bitmap| && Member(bitmap, si) && Member(bitmap, sj)
      ensures 0 < Position(si) < Position(sj) < |v|
    {
      RankGrows(bitmap, si, sj);
      RankGrows(bitmap, sj, BITS * |bitmap|);
    }

    /** With indices of at most 16 bits, every count fits in 16 bits. */
    lemma CountsFit(i: nat)
      requires Valid() && BITS * |bitmap| <= 0x1_0000 && i < |bitmap|
      ensures memberCounts[i] < 0x1_0000
    {
      RankGrows(bitmap, 0, BITS * i);
    }

    /** sparse_vec_new, for indices of so many words. */
    constructor (words: nat, invalid: T)
      ensures Valid() && |bitmap| == words && forall si :: 0 <= si < BITS * words ==> !Member(bitmap, si)
    {
      bitmap := seq(words, _ => seq(BITS, _ => false));
      memberCounts := seq(words, _ => 0);
      v := [invalid];
      new;
      NoMembers(bitmap, BITS * words);
      forall i | 0 <= i < words ensures memberCounts[i] == Rank(bitmap, BITS * i) {
        RankGrows(bitmap, BITS * i, BITS * words);
      }
    }

    lemma RankAt(si: nat, i: nat, b: nat)
      requires Valid() && si < BITS * |bitmap| && i == si / BITS && b == si % BITS
      ensures Rank(bitmap, si) == memberCounts[i] + Count(bitmap[i], b)
    {
      RankInWord(bitmap, i, b);
      assert BITS * i + b == si;
    }

    /** The member's count of smaller ones: d of the source. */
    method CountBelow(si: nat) returns (d: nat, isMember: bool)
      requires Valid() && si < BITS * |bitmap|
      ensures d == Rank(bitmap, si) && isMember == Member(bitmap, si)
    {
      var i, b := si / BITS, si % BITS;
      var w := bitmap[i];
      var below := BitsBelow(w, b);
      var n := Popcount.SetBits(below);
      d := memberCounts[i] + n;
      isMember := w[b];
      RankAt(si, i, b);
    }

    /** sparse_vec_index: the position of the member's element, or 0. */
    method Index(si: nat) returns (r: nat)
      requires Valid() && si < BITS * |bitmap|
      ensures r == if Member(bitmap, si) then Position(si) else 0
    {
      var d, isMember := CountBelow(si);
      r := (if isMember then 1 else 0) + if isMember then d else 0;
    }

    /** The part of sparse_vec_index_internal that makes si a member. */
    method Insert(si: nat) returns (r: nat, insert: bool)
      requires Valid() && si < BITS * |bitmap|
      modifies this`bitmap, this`memberCounts
      ensures insert == !old(Member(bitmap, si)) && r == old(Position(si))
      ensures insert ==> OneSet(old(bitmap), bitmap, si)
      ensures !insert ==> bitmap == old(bitmap) && memberCounts == old(memberCounts)
      ensures |memberCounts| == |bitmap| == |old(bitmap)| && Words64(bitmap)
      ensures forall i :: 0 <= i < |bitmap| ==> memberCounts[i] == Rank(bitmap, BITS * i)
    {
      var d, isMember := CountBelow(si);
      r, insert := 1 + d, !isMember;
      if insert {
        var i, b := si / BITS, si % BITS;
        bitmap := bitmap[i := bitmap[i][b := true]];
        BitSet(old(bitmap), bitmap, si);
        var j := i + 1;
        while j < |memberCounts|
          invariant i < j && |memberCounts| == |old(memberCounts)| &&
                    bitmap == old(bitmap)[i := old(bitmap)[i][b := true]]
          invariant forall k :: 0 <= k < |memberCounts| ==>
                    memberCounts[k] == old(memberCounts)[k] + if i < k < j then 1 else 0
        {
          memberCounts := memberCounts[j := memberCounts[j] + 1];
          j := j + 1;
        }
        forall k | 0 <= k < |bitmap| ensures memberCounts[k] == Rank(bitmap, BITS * k) {
          RankAfter(old(bitmap), bitmap, si, BITS * k);
        }
      }
    }

    /** sparse_vec_validate: the position of the element of si, which is made a member first if it
        is not one.  No other member's element changes. */
    method Validate(si: nat, zero: T) returns (r: nat)
      requires Valid() && si < BITS * |bitmap|
      modifies this
      ensures Valid() && |bitmap| == |old(bitmap)| && 0 < r < |v| && r == Position(si) && Member(bitmap, si)
      ensures forall n :: 0 <= n < BITS * |bitmap| ==> (Member(bitmap, n) <==> old(Member(bitmap, n)) || n == si)
      ensures forall n :: 0 <= n < BITS * |bitmap| && old(Member(bitmap, n)) ==> Element(n) == old(Element(n))
      ensures !old(Member(bitmap, si)) ==> Element(si) == zero
    {
      RankGrows(bitmap, si, BITS * |bitmap|);
      var insert;
      r, insert := Insert(si);
      if insert {
        v := v[..r] + [zero] + v[r..];
        RankAfter(old(bitmap), bitmap, si, BITS * |bitmap|);
        RankAfter(old(bitmap), bitmap, si, si);
        OthersShift(old(bitmap), old(v), si, r, zero);
      }
    }

    lemma OthersShift(was: seq<Word>, u: seq<T>, si: nat, r: nat, zero: T)
      requires OneSet(was, bitmap, si) && Valid() && r == 1 + Rank(was, si) <= |u| == 1 + Rank(was, BITS * |was|) &&
               v == u[..r] + [zero] + u[r..]
      ensures forall n :: 0 <= n < BITS * |bitmap| && Member(was, n) ==>
                1 + Rank(was, n) < |u| && Position(n) < |v| && v[Position(n)] == u[1 + Rank(was, n)]
    {
      forall n | 0 <= n < BITS * |bitmap| && Member(was, n)
        ensures 1 + Rank(was, n) < |u| && Position(n) < |v| && v[Position(n)] == u[1 + Rank(was, n)]
      {
        RankAfter(was, bitmap, si, n);
        RankGrows(was, n, BITS * |was|);
        if n < si {
          RankGrows(was, n, si);
        } else {
          RankGrows(was, si, n);
        }
      }
    }

    /** sparse_vec_index2: two look-ups at once, guessing that masks have at most one bit set. */
    method Index2(si0: nat, si1: nat) returns (r0: nat, r1: nat)
      requires Valid() && si0 < BITS * |bitmap| && si1 < BITS * |bitmap|
      ensures r0 == if Member(bitmap, si0) then Position(si0) else 0
      ensures r1 == if Member(bitmap, si1) then Position(si1) else 0
    {
      var i0, b0, i1, b1 := si0 / BITS, si0 % BITS, si1 / BITS, si1 % BITS;
      var w0, w1 := bitmap[i0], bitmap[i1];
      var v0 := BitsBelow(w0, b0);
      var v1 := BitsBelow(w1, b1);
      var d0 := memberCounts[i0] + if v0 != 0 then 1 else 0;
      var d1 := memberCounts[i1] + if v1 != 0 then 1 else 0;
      if !Popcount.IsPow2(v0) || !Popcount.IsPow2(v1) {
        var n0 := Popcount.SetBits(v0);
        var n1 := Popcount.SetBits(v1);
        d0 := d0 + n0 - if v0 != 0 then 1 else 0;
        d1 := d1 + n1 - if v1 != 0 then 1 else 0;
      }
      assert d0 == memberCounts[i0] + Count(w0, b0) && d1 == memberCounts[i1] + Count(w1, b1);
      RankAt(si0, i0, b0);
      RankAt(si1, i1, b1);
      r0 := (if w0[b0] then 1 else 0) + if w0[b0] then d0 else 0;
      r1 := (if w1[b1] then 1 else 0) + if w1[b1] then d1 else 0;
    }
  }

  lemma {:induction false} NoMembers(bitmap: seq<Word>, n: nat)
    requires Words64(bitmap) && n <= BITS * |bitmap| && forall i, b :: 0 <= i < |bitmap| && 0 <= b < BITS ==>
             !bitmap[i][b]
    ensures Rank(bitmap, n) == 0
  {
    if n > 0 {
      NoMembers(bitmap, n - 1);
    }
  }

  lemma BitSet(bitmap: seq<Word>, bitmap': seq<Word>, si: nat)
    requires Words64(bitmap) && si < BITS * |bitmap| && !Member(bitmap, si)
    requires bitmap' == bitmap[si / BITS := bitmap[si / BITS][si % BITS := true]]
    ensures OneSet(bitmap, bitmap', si)
  {
    forall n | 0 <= n < BITS * |bitmap| ensures Member(bitmap', n) <==> Member(bitmap, n) || n == si {
      if n / BITS == si / BITS && n % BITS == si % BITS {
        assert n == si;
      }
    }
  }
}
