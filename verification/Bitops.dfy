/** compress_init and compress_bits of clib/bitops.h: pack the bits of x that a mask selects
    at the low end, in order, in log2 of the word size steps.

    A word of 2^L bits is the sequence of its bits, lowest first; L is log2_uword_bits, 5 or 6.
 */
module Bitops {
  import opened Words

  type Word = seq<bool>

  function And(a: Word, b: Word): (r: Word)
    requires |a| == |b|
    ensures |r| == |a|
  {
    seq(|a|, i requires 0 <= i < |a| => a[i] && b[i])
  }

  function Xor2(a: Word, b: Word): (r: Word)
    requires |a| == |b|
    ensures |r| == |a|
  {
    seq(|a|, i requires 0 <= i < |a| => a[i] != b[i])
  }

  function Not(a: Word): (r: Word)
    ensures |r| == |a|
  {
    seq(|a|, i requires 0 <= i < |a| => !a[i])
  }

  /** a << k */
  function ShiftUp(a: Word, k: nat): (r: Word)
    ensures |r| == |a|
  {
    seq(|a|, i requires 0 <= i < |a| => i >= k && a[i - k])
  }

  /** a >> k */
  function ShiftDown(a: Word, k: nat): (r: Word)
    ensures |r| == |a|
  {
    seq(|a|, i requires 0 <= i < |a| => i + k < |a| && a[i + k])
  }

  // ---------- What the result should be ----------

  /** The number of set bits below position p. */
  function Count(w: Word, p: nat): (c: nat)
    requires p <= |w|
    ensures c <= p
  {
    if p == 0 then 0 else Count(w, p - 1) + if w[p - 1] then 1 else 0
  }

  /** The clear mask bits below p: how far the bit at p has to move. */
  function Zeros(mask: Word, p: nat): (z: nat)
    requires p <= |mask|
    ensures z <= p
  {
    Count(Not(mask), p)
  }

  /** r is x compressed by mask: selected bits in order at the low end, zeros above. */
  ghost predicate Compressed(r: Word, x: Word, mask: Word)
    requires |r| == |x| == |mask|
  {
    && (forall p :: 0 <= p < |x| && mask[p] ==> Count(mask, p) < |r| && r[Count(mask, p)] == x[p])
    && (forall y :: Count(mask, |mask|) <= y < |r| ==> !r[y])
  }

  // ---------- The halving of the distances ----------

  lemma {:induction false} ShrHalf(z: nat, k: nat)
    ensures Shr(z, k + 1) == Shr(z, k) / 2
  {
    if k > 0 {
      ShrHalf(z / 2, k - 1);
    }
  }

  /** Dropping the low bits does not change the high ones. */
  lemma {:induction false} ShrDrop(z: nat, k: nat)
    ensures Shr(z - LowBits(z, k), k) == Shr(z, k)
  {
    if k > 0 {
      ShrDrop(z / 2, k - 1);
      assert (z - LowBits(z, k)) / 2 == z / 2 - LowBits(z / 2, k - 1);
    }
  }

  /** One more low bit. */
  lemma {:induction false} LowBitsStep(z: nat, k: nat)
    ensures LowBits(z, k + 1) == LowBits(z, k) + (if Shr(z, k) % 2 == 1 then Pow2(k) else 0)
  {
    if k > 0 {
      LowBitsStep(z / 2, k - 1);
    }
  }

  /** A sum of remainders is no less than the remainder of the sum. */
  lemma {:induction false} LowBitsSub(z: nat, d: nat, k: nat)
    ensures LowBits(z + d, k) <= LowBits(z, k) + d
  {
    if d > 0 {
      LowBitsSub(z, d - 1, k);
      LowBitsSucc(z + d - 1, k);
    }
  }

  lemma {:induction false} LowBitsSucc(z: nat, k: nat)
    ensures LowBits(z + 1, k) <= LowBits(z, k) + 1
  {
    if k > 0 {
      LowBitsSucc(z / 2, k - 1);
      assert (z + 1) / 2 == z / 2 + z % 2;
    }
  }

  // ---------- Prefix parities ----------

  /** One doubling: bit j held the parity of the last d bits up to j, now of the last 2d. */
  ghost predicate ParityOf(w: Word, m: Word, d: nat)
    requires |w| == |m|
  {
    forall j :: 0 <= j < |m| ==>
      (m[j] <==> (Count(w, j + 1) - Count(w, if j + 1 >= d then j + 1 - d else 0)) % 2 == 1)
  }

  lemma ParityStep(w: Word, m: Word, d: nat)
    requires |w| == |m| && ParityOf(w, m, d)
    ensures ParityOf(w, Xor2(m, ShiftUp(m, d)), 2 * d)
  {
    var m' := Xor2(m, ShiftUp(m, d));
    forall j | 0 <= j < |m|
      ensures m'[j] <==> (Count(w, j + 1) - Count(w, if j + 1 >= 2 * d then j + 1 - 2 * d else 0)) % 2 == 1
    {
      if j >= d {
        assert m'[j] == (m[j] != m[j - d]);
      } else {
        assert m'[j] == m[j];
      }
    }
  }

  /** Every second marker remains: half as many below every position. */
  lemma {:induction false} HalfTheMarkers(w: Word, m: Word, p: nat)
    requires |w| == |m| && p <= |w| && forall j :: 0 <= j < |m| ==> (m[j] <==> Count(w, j + 1) % 2 == 1)
    ensures Count(And(w, Not(m)), p) == Count(w, p) / 2
  {
    if p > 0 {
      HalfTheMarkers(w, m, p - 1);
    }
  }

  // ---------- Where the selected bits are after i rounds ----------

  /** After i rounds the bit selected at p has moved down by its distance modulo 2^i. */
  function Position(mask: Word, p: nat, i: nat): (y: nat)
    requires p < |mask|
    ensures y <= p
  {
    p - LowBits(Zeros(mask, p), i)
  }

  lemma {:induction false} ZerosBetween(mask: Word, p: nat, p': nat)
    requires p <= p' <= |mask|
    ensures Zeros(mask, p) <= Zeros(mask, p') <= Zeros(mask, p) + (p' - p)
    ensures p < p' && mask[p] ==> Zeros(mask, p') < Zeros(mask, p) + (p' - p)
    decreases p' - p
  {
    if p < p' {
      ZerosBetween(mask, p, p' - 1);
    }
  }

  /** No two selected bits ever collide. */
  lemma PositionsDiffer(mask: Word, p: nat, p': nat, i: nat)
    requires p < p' < |mask| && mask[p]
    ensures Position(mask, p, i) < Position(mask, p', i)
  {
    ZerosBetween(mask, p, p');
    LowBitsSub(Zeros(mask, p), Zeros(mask, p') - Zeros(mask, p), i);
  }

  /** w marks every 2^i-th clear mask bit. */
  ghost predicate Markers(w: Word, mask: Word, i: nat)
    requires |w| == |mask|
  {
    forall p {:trigger MarkersTo(w, mask, i, p)} :: 0 <= p <= |mask| ==> MarkersTo(w, mask, i, p)
  }

  /** So it does below p. */
  ghost predicate MarkersTo(w: Word, mask: Word, i: nat, p: nat)
    requires p <= |w| == |mask|
  {
    Count(w, p) == Shr(Zeros(mask, p), i)
  }

  /** As many markers lie below where a bit is now as below where it started. */
  lemma MarkersBelow(w: Word, mask: Word, i: nat, p: nat)
    requires |w| == |mask| && Markers(w, mask, i) && p < |mask|
    ensures Count(w, Position(mask, p, i)) == Shr(Zeros(mask, p), i)
  {
    var y := Position(mask, p, i);
    var z := Zeros(mask, p);
    assert MarkersTo(w, mask, i, y) && MarkersTo(w, mask, i, p);
    ZerosBetween(mask, y, p);
    ShrDrop(z, i);
    ShrMono(Zeros(mask, y), z, i);
    ShrMono(z - LowBits(z, i), Zeros(mask, y), i);
  }

  /** The places of all bits after i rounds. */
  function Positions(mask: Word, i: nat): (ps: seq<nat>)
    ensures |ps| == |mask| && forall p :: 0 <= p < |mask| ==> ps[p] == Position(mask, p, i)
  {
    seq(|mask|, p requires 0 <= p < |mask| => Position(mask, p, i))
  }

  // ---------- One round of moves ----------

  /** With bit p of x at ps[p]: a selected set bit of x is at y. */
  ghost predicate Here(x: Word, mask: Word, ps: seq<nat>, y: nat)
    requires |x| == |mask| == |ps|
  {
    exists p :: 0 <= p < |x| && mask[p] && x[p] && ps[p] == y
  }

  /** r holds exactly the selected bits of x, bit p at ps[p]. */
  ghost predicate Carries(r: Word, x: Word, mask: Word, ps: seq<nat>)
    requires |r| == |x| == |mask| == |ps|
  {
    forall y {:trigger Here(x, mask, ps, y)} :: 0 <= y < |r| ==> (r[y] <==> Here(x, mask, ps, y))
  }

  /** The bits in n move down by k, from ps to ps', and no two end up in one place. */
  ghost predicate Moves(mask: Word, n: Word, ps: seq<nat>, ps': seq<nat>, k: nat)
    requires |mask| == |n| == |ps| == |ps'|
  {
    && (forall p :: 0 <= p < |mask| && mask[p] ==> ps[p] < |n| && ps[p] == ps'[p] + if n[ps[p]] then k else 0)
    && (forall p, p' :: 0 <= p < p' < |mask| && mask[p] && mask[p'] ==> ps'[p] != ps'[p'])
  }

  /** The bit at y after the round either stayed there or came from k above, never both. */
  lemma MoveBit(r: Word, x: Word, mask: Word, n: Word, ps: seq<nat>, ps': seq<nat>, k: nat, y: nat)
    requires |r| == |x| == |mask| == |n| == |ps| == |ps'| && y < |r| && k > 0
    requires Carries(r, x, mask, ps) && Moves(mask, n, ps, ps', k)
    ensures var stays := r[y] && !n[y];
            var comes := y + k < |r| && r[y + k] && n[y + k];
            !(stays && comes) && (stays || comes <==> Here(x, mask, ps', y))
  {
    var stays := r[y] && !n[y];
    var comes := y + k < |r| && r[y + k] && n[y + k];
    forall p | 0 <= p < |x| && mask[p] && x[p] ensures r[ps[p]] {
      assert Here(x, mask, ps, ps[p]);
    }
    assert stays ==> Here(x, mask, ps, y);
    assert comes ==> Here(x, mask, ps, y + k);
  }

  /** r ^ q ^ (q >> k) for q = r & n: the bits in n move down by k. */
  function Move(r: Word, n: Word, k: nat): (r': Word)
    requires |r| == |n|
    ensures |r'| == |r|
  {
    var q := And(r, n);
    Xor2(Xor2(r, q), ShiftDown(q, k))
  }

  /** One round: whatever word carries the selected bits still does after the move. */
  lemma MoveStep(r: Word, x: Word, mask: Word, n: Word, ps: seq<nat>, ps': seq<nat>, k: nat)
    requires |r| == |x| == |mask| == |n| == |ps| == |ps'| && k > 0
    requires Carries(r, x, mask, ps) && Moves(mask, n, ps, ps', k)
    ensures Carries(Move(r, n, k), x, mask, ps')
  {
    forall y | 0 <= y < |r| ensures Move(r, n, k)[y] <==> Here(x, mask, ps', y) {
      MoveBit(r, x, mask, n, ps, ps', k, y);
    }
  }

  /** The bits that move in round i: those with an odd number of markers below them. */
  lemma MovesRight(mask: Word, w: Word, parity: Word, zm: Word, i: nat)
    requires |mask| == |w| == |parity| == |zm|
    requires Markers(w, mask, i) && Carries(zm, mask, mask, Positions(mask, i))
    requires forall j :: 0 <= j < |parity| ==> (parity[j] <==> Count(w, j + 1) % 2 == 1)
    ensures Moves(mask, And(ShiftUp(parity, 1), zm), Positions(mask, i), Positions(mask, i + 1), Pow2(i))
  {
    var n := And(ShiftUp(parity, 1), zm);
    forall p | 0 <= p < |mask| && mask[p]
      ensures Position(mask, p, i) == Position(mask, p, i + 1) + if n[Position(mask, p, i)] then Pow2(i) else 0
    {
      MovesBit(mask, w, parity, zm, i, p);
    }
    forall p, p' | 0 <= p < p' < |mask| && mask[p] && mask[p']
      ensures Position(mask, p, i + 1) != Position(mask, p', i + 1)
    {
      PositionsDiffer(mask, p, p', i + 1);
    }
  }

  lemma MovesBit(mask: Word, w: Word, parity: Word, zm: Word, i: nat, p: nat)
    requires |mask| == |w| == |parity| == |zm| && p < |mask| && mask[p]
    requires Markers(w, mask, i) && Carries(zm, mask, mask, Positions(mask, i))
    requires forall j :: 0 <= j < |parity| ==> (parity[j] <==> Count(w, j + 1) % 2 == 1)
    ensures Position(mask, p, i) == Position(mask, p, i + 1) +
              if And(ShiftUp(parity, 1), zm)[Position(mask, p, i)] then Pow2(i) else 0
  {
    var y := Position(mask, p, i);
    MarkersBelow(w, mask, i, p);
    assert Here(mask, mask, Positions(mask, i), y);
    assert And(ShiftUp(parity, 1), zm)[y] <==> Count(w, y) % 2 == 1;
    LowBitsStep(Zeros(mask, p), i);
  }

  lemma HalveMarkers(mask: Word, w: Word, parity: Word, i: nat)
    requires |mask| == |w| == |parity| && Markers(w, mask, i)
    requires forall j :: 0 <= j < |parity| ==> (parity[j] <==> Count(w, j + 1) % 2 == 1)
    ensures Markers(And(w, Not(parity)), mask, i + 1)
  {
    var w', i' := And(w, Not(parity)), i + 1;
    forall p | 0 <= p <= |mask| ensures MarkersTo(w', mask, i', p) {
      assert MarkersTo(w, mask, i, p);
      HalfTheMarkers(w, parity, p);
      ShrHalf(Zeros(mask, p), i);
    }
  }

  // ---------- The functions ----------

  lemma ParityStart(w: Word)
    ensures ParityOf(w, w, 1)
  {
  }

  lemma ParityEnd(w: Word, m: Word)
    requires |w| == |m| && ParityOf(w, m, |w|)
    ensures forall j :: 0 <= j < |m| ==> (m[j] <==> Count(w, j + 1) % 2 == 1)
  {
    assert Count(w, 0) == 0;
  }

  /** The doubling steps of compress_init: m ^= m << 1, << 2, << 4, ..., half the word. */
  method PrefixParity(w: Word, L: nat) returns (m: Word)
    requires |w| == Pow2(L)
    ensures |m| == |w| && forall j :: 0 <= j < |m| ==> (m[j] <==> Count(w, j + 1) % 2 == 1)
  {
    m := w;
    ParityStart(w);
    var s, k := 0, 1;
    while s < L
      invariant 0 <= s <= L && k == Pow2(s) && |m| == |w| && ParityOf(w, m, k)
    {
      ParityStep(w, m, k);
      m := Xor2(m, ShiftUp(m, k));
      s, k := s + 1, 2 * k;
    }
    ParityEnd(w, m);
  }

  /** The word of the bits that move in one round is the right one. */
  ghost predicate RoundOk(n: Word, mask: Word, i: nat) {
    |n| == |mask| && Moves(mask, n, Positions(mask, i), Positions(mask, i + 1), Pow2(i))
  }

  /** ms holds, round by round, the right words of moving bits. */
  ghost predicate RoundsOk(ms: seq<Word>, mask: Word) {
    ms == [] || (RoundsOk(ms[..|ms| - 1], mask) && RoundOk(ms[|ms| - 1], mask, |ms| - 1))
  }

  lemma {:induction false} RoundAt(ms: seq<Word>, mask: Word, i: nat)
    requires RoundsOk(ms, mask) && i < |ms|
    ensures RoundOk(ms[i], mask, i)
  {
    if i < |ms| - 1 {
      RoundAt(ms[..|ms| - 1], mask, i);
    }
  }

  lemma RoundMore(ms: seq<Word>, mask: Word, n: Word)
    requires RoundsOk(ms, mask) && RoundOk(n, mask, |ms|)
    ensures RoundsOk(ms + [n], mask)
  {
    assert (ms + [n])[..|ms|] == ms;
  }

  lemma CarryOn(r: Word, x: Word, mask: Word, n: Word, i: nat)
    requires |r| == |x| == |mask| && RoundOk(n, mask, i) && Carries(r, x, mask, Positions(mask, i))
    ensures Carries(Move(r, n, Pow2(i)), x, mask, Positions(mask, i + 1))
  {
    MoveStep(r, x, mask, n, Positions(mask, i), Positions(mask, i + 1), Pow2(i));
  }

  /** One round of compress_init: the word of the bits that move now, and what is left of
      the markers. */
  method InitRound(m: Word, zm: Word, i: nat, L: nat, ghost mask: Word) returns (n: Word, m': Word)
    requires |m| == |zm| == |mask| == Pow2(L)
    requires Markers(m, mask, i) && Carries(zm, mask, mask, Positions(mask, i))
    ensures RoundOk(n, mask, i) && |m'| == |mask| && Markers(m', mask, i + 1)
  {
    var parity := PrefixParity(m, L);
    n := And(ShiftUp(parity, 1), zm);
    m' := And(m, Not(parity));
    MovesRight(mask, m, parity, zm, i);
    HalveMarkers(mask, m, parity, i);
  }

  class Compress {
    const L: nat
    const masks: array<Word>       // masks[0] the mask itself, masks[1 + i] the bits that move in round i
    ghost var mask: Word

    constructor (L: nat)
      ensures this.L == L && masks.Length == 1 + L && fresh(masks)
    {
      this.L := L;
      masks := new Word[1 + L](_ => []);
      mask := [];
    }

    /** What compress_init establishes and compress_bits relies on. */
    ghost predicate Valid()
      reads this, masks
    {
      && masks.Length == 1 + L && |mask| == Pow2(L) && masks[0] == mask
      && RoundsOk(masks[1..], mask)
    }

    method Init(mask: Word)
      requires masks.Length == 1 + L && |mask| == Pow2(L)
      modifies this`mask, masks
      ensures Valid() && this.mask == mask
    {
      this.mask := mask;
      var m, zm := Not(mask), mask;
      masks[0] := mask;
      var i := 0;
      StartMarkers(mask);
      StartBits(mask, mask);
      while i < L
        invariant 0 <= i <= L && this.mask == mask && masks[0] == mask
        invariant |m| == |zm| == |mask|
        invariant Markers(m, mask, i) && Carries(zm, mask, mask, Positions(mask, i))
        invariant RoundsOk(masks[1..1 + i], mask)
      {
        var n;
        n, m := InitRound(m, zm, i, L, mask);
        RoundMore(masks[1..1 + i], mask, n);
        ghost var done := masks[1..1 + i];
        masks[1 + i] := n;
        assert masks[1..1 + i + 1] == done + [n];
        CarryOn(zm, mask, mask, n, i);
        zm := Move(zm, n, Pow2(i));
        i := i + 1;
      }
      assert masks[1..1 + L] == masks[1..];
    }

    method Bits(x: Word) returns (r: Word)
      requires Valid() && |x| == Pow2(L)
      ensures |r| == |x| && Compressed(r, x, mask)
    {
      r := And(x, masks[0]);
      StartBits(x, mask);
      var i := 0;
      while i < L
        invariant 0 <= i <= L && |r| == |x| && Carries(r, x, mask, Positions(mask, i))
      {
        RoundAt(masks[1..], mask, i);
        CarryOn(r, x, mask, masks[1 + i], i);
        r := Move(r, masks[1 + i], Pow2(i));
        i := i + 1;
      }
      assert i == L;
      AllMoved(r, x, mask, i);
    }
  }

  /** Before the first round every clear bit is a marker. */
  lemma StartMarkers(mask: Word)
    ensures Markers(Not(mask), mask, 0)
  {
  }

  /** Before the first round every selected bit is where it started. */
  lemma StartBits(x: Word, mask: Word)
    requires |x| == |mask|
    ensures Carries(And(x, mask), x, mask, Positions(mask, 0))
    ensures x == mask ==> And(x, mask) == mask
  {
    var ps := Positions(mask, 0);
    forall y | 0 <= y < |x| ensures And(x, mask)[y] <==> Here(x, mask, ps, y) {
      assert ps[y] == y;
    }
  }

  lemma {:induction false} CountComplement(mask: Word, p: nat)
    requires p <= |mask|
    ensures Zeros(mask, p) + Count(mask, p) == p
  {
    if p > 0 {
      CountComplement(mask, p - 1);
    }
  }

  lemma {:induction false} CountGrows(mask: Word, p: nat, p': nat)
    requires p < p' <= |mask| && mask[p]
    ensures Count(mask, p) < Count(mask, p')
    decreases p'
  {
    if p + 1 < p' {
      CountGrows(mask, p, p' - 1);
    }
  }

  /** After all rounds every bit has moved down by the clear mask bits below it. */
  lemma AllMoved(r: Word, x: Word, mask: Word, L: nat)
    requires |r| == |x| == |mask| == Pow2(L) && Carries(r, x, mask, Positions(mask, L))
    ensures Compressed(r, x, mask)
  {
    var ps := Positions(mask, L);
    forall p | 0 <= p < |x| ensures ps[p] == Count(mask, p) {
      LowBitsSmall(Zeros(mask, p), L);
      CountComplement(mask, p);
    }
    forall p | 0 <= p < |x| && mask[p] ensures Count(mask, p) < |r| && r[Count(mask, p)] == x[p] {
      assert r[ps[p]] <==> Here(x, mask, ps, ps[p]);
      if r[ps[p]] {
        var p' :| 0 <= p' < |x| && mask[p'] && x[p'] && ps[p'] == ps[p];
        if p < p' { CountGrows(mask, p, p'); } else if p' < p { CountGrows(mask, p', p); }
      }
    }
    forall y | Count(mask, |mask|) <= y < |r| ensures !r[y] {
      if r[y] {
        assert Here(x, mask, ps, y);
        var p :| 0 <= p < |x| && mask[p] && x[p] && ps[p] == y;
        CountGrows(mask, p, |mask|);
      }
    }
  }
}
