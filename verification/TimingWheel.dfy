/** The hierarchical timing wheel of clib/timing_wheel.c: elements wait in circular levels of
    bins, each level coarser than the one below by a factor of the number of bins.
 */
module TimingWheel {
  import opened Words

  /** One more than the largest value of the u32 field that holds a relative time. */
  const RELATIVE_TIMES: nat := 0x1_0000_0000

  /** A wheel element: its time is relative to the time base of the wheel. */
  datatype Elt = Elt(user: nat, rel: nat)

  /** User data with the absolute time, in clocks, at which it is due. */
  datatype Entry = Entry(user: nat, time: nat)

  /** The bins of a level, none until the level is first used, and the bits for those in use. */
  datatype Level = Level(occupied: set<nat>, bins: seq<seq<Elt>>)

  /** A wheel of 2^binBits bins, the lowest of 2^clockBits clocks each. */
  datatype Scale = Scale(binBits: nat, clockBits: nat)

  /** The time index of a time. */
  function Index(g: Scale, time: nat): nat {
    Shr(time, g.clockBits)
  }

  /** A time is in the bin of its index, of 2^clockBits clocks. */
  lemma IndexBounds(g: Scale, time: nat)
    ensures Index(g, time) * Pow2(g.clockBits) <= time < (Index(g, time) + 1) * Pow2(g.clockBits)
  {
    ShrDivides(time, g.clockBits);
  }

  /** The clock at which the bin of a time begins. */
  function BinStart(g: Scale, time: nat): (start: nat)
    ensures start <= time
  {
    ModLess(time, Pow2(g.clockBits));
    time - time % Pow2(g.clockBits)
  }

  /** An advance to t reaches a time if and only if it reaches the start of its bin. */
  lemma Reached(g: Scale, time: nat, t: nat)
    ensures Index(g, time) <= Index(g, t) <==> BinStart(g, time) <= t
  {
    ShrDivides(time, g.clockBits);
    ShrDivides(t, g.clockBits);
    ShrAndLowBits(time, g.clockBits);
    StepsReached(Index(g, time), Index(g, t), Pow2(g.clockBits), t);
  }

  lemma StepsReached(q: nat, q': nat, p: nat, t: nat)
    requires q' * p <= t < (q' + 1) * p
    ensures q <= q' <==> q * p <= t
  {
    if q <= q' {
      assert q * p <= q' * p;
    } else {
      assert (q' + 1) * p <= q * p;
    }
  }

  lemma ModLess(x: nat, p: nat)
    requires p > 0
    ensures x % p <= x
  {
    var q := x / p;
    assert x == p * q + x % p && p * q >= 0;
  }

  // ---------- Time on each level ----------

  /** Time index ti counted in bins of level l. */
  function Tick(g: Scale, ti: nat, l: nat): nat {
    if l == 0 then ti else Shr(Tick(g, ti, l - 1), g.binBits)
  }

  lemma {:induction false} TickIsShift(g: Scale, ti: nat, l: nat)
    ensures Tick(g, ti, l) == Shr(ti, l * g.binBits)
  {
    if l > 0 {
      TickIsShift(g, ti, l - 1);
      ShrTwice(ti, (l - 1) * g.binBits, g.binBits);
      assert (l - 1) * g.binBits + g.binBits == l * g.binBits;
    }
  }

  lemma {:induction false} TickMono(g: Scale, x: nat, y: nat, l: nat)
    requires x <= y
    ensures Tick(g, x, l) <= Tick(g, y, l)
  {
    if l > 0 {
      TickMono(g, x, y, l - 1);
      ShrMono(Tick(g, x, l - 1), Tick(g, y, l - 1), g.binBits);
    }
  }

  /** Two times less than one turn of level 1 apart are so on every higher level. */
  lemma {:induction false} GapShrinks(g: Scale, x: nat, y: nat, l: nat)
    requires x <= y && l > 0
    ensures Tick(g, x, l) <= Tick(g, y, l) && Tick(g, y, l) - Tick(g, x, l) <= Tick(g, y, 1) - Tick(g, x, 1)
  {
    TickMono(g, x, y, l);
    if l > 1 {
      GapShrinks(g, x, y, l - 1);
      ShrGap(Tick(g, x, l - 1), Tick(g, y, l - 1), g.binBits);
    }
  }

  /** Times that agree on one level agree on all higher ones. */
  lemma {:induction false} SameTickAbove(g: Scale, x: nat, y: nat, l: nat, l': nat)
    requires Tick(g, x, l) == Tick(g, y, l) && l <= l'
    ensures Tick(g, x, l') == Tick(g, y, l')
  {
    if l < l' {
      SameTickAbove(g, x, y, l, l' - 1);
    }
  }

  /** The absolute number, counted from c on, of the bin with wheel index w. */
  function Unwrap(g: Scale, c: nat, w: nat): (s: nat)
    requires w < Pow2(g.binBits)
    ensures c <= s < c + Pow2(g.binBits)
  {
    var at := LowBits(c, g.binBits);
    if w >= at then c + w - at else c + Pow2(g.binBits) + w - at
  }

  lemma UnwrapInverse(g: Scale, c: nat, s: nat)
    requires c <= s < c + Pow2(g.binBits)
    ensures Unwrap(g, c, LowBits(s, g.binBits)) == s
  {
    LowBitsPlus(c, s - c, g.binBits);
  }

  lemma UnwrapWraps(g: Scale, c: nat, w: nat)
    requires w < Pow2(g.binBits)
    ensures LowBits(Unwrap(g, c, w), g.binBits) == w
  {
    LowBitsPlus(c, Unwrap(g, c, w) - c, g.binBits);
  }

  /** A bin keeps its absolute number as long as time has not passed it. */
  lemma UnwrapStable(g: Scale, c: nat, a: nat, w: nat)
    requires w < Pow2(g.binBits) && c <= a <= Unwrap(g, c, w)
    ensures Unwrap(g, a, w) == Unwrap(g, c, w)
  {
    UnwrapWraps(g, c, w);
    UnwrapInverse(g, a, Unwrap(g, c, w));
  }

  /** The wheel indices of two bins less than one turn apart differ. */
  lemma DifferentBins(g: Scale, x: nat, y: nat)
    requires x <= y < x + Pow2(g.binBits)
    ensures LowBits(x, g.binBits) == LowBits(y, g.binBits) <==> x == y
  {
    LowBitsPlus(x, y - x, g.binBits);
  }

  // ---------- Where an element belongs ----------

  /** An element on level 0 is in the bin of its own time index; on a higher level it is due
      only after its bin has begun to pass. */
  ghost predicate Filed(g: Scale, now: nat, l: nat, w: nat, time: nat)
    requires w < Pow2(g.binBits)
  {
    var s := Unwrap(g, Tick(g, now, l), w);
    if l == 0 then s == Index(g, time) else s + 1 <= Tick(g, Index(g, time), l)
  }

  ghost predicate BinOk(g: Scale, now: nat, base: nat, l: nat, w: nat, es: seq<Elt>)
    requires w < Pow2(g.binBits)
  {
    forall i :: 0 <= i < |es| ==> es[i].rel < RELATIVE_TIMES && Filed(g, now, l, w, base + es[i].rel)
  }

  ghost predicate LevelOk(g: Scale, now: nat, base: nat, l: nat, lv: Level) {
    && (|lv.bins| == 0 || |lv.bins| == Pow2(g.binBits))
    && (forall w :: w in lv.occupied ==> w < |lv.bins|)
    && (forall w :: 0 <= w < |lv.bins| ==> (w in lv.occupied <==> lv.bins[w] != []))
    && (forall w {:trigger BinOk(g, now, base, l, w, lv.bins[w])} :: 0 <= w < |lv.bins| ==>
        BinOk(g, now, base, l, w, lv.bins[w]))
  }

  ghost predicate LevelsOk(g: Scale, now: nat, base: nat, levels: seq<Level>) {
    forall l {:trigger LevelOk(g, now, base, l, levels[l])} :: 0 <= l < |levels| ==> LevelOk(g, now, base, l, levels[l])
  }

  predicate Due(g: Scale, x: Entry, ti: nat) {
    Index(g, x.time) <= ti
  }

  /** The level and offset an element is filed under are the ones its time asks for: what the
      loop of get_level_and_relative_time keeps. */
  lemma NextLevel(g: Scale, now: nat, ti: nat, l: nat, rtime: nat)
    requires Shr(rtime, g.binBits) > 0
    requires Tick(g, now, l) + rtime <= Tick(g, ti, l)
    ensures Tick(g, now, l) + Pow2(g.binBits) <= Tick(g, now, l) + rtime
    ensures Tick(g, now, l + 1) + (Shr(rtime, g.binBits) - 1) + 1 <= Tick(g, ti, l + 1)
  {
    ShrZero(rtime, g.binBits);
    ShrSum(Tick(g, now, l), rtime, g.binBits);
    ShrMono(Tick(g, now, l) + rtime, Tick(g, ti, l), g.binBits);
  }

  // ---------- What is on the wheel ----------

  function Absolute(es: seq<Elt>, base: nat): (r: seq<Entry>)
    ensures |r| == |es| && forall i :: 0 <= i < |es| ==> r[i] == Entry(es[i].user, base + es[i].rel)
  {
    seq(|es|, i requires 0 <= i < |es| => Entry(es[i].user, base + es[i].rel))
  }

  lemma WordSize()
    ensures Pow2(32) == RELATIVE_TIMES
  {
    Pow2Of32();
  }

  /** What is in the first n bins. */
  ghost function BinsUpTo(bins: seq<seq<Elt>>, n: nat, base: nat): multiset<Entry>
    requires n <= |bins|
  {
    if n == 0 then multiset{} else BinsUpTo(bins, n - 1, base) + multiset(Absolute(bins[n - 1], base))
  }

  ghost function BinsBag(bins: seq<seq<Elt>>, base: nat): multiset<Entry> {
    BinsUpTo(bins, |bins|, base)
  }

  /** What is on the first n levels. */
  ghost function LevelsUpTo(levels: seq<Level>, n: nat, base: nat): multiset<Entry>
    requires n <= |levels|
  {
    if n == 0 then multiset{} else LevelsUpTo(levels, n - 1, base) + BinsBag(levels[n - 1].bins, base)
  }

  ghost predicate IsBag(levels: seq<Level>, base: nat, bag: multiset<Entry>) {
    forall k {:trigger Open(k)} :: Open(k) ==> bag == LevelsUpTo(levels, |levels|, base)
  }

  /** What is on the wheel, as a value of which proofs see the definition only on request. */
  ghost function LevelsBag(levels: seq<Level>, base: nat): (bag: multiset<Entry>) {
    assert IsBag(levels, base, LevelsUpTo(levels, |levels|, base));
    var bag :| IsBag(levels, base, bag);
    bag
  }

  lemma BagIs(levels: seq<Level>, base: nat)
    ensures LevelsBag(levels, base) == LevelsUpTo(levels, |levels|, base)
  {
    assert IsBag(levels, base, LevelsUpTo(levels, |levels|, base));
    assert Open(0);
  }

  lemma {:induction false} EarlierBins(bins: seq<seq<Elt>>, w: nat, es: seq<Elt>, base: nat, n: nat)
    requires n <= w < |bins|
    ensures BinsUpTo(bins[w := es], n, base) == BinsUpTo(bins, n, base)
  {
    if n > 0 {
      EarlierBins(bins, w, es, base, n - 1);
    }
  }

  lemma {:induction false} BinChanged(bins: seq<seq<Elt>>, w: nat, es: seq<Elt>, base: nat, n: nat)
    requires w < n <= |bins|
    ensures BinsUpTo(bins[w := es], n, base) + multiset(Absolute(bins[w], base)) == BinsUpTo(bins, n, base) +
            multiset(Absolute(es, base))
  {
    var rest, rest' := BinsUpTo(bins, n - 1, base), BinsUpTo(bins[w := es], n - 1, base);
    var o, e, t := multiset(Absolute(bins[w], base)), multiset(Absolute(es, base)),
        multiset(Absolute(bins[n - 1], base));
    if w == n - 1 {
      EarlierBins(bins, w, es, base, n - 1);
      Swapped(rest, e, o);
    } else {
      BinChanged(bins, w, es, base, n - 1);
      Suffixed(rest, rest', o, e, t);
    }
  }

  lemma Swapped(rest: multiset<Entry>, a: multiset<Entry>, b: multiset<Entry>)
    ensures (rest + a) + b == (rest + b) + a
  {
  }

  lemma Suffixed(x: multiset<Entry>, x': multiset<Entry>, o: multiset<Entry>, e: multiset<Entry>, t: multiset<Entry>)
    requires x' + o == x + e
    ensures (x' + t) + o == (x + t) + e
  {
    assert (x' + t) + o == (x' + o) + t;
    assert (x + t) + e == (x + e) + t;
  }

  lemma {:induction false} EarlierLevels(levels: seq<Level>, l: nat, lv: Level, base: nat, n: nat)
    requires n <= l < |levels|
    ensures LevelsUpTo(levels[l := lv], n, base) == LevelsUpTo(levels, n, base)
  {
    if n > 0 {
      EarlierLevels(levels, l, lv, base, n - 1);
      assert levels[l := lv][n - 1] == levels[n - 1];
    }
  }

  lemma {:induction false} LevelChanged(levels: seq<Level>, l: nat, lv: Level, base: nat, n: nat)
    requires l < n <= |levels|
    ensures LevelsUpTo(levels[l := lv], n, base) + BinsBag(levels[l].bins, base) == LevelsUpTo(levels, n, base) +
            BinsBag(lv.bins, base)
  {
    var rest, rest' := LevelsUpTo(levels, n - 1, base), LevelsUpTo(levels[l := lv], n - 1, base);
    var o, e, t := BinsBag(levels[l].bins, base), BinsBag(lv.bins, base), BinsBag(levels[n - 1].bins, base);
    if l == n - 1 {
      EarlierLevels(levels, l, lv, base, n - 1);
      Swapped(rest, e, o);
    } else {
      LevelChanged(levels, l, lv, base, n - 1);
      Suffixed(rest, rest', o, e, t);
    }
  }

  /** Replacing one bin on one level. */
  lemma BagChanged(levels: seq<Level>, l: nat, w: nat, es: seq<Elt>, occupied: set<nat>, base: nat)
    requires l < |levels| && w < |levels[l].bins|
    ensures var levels' := levels[l := Level(occupied, levels[l].bins[w := es])];
            LevelsBag(levels', base) + multiset(Absolute(levels[l].bins[w], base)) == LevelsBag(levels, base) +
                multiset(Absolute(es, base))
  {
    BagIs(levels, base);
    BagIs(levels[l := Level(occupied, levels[l].bins[w := es])], base);
    LevelChanged(levels, l, Level(occupied, levels[l].bins[w := es]), base, |levels|);
    BinChanged(levels[l].bins, w, es, base, |levels[l].bins|);
    Balanced(LevelsBag(levels, base), LevelsBag(levels[l := Level(occupied, levels[l].bins[w := es])], base),
        BinsBag(levels[l].bins, base),
             BinsBag(levels[l].bins[w := es], base), multiset(Absolute(levels[l].bins[w], base)),
                 multiset(Absolute(es, base)));
  }

  lemma Balanced(a: multiset<Entry>, a': multiset<Entry>, b: multiset<Entry>, b': multiset<Entry>, c: multiset<Entry>,
                 c': multiset<Entry>)
    requires a' + b == a + b' && b' + c == b + c'
    ensures a' + c == a + c'
  {
    forall x: Entry ensures (a' + c)[x] == (a + c')[x] {
      assert (a' + b)[x] == (a + b')[x] && (b' + c)[x] == (b + c')[x];
    }
  }

  /** Levels not used yet hold nothing. */
  lemma {:induction false} LevelsGrown(a: seq<Level>, b: seq<Level>, base: nat, n: nat)
    requires |a| <= n <= |a + b| && forall i :: 0 <= i < |b| ==> b[i].bins == []
    ensures LevelsUpTo(a + b, n, base) == LevelsUpTo(a, |a|, base)
  {
    if n == |a| {
      SameLevels(a, a + b, base, n);
    } else {
      LevelsGrown(a, b, base, n - 1);
      assert (a + b)[n - 1].bins == [];
      assert BinsBag([], base) == multiset{};
    }
  }

  lemma {:induction false} SameLevels(a: seq<Level>, c: seq<Level>, base: nat, n: nat)
    requires n <= |a| && n <= |c| && forall i :: 0 <= i < n ==> a[i] == c[i]
    ensures LevelsUpTo(c, n, base) == LevelsUpTo(a, n, base)
  {
    if n > 0 {
      SameLevels(a, c, base, n - 1);
    }
  }

  lemma {:induction false} EmptyBins(bins: seq<seq<Elt>>, base: nat, n: nat)
    requires n <= |bins| && forall w :: 0 <= w < n ==> bins[w] == []
    ensures BinsUpTo(bins, n, base) == multiset{}
  {
    if n > 0 {
      EmptyBins(bins, base, n - 1);
      assert Absolute(bins[n - 1], base) == [];
    }
  }

  lemma {:induction false} FindBin(bins: seq<seq<Elt>>, x: Entry, base: nat, n: nat) returns (w: nat, i: nat)
    requires n <= |bins| && x in BinsUpTo(bins, n, base)
    ensures w < |bins| && i < |bins[w]| && x == Entry(bins[w][i].user, base + bins[w][i].rel)
  {
    if x in multiset(Absolute(bins[n - 1], base)) {
      w := n - 1;
      i :| 0 <= i < |bins[w]| && Absolute(bins[w], base)[i] == x;
    } else {
      w, i := FindBin(bins, x, base, n - 1);
    }
  }

  lemma {:induction false} FindOnLevel(levels: seq<Level>, x: Entry, base: nat, n: nat) returns (l: nat, w: nat, i: nat)
    requires n <= |levels| && x in LevelsUpTo(levels, n, base)
    ensures l < |levels| && w < |levels[l].bins| && i < |levels[l].bins[w]|
    ensures x == Entry(levels[l].bins[w][i].user, base + levels[l].bins[w][i].rel)
  {
    if x in BinsBag(levels[n - 1].bins, base) {
      l := n - 1;
      w, i := FindBin(levels[l].bins, x, base, |levels[l].bins|);
    } else {
      l, w, i := FindOnLevel(levels, x, base, n - 1);
    }
  }

  /** Everything on the wheel is in some bin. */
  lemma FindLevel(levels: seq<Level>, x: Entry, base: nat) returns (l: nat, w: nat, i: nat)
    requires x in LevelsBag(levels, base)
    ensures l < |levels| && w < |levels[l].bins| && i < |levels[l].bins[w]|
    ensures x == Entry(levels[l].bins[w][i].user, base + levels[l].bins[w][i].rel)
  {
    BagIs(levels, base);
    l, w, i := FindOnLevel(levels, x, base, |levels|);
  }

  /** Everything in a bin is on the wheel. */
  lemma InBag(levels: seq<Level>, l: nat, w: nat, i: nat, base: nat)
    requires l < |levels| && w < |levels[l].bins| && i < |levels[l].bins[w]|
    ensures Entry(levels[l].bins[w][i].user, base + levels[l].bins[w][i].rel) in LevelsBag(levels, base)
  {
    var x := Entry(levels[l].bins[w][i].user, base + levels[l].bins[w][i].rel);
    BagChanged(levels, l, w, [], {}, base);
    assert Absolute(levels[l].bins[w], base)[i] == x;
    var here, none := multiset(Absolute(levels[l].bins[w], base)), multiset(Absolute([], base));
    assert none[x] == 0 && here[x] > 0;
    assert (LevelsBag(levels[l := Level({}, levels[l].bins[w := []])], base) + here)[x] ==
        (LevelsBag(levels, base) + none)[x];
  }

  /** The user data of the entries, in order, without those deleted. */
  function Users(s: seq<Entry>, deleted: set<nat>): seq<nat> {
    if s == [] then []
    else
      var x := s[|s| - 1];
      Users(s[..|s| - 1], deleted) + if x.user in deleted then [] else [x.user]
  }

  lemma UsersOneMore(s: seq<Entry>, x: Entry, deleted: set<nat>)
    ensures Users(s + [x], deleted) == Users(s, deleted) + if x.user in deleted then [] else [x.user]
  {
    assert (s + [x])[..|s|] == s;
  }

  lemma {:induction false} UsersJoined(s: seq<Entry>, t: seq<Entry>, deleted: set<nat>)
    ensures Users(s + t, deleted) == Users(s, deleted) + Users(t, deleted)
  {
    if t == [] {
      assert s + t == s;
    } else {
      var t' := t[..|t| - 1];
      UsersJoined(s, t', deleted);
      assert (s + t)[..|s + t| - 1] == s + t';
    }
  }

  // ---------- What the passage of time requires of the bins ----------

  /** No element is left in the bins numbered up to a. */
  ghost predicate ClearedTo(g: Scale, lv: Level, c: nat, a: nat)
    requires |lv.bins| == 0 || |lv.bins| == Pow2(g.binBits)
  {
    forall w :: 0 <= w < |lv.bins| && Unwrap(g, c, w) <= a ==> lv.bins[w] == []
  }

  /** The level is ready for time to move from now to ti. */
  ghost predicate Passed(g: Scale, now: nat, ti: nat, l: nat, lv: Level)
    requires |lv.bins| == 0 || |lv.bins| == Pow2(g.binBits)
  {
    || (l > 0 && Tick(g, now, l) == Tick(g, ti, l))
    || ClearedTo(g, lv, Tick(g, now, l), Tick(g, ti, l))
  }

  ghost predicate LevelPassed(g: Scale, now: nat, ti: nat, l: nat, lv: Level) {
    (|lv.bins| == 0 || |lv.bins| == Pow2(g.binBits)) && Passed(g, now, ti, l, lv)
  }

  ghost predicate LevelsPassed(g: Scale, now: nat, ti: nat, levels: seq<Level>, above: nat) {
    forall l {:trigger LevelPassed(g, now, ti, l, levels[l])} :: above <= l < |levels| ==>
        LevelPassed(g, now, ti, l, levels[l])
  }

  /** The key step: once a level has been passed, everything left on it is still in the right
      place at the new time, and not due yet. */
  lemma LevelMoved(g: Scale, now: nat, ti: nat, base: nat, l: nat, lv: Level)
    requires LevelOk(g, now, base, l, lv) && now <= ti && Passed(g, now, ti, l, lv)
    ensures LevelOk(g, ti, base, l, lv)
    ensures forall w, i :: 0 <= w < |lv.bins| && 0 <= i < |lv.bins[w]| ==> Index(g, base + lv.bins[w][i].rel) > ti
  {
    var c, a := Tick(g, now, l), Tick(g, ti, l);
    TickMono(g, now, ti, l);
    forall w | 0 <= w < |lv.bins|
      ensures BinOk(g, ti, base, l, w, lv.bins[w])
      ensures forall i :: 0 <= i < |lv.bins[w]| ==> Index(g, base + lv.bins[w][i].rel) > ti
    {
      assert BinOk(g, now, base, l, w, lv.bins[w]);
      if lv.bins[w] != [] {
        UnwrapStable(g, c, a, w);
        forall i | 0 <= i < |lv.bins[w]|
          ensures Filed(g, ti, l, w, base + lv.bins[w][i].rel) && Index(g, base + lv.bins[w][i].rel) > ti
        {
          assert Filed(g, now, l, w, base + lv.bins[w][i].rel);
          if Index(g, base + lv.bins[w][i].rel) <= ti {
            TickMono(g, Index(g, base + lv.bins[w][i].rel), ti, l);
          }
        }
      }
    }
  }

  ghost predicate NoneDue(g: Scale, bag: multiset<Entry>, ti: nat) {
    forall x :: x in bag ==> !Due(g, x, ti)
  }

  /** All levels together. */
  lemma WheelMoved(g: Scale, now: nat, ti: nat, base: nat, levels: seq<Level>)
    requires LevelsOk(g, now, base, levels) && now <= ti && LevelsPassed(g, now, ti, levels, 0)
    ensures LevelsOk(g, ti, base, levels)
    ensures NoneDue(g, LevelsBag(levels, base), ti)
  {
    forall l | 0 <= l < |levels| ensures LevelOk(g, ti, base, l, levels[l]) {
      assert LevelOk(g, now, base, l, levels[l]) && LevelPassed(g, now, ti, l, levels[l]);
      LevelMoved(g, now, ti, base, l, levels[l]);
    }
    forall x | x in LevelsBag(levels, base) ensures !Due(g, x, ti) {
      var l, w, i := FindLevel(levels, x, base);
      assert LevelOk(g, now, base, l, levels[l]) && LevelPassed(g, now, ti, l, levels[l]);
      LevelMoved(g, now, ti, base, l, levels[l]);
    }
  }

  // ---------- Dropping what was deleted ----------

  /** delete_user_data: the elements of other users, in order. */
  function WithoutUser(es: seq<Elt>, user: nat): seq<Elt> {
    if es == [] then []
    else
      var e := es[|es| - 1];
      WithoutUser(es[..|es| - 1], user) + if e.user == user then [] else [e]
  }

  ghost predicate NoUser(es: seq<Elt>, user: nat) {
    forall i :: 0 <= i < |es| ==> es[i].user != user
  }

  lemma {:induction false} WithoutUserElts(es: seq<Elt>, user: nat)
    ensures NoUser(WithoutUser(es, user), user)
    ensures forall e :: e in WithoutUser(es, user) ==> e in es
  {
    if es != [] {
      WithoutUserElts(es[..|es| - 1], user);
    }
  }

  lemma {:induction false} NobodyLeft(es: seq<Elt>, user: nat)
    requires NoUser(es, user)
    ensures WithoutUser(es, user) == es
  {
    if es != [] {
      NobodyLeft(es[..|es| - 1], user);
      assert es == es[..|es| - 1] + [es[|es| - 1]];
    }
  }

  lemma {:induction false} WithoutUserBag(es: seq<Elt>, user: nat, base: nat, x: Entry)
    requires x.user != user
    ensures multiset(Absolute(WithoutUser(es, user), base))[x] == multiset(Absolute(es, base))[x]
  {
    if es != [] {
      var rest, e := es[..|es| - 1], es[|es| - 1];
      var left := WithoutUser(rest, user);
      WithoutUserBag(rest, user, base, x);
      assert es == rest + [e] && WithoutUser(es, user) == left + if e.user == user then [] else [e];
      OneMoreInBag(rest, e, base, x);
      if e.user == user {
        assert left + [] == left;
      } else {
        OneMoreInBag(left, e, base, x);
      }
    }
  }

  lemma OneMoreInBag(es: seq<Elt>, e: Elt, base: nat, x: Entry)
    ensures multiset(Absolute(es + [e], base))[x] ==
            multiset(Absolute(es, base))[x] + if x == Entry(e.user, base + e.rel) then 1 else 0
  {
    assert Absolute(es + [e], base) == Absolute(es, base) + [Entry(e.user, base + e.rel)];
  }

  function OtherEntries(s: seq<Entry>, user: nat): seq<Entry> {
    if s == [] then []
    else
      var x := s[|s| - 1];
      OtherEntries(s[..|s| - 1], user) + if x.user == user then [] else [x]
  }

  lemma {:induction false} OtherEntriesBag(s: seq<Entry>, user: nat, x: Entry)
    ensures multiset(OtherEntries(s, user))[x] == if x.user == user then 0 else multiset(s)[x]
  {
    if s != [] {
      OtherEntriesBag(s[..|s| - 1], user, x);
      assert s == s[..|s| - 1] + [s[|s| - 1]];
    }
  }

  /** The level with the elements of one user taken out of one bin. */
  function Purged(lv: Level, w: nat, user: nat): Level
    requires w < |lv.bins|
  {
    var es := WithoutUser(lv.bins[w], user);
    Level(if es == [] then lv.occupied - {w} else lv.occupied, lv.bins[w := es])
  }

  lemma PurgedBag(levels: seq<Level>, l: nat, w: nat, user: nat, base: nat, x: Entry)
    requires l < |levels| && w < |levels[l].bins| && x.user != user
    ensures LevelsBag(levels[l := Purged(levels[l], w, user)], base)[x] == LevelsBag(levels, base)[x]
  {
    var lv, es := Purged(levels[l], w, user), WithoutUser(levels[l].bins[w], user);
    BagChanged(levels, l, w, es, lv.occupied, base);
    WithoutUserBag(levels[l].bins[w], user, base, x);
    assert (LevelsBag(levels[l := lv], base) + multiset(Absolute(levels[l].bins[w], base)))[x]
        == (LevelsBag(levels, base) + multiset(Absolute(es, base)))[x];
  }

  lemma PurgedOk(g: Scale, now: nat, base: nat, levels: seq<Level>, l: nat, w: nat, user: nat)
    requires LevelsOk(g, now, base, levels) && l < |levels| && w < |levels[l].bins| && w in levels[l].occupied
    ensures LevelsOk(g, now, base, levels[l := Purged(levels[l], w, user)])
    ensures forall x: Entry :: x.user != user ==>
            LevelsBag(levels[l := Purged(levels[l], w, user)], base)[x] == LevelsBag(levels, base)[x]
  {
    forall x: Entry | x.user != user
      ensures LevelsBag(levels[l := Purged(levels[l], w, user)], base)[x] == LevelsBag(levels, base)[x]
    {
      PurgedBag(levels, l, w, user, base, x);
    }
    assert LevelOk(g, now, base, l, levels[l]);
    PurgedLevelOk(g, now, base, l, levels[l], w, user);
    var levels' := levels[l := Purged(levels[l], w, user)];
    forall k | 0 <= k < |levels'| ensures LevelOk(g, now, base, k, levels'[k]) {
      assert LevelOk(g, now, base, k, levels[k]);
    }
  }

  lemma PurgedLevelOk(g: Scale, now: nat, base: nat, l: nat, lv: Level, w: nat, user: nat)
    requires LevelOk(g, now, base, l, lv) && w < |lv.bins| && w in lv.occupied
    ensures LevelOk(g, now, base, l, Purged(lv, w, user))
  {
    var lv' := Purged(lv, w, user);
    WithoutUserElts(lv.bins[w], user);
    forall v | 0 <= v < |lv.bins| ensures BinOk(g, now, base, l, v, lv'.bins[v]) {
      assert BinOk(g, now, base, l, v, lv.bins[v]);
      var es := lv'.bins[v];
      forall i | 0 <= i < |es| ensures es[i].rel < RELATIVE_TIMES && Filed(g, now, l, v, base + es[i].rel) {
        assert es[i] in lv.bins[v];
      }
    }
  }

  // ---------- Operations ----------

  /** Whether a time can be stored relative to the base.  The source subtracts in 64 bits, where
      a time before the base gives a number too large to store as well. */
  predicate Fits(time: nat, base: nat) {
    base <= time < base + RELATIVE_TIMES
  }

  /** The level with one bin emptied. */
  function Emptied(lv: Level, w: nat): Level
    requires w < |lv.bins|
  {
    Level(lv.occupied - {w}, lv.bins[w := []])
  }

  lemma EmptiedOk(g: Scale, now: nat, base: nat, levels: seq<Level>, l: nat, w: nat)
    requires LevelsOk(g, now, base, levels) && l < |levels| && w < |levels[l].bins|
    ensures LevelsOk(g, now, base, levels[l := Emptied(levels[l], w)])
    ensures LevelsBag(levels[l := Emptied(levels[l], w)], base) +
            multiset(Absolute(levels[l].bins[w], base)) == LevelsBag(levels, base)
  {
    BagChanged(levels, l, w, [], levels[l].occupied - {w}, base);
    assert multiset(Absolute([], base)) == multiset{};
    var lv := Emptied(levels[l], w);
    assert LevelOk(g, now, base, l, levels[l]);
    forall v | 0 <= v < |lv.bins| ensures BinOk(g, now, base, l, v, lv.bins[v]) {
      assert v != w ==> BinOk(g, now, base, l, v, levels[l].bins[v]);
    }
    var levels' := levels[l := lv];
    forall k | 0 <= k < |levels'| ensures LevelOk(g, now, base, k, levels'[k]) {
      assert LevelOk(g, now, base, k, levels[k]);
    }
  }

  /** Nothing is lost or made up: what is on the wheel, waits to be filed again or has gone is
      what was on the wheel. */
  ghost predicate Balance(bag: multiset<Entry>, waiting: multiset<Entry>, gone: multiset<Entry>,
                          bag0: multiset<Entry>) {
    bag + waiting + gone == bag0
  }

  lemma BalanceKept(bag: multiset<Entry>, bag': multiset<Entry>, es: multiset<Entry>, waiting: multiset<Entry>,
                    waiting': multiset<Entry>,
                    gone: multiset<Entry>, gone': multiset<Entry>, bag0: multiset<Entry>)
    requires Balance(bag, waiting, gone, bag0) && bag' + es == bag && waiting' + gone' == waiting + gone + es
    ensures Balance(bag', waiting', gone', bag0)
  {
    forall x: Entry ensures (bag' + waiting' + gone')[x] == bag0[x] {
      assert (waiting' + gone')[x] == (waiting + gone + es)[x];
    }
  }

  // ---------- Moving the time base ----------

  ghost predicate BinAtLeast(es: seq<Elt>, delta: nat) {
    forall i :: 0 <= i < |es| ==> es[i].rel >= delta
  }

  ghost predicate LevelAtLeast(lv: Level, delta: nat) {
    forall w :: 0 <= w < |lv.bins| ==> BinAtLeast(lv.bins[w], delta)
  }

  /** Every relative time is at least delta. */
  ghost predicate AtLeast(levels: seq<Level>, delta: nat) {
    forall l :: 0 <= l < |levels| ==> LevelAtLeast(levels[l], delta)
  }

  /** The same elements relative to a base later by delta. */
  ghost predicate RebasedBin(es: seq<Elt>, es': seq<Elt>, delta: nat) {
    |es'| == |es| && forall i :: 0 <= i < |es| ==> es[i].rel >= delta && es'[i] == Elt(es[i].user, es[i].rel - delta)
  }

  ghost predicate RebasedLevel(lv: Level, lv': Level, delta: nat) {
    && lv'.occupied == lv.occupied && |lv'.bins| == |lv.bins|
    && forall w :: 0 <= w < |lv.bins| ==> RebasedBin(lv.bins[w], lv'.bins[w], delta)
  }

  lemma {:induction false} RebasedBins(bins: seq<seq<Elt>>, bins': seq<seq<Elt>>, base: nat, delta: nat, n: nat)
    requires n <= |bins'| == |bins| && forall w :: 0 <= w < |bins| ==> RebasedBin(bins[w], bins'[w], delta)
    ensures BinsUpTo(bins', n, base + delta) == BinsUpTo(bins, n, base)
  {
    if n > 0 {
      assert RebasedBin(bins[n - 1], bins'[n - 1], delta);
      assert Absolute(bins'[n - 1], base + delta) == Absolute(bins[n - 1], base);
      RebasedBins(bins, bins', base, delta, n - 1);
    }
  }

  lemma RebasedLevelBag(lv: Level, lv': Level, base: nat, delta: nat)
    requires RebasedLevel(lv, lv', delta)
    ensures BinsBag(lv'.bins, base + delta) == BinsBag(lv.bins, base)
  {
    RebasedBins(lv.bins, lv'.bins, base, delta, |lv.bins|);
  }

  lemma {:induction false} RebasedBag(levels: seq<Level>, levels': seq<Level>, base: nat, delta: nat, n: nat)
    requires n <= |levels'| == |levels| && forall l :: 0 <= l < |levels| ==> RebasedLevel(levels[l], levels'[l], delta)
    ensures LevelsUpTo(levels', n, base + delta) == LevelsUpTo(levels, n, base)
  {
    if n > 0 {
      RebasedLevelBag(levels[n - 1], levels'[n - 1], base, delta);
      RebasedBag(levels, levels', base, delta, n - 1);
    }
  }

  lemma RebasedOk(g: Scale, now: nat, levels: seq<Level>, levels': seq<Level>, base: nat, delta: nat)
    requires LevelsOk(g, now, base, levels)
    requires |levels'| == |levels| && forall l :: 0 <= l < |levels| ==> RebasedLevel(levels[l], levels'[l], delta)
    ensures LevelsOk(g, now, base + delta, levels')
  {
    forall l | 0 <= l < |levels'| ensures LevelOk(g, now, base + delta, l, levels'[l]) {
      assert LevelOk(g, now, base, l, levels[l]) && RebasedLevel(levels[l], levels'[l], delta);
      forall w | 0 <= w < |levels'[l].bins| ensures BinOk(g, now, base + delta, l, w, levels'[l].bins[w]) {
        assert BinOk(g, now, base, l, w, levels[l].bins[w]) && RebasedBin(levels[l].bins[w], levels'[l].bins[w], delta);
      }
    }
  }

  lemma RebasedWheel(g: Scale, now: nat, levels: seq<Level>, levels': seq<Level>, base: nat, delta: nat)
    requires LevelsOk(g, now, base, levels)
    requires |levels'| == |levels| && forall l :: 0 <= l < |levels| ==> RebasedLevel(levels[l], levels'[l], delta)
    ensures LevelsOk(g, now, base + delta, levels') && LevelsBag(levels', base + delta) == LevelsBag(levels, base)
  {
    RebasedOk(g, now, levels, levels', base, delta);
    RebasedBag(levels, levels', base, delta, |levels|);
    BagIs(levels, base);
    BagIs(levels', base + delta);
  }

  /** What is left when everything due has gone, and what has gone, add up to what there was. */
  lemma Exactly(g: Scale, bag: multiset<Entry>, gone: seq<Entry>, bag0: multiset<Entry>, far: seq<Entry>, ti: nat)
    requires bag + multiset(gone) == bag0 && NoneDue(g, bag, ti) && forall i :: 0 <= i < |gone| ==> Due(g, gone[i], ti)
    requires forall x :: x in far ==> !Due(g, x, ti)
    ensures Parted(g, bag0 + multiset(far), multiset(gone), bag + multiset(far), ti)
  {
    forall x: Entry
      ensures multiset(gone)[x] == if Due(g, x, ti) then (bag0 + multiset(far))[x] else 0
      ensures (bag + multiset(far))[x] == if Due(g, x, ti) then 0 else (bag0 + multiset(far))[x]
    {
      assert (bag + multiset(gone))[x] == bag0[x];
      assert multiset(gone)[x] > 0 ==> x in gone;
      assert multiset(far)[x] > 0 ==> x in far;
    }
  }

  /** gone is the part of all that is due, left the part that is not. */
  ghost predicate Parted(g: Scale, all: multiset<Entry>, gone: multiset<Entry>, left: multiset<Entry>, ti: nat) {
    && (forall x: Entry :: gone[x] == if Due(g, x, ti) then all[x] else 0)
    && (forall x: Entry :: left[x] == if Due(g, x, ti) then 0 else all[x])
  }

  /** Of what is not deleted, users lists exactly what was due, and the rest is left. */
  ghost predicate Exact(g: Scale, all: multiset<Entry>, users: seq<nat>, left: multiset<Entry>, deleted: set<nat>,
                        ti: nat) {
    exists gone: seq<Entry> :: users == Users(gone, deleted) && RightParts(g, all, multiset(gone), left, deleted, ti)
  }

  ghost predicate RightParts(g: Scale, all: multiset<Entry>, gone: multiset<Entry>, left: multiset<Entry>,
                             deleted: set<nat>, ti: nat) {
    forall x: Entry :: x.user !in deleted ==>
      gone[x] == (if Due(g, x, ti) then all[x] else 0) && left[x] == (if Due(g, x, ti) then 0 else all[x])
  }

  /** After an advance: bag was left on the levels, gone was taken from them, pool was the overflow
      pool, of which late was dropped without the caller seeing it. */
  lemma WhenLost(g: Scale, bag: multiset<Entry>, gone: seq<Entry>, bag0: multiset<Entry>, pool: seq<Entry>,
                 left: multiset<Entry>, late: seq<Entry>, deleted: set<nat>, ti: nat)
    requires bag + multiset(gone) == bag0 && NoneDue(g, bag, ti) && forall i :: 0 <= i < |gone| ==> Due(g, gone[i], ti)
    requires left + multiset(late) == bag + multiset(pool) && forall i :: 0 <= i < |late| ==> Due(g, late[i], ti)
    ensures Exact(g, bag0 + multiset(pool), Users(gone, deleted), left, deleted, ti) <==>
            forall x :: x in pool && Due(g, x, ti) ==> x.user in deleted
  {
    var all := bag0 + multiset(pool);
    if forall x :: x in pool && Due(g, x, ti) ==> x.user in deleted {
      OnlyDeletedLate(g, bag, gone, bag0, pool, left, late, deleted, ti);
      assert RightParts(g, all, multiset(gone), left, deleted, ti);
    } else if Exact(g, all, Users(gone, deleted), left, deleted, ti) {
      var other: seq<Entry> :| Users(gone, deleted) == Users(other, deleted) &&
          RightParts(g, all, multiset(other), left, deleted, ti);
      var x :| x in pool && Due(g, x, ti) && x.user !in deleted;
      forall y: Entry | y.user !in deleted
        ensures multiset(gone)[y] <= multiset(other)[y] && (y == x ==> multiset(gone)[y] < multiset(other)[y])
      {
        assert multiset(other)[y] == if Due(g, y, ti) then all[y] else 0;
        assert (bag + multiset(gone))[y] == bag0[y];
        assert multiset(gone)[y] > 0 ==> y in gone;
      }
      MoreUsers(gone, other, deleted, x);
      assert false;
    }
  }

  /** The same, if the caller sees late appended to the result: then the due entries that are left
      are those inserted before the base and those of the current bin. */
  lemma WhenSeen(g: Scale, bag: multiset<Entry>, gone: seq<Entry>, bag0: multiset<Entry>, base: nat, pool: seq<Entry>,
                 left: multiset<Entry>, late: seq<Entry>, deleted: set<nat>, ti: nat, room: Room)
    requires bag + multiset(gone) == bag0 && NoneDue(g, bag, ti) && forall i :: 0 <= i < |gone| ==> Due(g, gone[i], ti)
    requires left + multiset(late) == bag + multiset(pool) && LatePart(g, pool, late, base, ti) && room.Spare?
    ensures Exact(g, bag0 + multiset(pool), Users(gone + late, deleted), left, deleted, ti) <==>
            AllSeen(g, base, pool, deleted, ti, room)
  {
    var all := bag0 + multiset(pool);
    forall x: Entry
      ensures left[x] + multiset(late)[x] == bag[x] + multiset(pool)[x]
      ensures multiset(gone + late)[x] == multiset(gone)[x] + multiset(late)[x]
      ensures multiset(gone)[x] == if Due(g, x, ti) then bag0[x] else 0
    {
      assert (bag + multiset(gone))[x] == bag0[x];
      assert (left + multiset(late))[x] == (bag + multiset(pool))[x];
      assert multiset(gone)[x] > 0 ==> x in gone;
    }
    if x :| x in pool && Due(g, x, ti) && x.user !in deleted && !Late(g, x, base, ti) {
      assert left[x] > 0;
    } else {
      forall x: Entry | x.user !in deleted
        ensures multiset(gone + late)[x] == if Due(g, x, ti) then all[x] else 0
        ensures left[x] == if Due(g, x, ti) then 0 else all[x]
      {
        assert multiset(pool)[x] > 0 ==> x in pool;
        assert Late(g, x, base, ti) ==> Due(g, x, ti);
      }
      assert RightParts(g, all, multiset(gone + late), left, deleted, ti);
    }
  }

  lemma OnlyDeletedLate(g: Scale, bag: multiset<Entry>, gone: seq<Entry>, bag0: multiset<Entry>, pool: seq<Entry>,
                        left: multiset<Entry>, late: seq<Entry>, deleted: set<nat>, ti: nat)
    requires bag + multiset(gone) == bag0 && NoneDue(g, bag, ti) && forall i :: 0 <= i < |gone| ==> Due(g, gone[i], ti)
    requires left + multiset(late) == bag + multiset(pool) && forall i :: 0 <= i < |late| ==> Due(g, late[i], ti)
    requires forall x :: x in pool && Due(g, x, ti) ==> x.user in deleted
    ensures RightParts(g, bag0 + multiset(pool), multiset(gone), left, deleted, ti)
  {
    forall x: Entry | x.user !in deleted
      ensures multiset(gone)[x] == if Due(g, x, ti) then (bag0 + multiset(pool))[x] else 0
      ensures left[x] == if Due(g, x, ti) then 0 else (bag0 + multiset(pool))[x]
    {
      assert (bag + multiset(gone))[x] == bag0[x] && (left + multiset(late))[x] == (bag + multiset(pool))[x];
      assert multiset(gone)[x] > 0 ==> x in gone;
      assert multiset(late)[x] > 0 ==> x in late;
      assert multiset(pool)[x] > 0 ==> x in pool;
    }
  }

  /** The undeleted entries. */
  function Undeleted(s: seq<Entry>, deleted: set<nat>): seq<Entry> {
    if s == [] then []
    else Undeleted(s[..|s| - 1], deleted) + if s[|s| - 1].user in deleted then [] else [s[|s| - 1]]
  }

  lemma {:induction false} UndeletedBag(s: seq<Entry>, deleted: set<nat>, x: Entry)
    ensures |Undeleted(s, deleted)| == |Users(s, deleted)|
    ensures multiset(Undeleted(s, deleted))[x] == if x.user in deleted then 0 else multiset(s)[x]
  {
    if s != [] {
      var n := |s| - 1;
      UndeletedBag(s[..n], deleted, x);
      assert s == s[..n] + [s[n]];
    }
  }

  /** More undeleted entries have more users. */
  lemma MoreUsers(s: seq<Entry>, t: seq<Entry>, deleted: set<nat>, x: Entry)
    requires x.user !in deleted && multiset(s)[x] < multiset(t)[x]
    requires forall y: Entry :: y.user !in deleted ==> multiset(s)[y] <= multiset(t)[y]
    ensures |Users(s, deleted)| < |Users(t, deleted)|
  {
    var a, b := multiset(Undeleted(s, deleted)), multiset(Undeleted(t, deleted));
    forall y: Entry
      ensures a[y] <= b[y] && (y == x ==> a[y] < b[y])
    {
      UndeletedBag(s, deleted, y);
      UndeletedBag(t, deleted, y);
    }
    UndeletedBag(s, deleted, x);
    UndeletedBag(t, deleted, x);
    LargerBag(a, b, x);
  }

  lemma LargerBag(a: multiset<Entry>, b: multiset<Entry>, x: Entry)
    requires (forall y: Entry :: a[y] <= b[y]) && a[x] < b[x]
    ensures |a| < |b|
  {
    var c := b - a;
    assert b == a + c && x in c;
    assert |b| == |a| + |c|;
  }

  /** The time base after an advance to time index now. */
  function NewBase(g: Scale, bits: nat, base: nat, now: nat): nat
    requires g.clockBits <= bits
    decreases if Index(g, base) <= now then now + 1 - Index(g, base) else 0
  {
    if now < Index(g, base) + Pow2(bits - g.clockBits) then base
    else
      ShrPlusPow(base, bits - g.clockBits, g.clockBits);
      NewBase(g, bits, base + Pow2(bits), now)
  }

  // ---------- The result vector while the time base moves ----------

  /** The spare room of a vector, which is none while it is a null pointer. */
  datatype Room = Null | Spare(n: nat)

  /** The vector of expired users. */
  datatype Expired = Expired(users: seq<nat>, room: Room)

  /** How timing_wheel_advance ends: with a result, at an assertion, or with a pointer to a vector
      that has been moved and freed. */
  datatype Outcome = Returned | AssertionFailed | Moved

  /** A vector that holds something is not null, whatever was given; it may be full. */
  function RoomOf(room: Room, users: seq<nat>): Room {
    if room == Null && users != [] then Spare(0) else room
  }

  /** What the caller sees when late has been appended to a copy of its pointer v0: an element for
      which there is room, and none of a vector that was null. */
  ghost predicate Grown(v0: Expired, v: Expired, late: seq<Entry>, deleted: set<nat>) {
    forall k {:trigger Open(k)} :: Open(k) ==> GrownBy(v0, v, Users(late, deleted))
  }

  predicate GrownBy(v0: Expired, v: Expired, users: seq<nat>) {
    match v0.room
    case Null => v == v0
    case Spare(n) => v.users == v0.users + users && v.room.Spare? && v.room.n + |users| == n
  }

  lemma GrownByNone(v: Expired, deleted: set<nat>)
    ensures Grown(v, v, [], deleted)
  {
  }

  lemma GrownUsers(v0: Expired, v: Expired, late: seq<Entry>, deleted: set<nat>)
    requires Grown(v0, v, late, deleted)
    ensures v.users == v0.users + if v0.room.Null? then [] else Users(late, deleted)
  {
    assert Open(0);
  }

  /** vec_add1 by a copy of the pointer, which moves a vector that is full. */
  method AppendToCopy(x: Entry, v: Expired, deleted: set<nat>, ghost late: seq<Entry>, ghost v0: Expired)
    returns (moved: bool, v': Expired)
    requires Grown(v0, v, late, deleted)
    ensures if moved then TooMany(v0.room, late + [x], deleted) else Grown(v0, v', late + [x], deleted)
  {
    UsersOneMore(late, x, deleted);
    assert Open(0);
    if x.user in deleted || v.room.Null? {
      return false, v;
    } else if v.room.n == 0 {
      return true, v;
    }
    return false, Expired(v.users + [x.user], Spare(v.room.n - 1));
  }

  ghost predicate TooMany(room: Room, late: seq<Entry>, deleted: set<nat>) {
    room.Spare? && |Users(late, deleted)| > room.n
  }

  /** Found to have expired, when the time base has moved on from base. */
  predicate Late(g: Scale, x: Entry, base: nat, now: nat) {
    base <= x.time && Index(g, x.time) < now
  }

  function LateOnes(g: Scale, pool: seq<Entry>, base: nat, now: nat): seq<Entry> {
    if pool == [] then []
    else
      var x := pool[|pool| - 1];
      LateOnes(g, pool[..|pool| - 1], base, now) + if Late(g, x, base, now) then [x] else []
  }

  ghost predicate LatePart(g: Scale, pool: seq<Entry>, late: seq<Entry>, base: nat, now: nat) {
    forall x: Entry :: multiset(late)[x] == if Late(g, x, base, now) then multiset(pool)[x] else 0
  }

  lemma {:induction false} LateOnesPart(g: Scale, pool: seq<Entry>, base: nat, now: nat)
    ensures LatePart(g, pool, LateOnes(g, pool, base, now), base, now)
  {
    if pool != [] {
      var n := |pool| - 1;
      LateOnesPart(g, pool[..n], base, now);
      assert pool == pool[..n] + [pool[n]];
    }
  }

  /** Not left in time: x is due in the current bin, but before the base b. */
  predicate Stuck(g: Scale, x: Entry, base: nat, b: nat, now: nat) {
    base <= x.time < b && Index(g, x.time) == now
  }

  ghost predicate SomeStuckIn(g: Scale, bits: nat, base: nat, pool: seq<Entry>, now: nat)
    requires g.clockBits <= bits
  {
    exists x :: x in pool && Stuck(g, x, base, NewBase(g, bits, base, now), now)
  }

  /** There is a result if and only if nothing is stuck and the late elements need no new vector. */
  ghost predicate Ends(outcome: Outcome, g: Scale, bits: nat, base: nat, pool: seq<Entry>, deleted: set<nat>, now: nat,
                       room: Room)
    requires g.clockBits <= bits
  {
    var stuck, tooMany := SomeStuckIn(g, bits, base, pool, now), TooMany(room, LateOnes(g, pool, base, now), deleted);
    match outcome
    case Returned => !stuck && !tooMany
    case AssertionFailed => stuck
    case Moved => tooMany
  }

  /** Of what is due and not deleted, all is found late, by a caller who sees it. */
  ghost predicate AllSeen(g: Scale, base: nat, pool: seq<Entry>, deleted: set<nat>, now: nat, room: Room) {
    forall x :: x in pool && Due(g, x, now) ==> x.user in deleted || (room.Spare? && Late(g, x, base, now))
  }

  /** With no room, the result is right if and only if nothing is stuck, and nothing due in the
      overflow pool but what is deleted. */
  lemma WithoutRoom(g: Scale, bits: nat, base: nat, pool: seq<Entry>, deleted: set<nat>, now: nat, room: Room)
    requires g.clockBits <= bits && (room == Null || room == Spare(0))
    ensures Ends(Returned, g, bits, base, pool, deleted, now, room) && AllSeen(g, base, pool, deleted, now, room) <==>
            !SomeStuckIn(g, bits, base, pool, now) && forall x :: x in pool && Due(g, x, now) ==> x.user in deleted
  {
    var late := LateOnes(g, pool, base, now);
    LateOnesPart(g, pool, base, now);
    if x :| x in pool && Late(g, x, base, now) && x.user !in deleted {
      assert multiset(late)[x] > 0;
      UserReturned(late, x, deleted);
    } else {
      forall i | 0 <= i < |late| ensures late[i].user in deleted {
        assert late[i] in multiset(late) && multiset(pool)[late[i]] > 0;
      }
      NoUsers(late, deleted);
    }
  }

  lemma {:induction false} NoUsers(s: seq<Entry>, deleted: set<nat>)
    requires forall i :: 0 <= i < |s| ==> s[i].user in deleted
    ensures Users(s, deleted) == []
  {
    if s != [] {
      NoUsers(s[..|s| - 1], deleted);
    }
  }

  /** No more undeleted entries have no more users. */
  lemma NotMoreUsers(s: seq<Entry>, t: seq<Entry>, deleted: set<nat>)
    requires forall y: Entry :: multiset(s)[y] <= multiset(t)[y]
    ensures |Users(s, deleted)| <= |Users(t, deleted)|
  {
    var a, b := multiset(Undeleted(s, deleted)), multiset(Undeleted(t, deleted));
    forall y: Entry
      ensures a[y] <= b[y]
    {
      UndeletedBag(s, deleted, y);
      UndeletedBag(t, deleted, y);
    }
    UndeletedBag(s, deleted, Entry(0, 0));
    UndeletedBag(t, deleted, Entry(0, 0));
    assert b == a + (b - a);
  }

  // ---------- Whole runs ----------

  /** What a wheel holds, as its callers see it. */
  datatype State = State(contents: multiset<Entry>, deleted: set<nat>, now: nat)

  datatype Op = Insert(x: Entry) | Delete(user: nat) | Advance(ti: nat, gone: seq<Entry>)

  ghost predicate Step(g: Scale, s: State, op: Op, s': State) {
    match op
    case Insert(x) =>
      && s.now <= Index(g, x.time) && s'.now == s.now && s'.deleted == s.deleted - {x.user}
      && forall y: Entry :: s'.contents[y] ==
           (if y.user == x.user && x.user in s.deleted then 0 else s.contents[y]) + (if y == x then 1 else 0)
    case Delete(user) =>
      s' == s.(deleted := s.deleted + {user})
    case Advance(ti, gone) =>
      && s.now <= ti && s'.now == ti && s'.deleted == s.deleted
      && Parted(g, s.contents, multiset(gone), s'.contents, ti)
  }

  ghost predicate Run(g: Scale, states: seq<State>, ops: seq<Op>) {
    && |states| == |ops| + 1
    && forall k {:trigger Step(g, states[k], ops[k], states[k + 1])} :: 0 <= k < |ops| ==>
        Step(g, states[k], ops[k], states[k + 1])
  }

  /** The operation leaves x alone: it neither deletes its user nor advances as far as its time. */
  predicate Before(g: Scale, op: Op, x: Entry) {
    match op
    case Insert(_) => true
    case Delete(user) => user != x.user
    case Advance(ti, _) => ti < Index(g, x.time)
  }

  /** Until then, what was inserted at step i stays. */
  lemma {:induction false} Stays(g: Scale, states: seq<State>, ops: seq<Op>, i: nat, j: nat, x: Entry)
    requires Run(g, states, ops) && i < j <= |ops| && ops[i] == Insert(x)
    requires forall k :: i < k < j ==> Before(g, ops[k], x)
    ensures x in states[j].contents && x.user !in states[j].deleted
  {
    var k := j - 1;
    assert Step(g, states[k], ops[k], states[k + 1]);
    if i < k {
      Stays(g, states, ops, i, k, x);
      assert Before(g, ops[k], x);
    }
  }

  lemma {:induction false} UserReturned(s: seq<Entry>, x: Entry, deleted: set<nat>)
    requires x in s && x.user !in deleted
    ensures x.user in Users(s, deleted)
  {
    if s[|s| - 1] != x {
      UserReturned(s[..|s| - 1], x, deleted);
    }
  }

  /** Never late: unless deleted, what was inserted at step i is returned by the first advance
      that reaches its time. */
  lemma ReturnedOnTime(g: Scale, states: seq<State>, ops: seq<Op>, i: nat, j: nat, x: Entry)
    requires Run(g, states, ops) && i < j < |ops| && ops[i] == Insert(x)
    requires forall k :: i < k < j ==> Before(g, ops[k], x)
    requires ops[j].Advance? && ops[j].ti >= Index(g, x.time)
    ensures x in ops[j].gone && x.user in Users(ops[j].gone, states[j].deleted)
    ensures x !in states[j + 1].contents
  {
    Stays(g, states, ops, i, j, x);
    assert Step(g, states[j], ops[j], states[j + 1]);
    assert multiset(ops[j].gone)[x] == states[j].contents[x];
    UserReturned(ops[j].gone, x, states[j].deleted);
  }

  function Inserted(op: Op, x: Entry): nat {
    if op == Insert(x) then 1 else 0
  }

  function Gone(op: Op, x: Entry): nat {
    if op.Advance? then multiset(op.gone)[x] else 0
  }

  function TimesInserted(ops: seq<Op>, x: Entry): nat {
    if ops == [] then 0 else TimesInserted(ops[..|ops| - 1], x) + Inserted(ops[|ops| - 1], x)
  }

  function TimesGone(ops: seq<Op>, x: Entry): nat {
    if ops == [] then 0 else TimesGone(ops[..|ops| - 1], x) + Gone(ops[|ops| - 1], x)
  }

  lemma OneStep(g: Scale, s: State, op: Op, s': State, x: Entry)
    requires Step(g, s, op, s')
    ensures Gone(op, x) + s'.contents[x] <= s.contents[x] + Inserted(op, x)
    ensures x.user !in s.deleted && op != Delete(x.user) ==>
              x.user !in s'.deleted && Gone(op, x) + s'.contents[x] == s.contents[x] + Inserted(op, x)
  {
  }

  /** Never twice: nothing leaves the wheel more often than it was put there; and if its user is
      never deleted, every copy has either left or still waits. */
  lemma {:induction false} NeverTwice(g: Scale, states: seq<State>, ops: seq<Op>, x: Entry)
    requires Run(g, states, ops)
    ensures TimesGone(ops, x) + states[|ops|].contents[x] <= states[0].contents[x] + TimesInserted(ops, x)
    ensures x.user !in states[0].deleted && Delete(x.user) !in ops ==>
              x.user !in states[|ops|].deleted &&
              TimesGone(ops, x) + states[|ops|].contents[x] == states[0].contents[x] + TimesInserted(ops, x)
  {
    if ops != [] {
      var n := |ops| - 1;
      assert Step(g, states[n], ops[n], states[n + 1]);
      OneStep(g, states[n], ops[n], states[n + 1], x);
      RunPrefix(g, states, ops);
      NeverTwice(g, states[..n + 1], ops[..n], x);
      assert forall k :: 0 <= k < n ==> ops[..n][k] == ops[k];
    }
  }

  lemma RunPrefix(g: Scale, states: seq<State>, ops: seq<Op>)
    requires Run(g, states, ops) && ops != []
    ensures Run(g, states[..|ops|], ops[..|ops| - 1])
  {
    var before, earlier := states[..|ops|], ops[..|ops| - 1];
    forall k | 0 <= k < |earlier| ensures Step(g, before[k], earlier[k], before[k + 1]) {
      assert Step(g, states[k], ops[k], states[k + 1]);
    }
  }

  // ---------- Runs of calls ----------

  datatype Call = InsertAt(time: nat, user: nat) | DeleteUser(user: nat) | AdvanceTo(time: nat)

  /** What is asked of a caller: time does not run backwards, nothing is inserted before the time
      base, and no advance spans a whole turn of level 1 or reaches 2^32 clocks past the base. */
  predicate Legal(g: Scale, now: nat, base: nat, c: Call) {
    match c
    case InsertAt(time, _) => now <= Index(g, time) && base <= time
    case DeleteUser(_) => true
    case AdvanceTo(time) =>
      && now <= Index(g, time) < Index(g, base + RELATIVE_TIMES)
      && Tick(g, Index(g, time), 1) - Tick(g, now, 1) < Pow2(g.binBits)
  }

  function NowAfter(g: Scale, now: nat, c: Call): nat {
    if c.AdvanceTo? then Index(g, c.time) else now
  }

  function BaseAfter(g: Scale, bits: nat, base: nat, c: Call): nat
    requires g.clockBits <= bits
  {
    if c.AdvanceTo? then NewBase(g, bits, base, Index(g, c.time)) else base
  }

  predicate AllLegal(g: Scale, bits: nat, now: nat, base: nat, calls: seq<Call>)
    requires g.clockBits <= bits
    decreases |calls|
  {
    calls == [] ||
    (Legal(g, now, base, calls[0]) && AllLegal(g, bits, NowAfter(g, now, calls[0]), BaseAfter(g, bits, base, calls[0]),
        calls[1..]))
  }

  /** The call c, made when the users in deleted were deleted, did op and returned out. */
  ghost predicate Answers(g: Scale, c: Call, deleted: set<nat>, op: Op, out: seq<nat>) {
    match c
    case InsertAt(time, user) => op == Op.Insert(Entry(user, time)) && out == []
    case DeleteUser(user) => op == Op.Delete(user) && out == []
    case AdvanceTo(time) => op.Advance? && op.ti == Index(g, time) && out == Users(op.gone, deleted)
  }

  /** The answers to the first n calls of a run. */
  ghost predicate AnswersTo(g: Scale, calls: seq<Call>, states: seq<State>, ops: seq<Op>, outs: seq<seq<nat>>, n: nat) {
    && |ops| == |outs| == n <= |calls| && |states| == n + 1
    && forall k :: 0 <= k < n ==> Answers(g, calls[k], states[k].deleted, ops[k], outs[k])
  }

  lemma AnswersMore(g: Scale, calls: seq<Call>, states: seq<State>, ops: seq<Op>, outs: seq<seq<nat>>, n: nat,
                    s: State, op: Op, out: seq<nat>)
    requires AnswersTo(g, calls, states, ops, outs, n) && n < |calls|
    requires Answers(g, calls[n], states[n].deleted, op, out)
    ensures AnswersTo(g, calls, states + [s], ops + [op], outs + [out], n + 1)
  {
  }

  lemma RunLonger(g: Scale, states: seq<State>, ops: seq<Op>, op: Op, s: State)
    requires Run(g, states, ops) && Step(g, states[|ops|], op, s)
    ensures Run(g, states + [s], ops + [op])
  {
    var states', ops' := states + [s], ops + [op];
    forall k | 0 <= k < |ops'| ensures Step(g, states'[k], ops'[k], states'[k + 1]) {
      assert k < |ops| ==> Step(g, states[k], ops[k], states[k + 1]);
    }
  }

  /** A call that neither deletes the user nor advances as far as the time. */
  predicate CallBefore(g: Scale, c: Call, time: nat, user: nat) {
    match c
    case InsertAt(_, _) => true
    case DeleteUser(u) => u != user
    case AdvanceTo(t) => t < BinStart(g, time)
  }

  /** In any run of calls, a user inserted by call i, and not deleted since, is in the answer of the
      first advance j that reaches the bin of its time. */
  lemma AnsweredOnTime(g: Scale, calls: seq<Call>, states: seq<State>, ops: seq<Op>, outs: seq<seq<nat>>,
                       i: nat, j: nat, time: nat, user: nat, t: nat)
    requires Run(g, states, ops) && AnswersTo(g, calls, states, ops, outs, |calls|)
    requires i < j < |calls| && calls[i] == InsertAt(time, user)
    requires forall k :: i < k < j ==> CallBefore(g, calls[k], time, user)
    requires calls[j] == AdvanceTo(t) && BinStart(g, time) <= t
    ensures user in outs[j] && Entry(user, time) !in states[j + 1].contents
  {
    var x := Entry(user, time);
    assert Answers(g, calls[i], states[i].deleted, ops[i], outs[i]);
    assert Answers(g, calls[j], states[j].deleted, ops[j], outs[j]);
    forall k | i < k < j ensures Before(g, ops[k], x) {
      assert Answers(g, calls[k], states[k].deleted, ops[k], outs[k]) && CallBefore(g, calls[k], time, user);
      if calls[k].AdvanceTo? {
        Reached(g, time, calls[k].time);
      }
    }
    Reached(g, time, t);
    ReturnedOnTime(g, states, ops, i, j, x);
  }

  /** And never early: if nothing of the user waits at first, then in the answer of an advance to t
      it is only if an earlier call has inserted it at a time of which the bin has begun by then. */
  lemma NeverEarly(g: Scale, calls: seq<Call>, states: seq<State>, ops: seq<Op>, outs: seq<seq<nat>>, j: nat, t: nat,
                   user: nat)
    returns (i: nat)
    requires Run(g, states, ops) && AnswersTo(g, calls, states, ops, outs, |calls|)
    requires j < |calls| && calls[j] == AdvanceTo(t) && user in outs[j]
    requires forall x :: x in states[0].contents ==> x.user != user
    ensures i < j && calls[i].InsertAt? && calls[i].user == user && BinStart(g, calls[i].time) <= t
  {
    assert Answers(g, calls[j], states[j].deleted, ops[j], outs[j]);
    assert Step(g, states[j], ops[j], states[j + 1]);
    var k := WhoseUser(ops[j].gone, states[j].deleted, user);
    var x := ops[j].gone[k];
    assert multiset(ops[j].gone)[x] > 0;
    assert x in states[j].contents && Due(g, x, Index(g, t));
    i := WhereInserted(g, states, ops, j, x);
    assert Answers(g, calls[i], states[i].deleted, ops[i], outs[i]);
    Reached(g, x.time, t);
  }

  lemma {:induction false} WhoseUser(s: seq<Entry>, deleted: set<nat>, user: nat) returns (k: nat)
    requires user in Users(s, deleted)
    ensures k < |s| && s[k].user == user
  {
    if s[|s| - 1].user == user {
      k := |s| - 1;
    } else {
      k := WhoseUser(s[..|s| - 1], deleted, user);
    }
  }

  /** What waits and did not at first has been inserted. */
  lemma {:induction false} WhereInserted(g: Scale, states: seq<State>, ops: seq<Op>, j: nat, x: Entry) returns (i: nat)
    requires Run(g, states, ops) && j <= |ops| && x in states[j].contents && x !in states[0].contents
    ensures i < j && ops[i] == Insert(x)
  {
    i := j - 1;
    assert Step(g, states[i], ops[i], states[i + 1]);
    if ops[i] != Insert(x) {
      i := WhereInserted(g, states, ops, i, x);
    }
  }

  /** An insertion in a bin after the current one is not before the base. */
  lemma LegalInsert(g: Scale, now: nat, base: nat, time: nat, user: nat)
    requires Index(g, base) <= now < Index(g, time)
    ensures Legal(g, now, base, InsertAt(time, user))
  {
    if time < base {
      ShrMono(time, base, g.clockBits);
    }
  }

  /** An advance of no more than 2^(32 - clockBits) - 2^(bits - clockBits) ticks does not reach
      2^32 clocks past the base. */
  lemma LegalAdvance(g: Scale, bits: nat, now: nat, base: nat, time: nat)
    requires g.clockBits <= bits < 32 && now < Index(g, base) + Pow2(bits - g.clockBits)
    requires now <= Index(g, time) <= now + Pow2(32 - g.clockBits) - Pow2(bits - g.clockBits)
    requires Tick(g, Index(g, time), 1) - Tick(g, now, 1) < Pow2(g.binBits)
    ensures Legal(g, now, base, AdvanceTo(time))
  {
    WordSize();
    ShrPlusPow(base, 32 - g.clockBits, g.clockBits);
  }

  /** The bound on advances is exact: it holds if and only if no time that may be in the overflow
      pool, being 2^32 clocks past the base or later, is due. */
  lemma BoundExact(g: Scale, base: nat, time: nat)
    ensures Index(g, time) < Index(g, base + RELATIVE_TIMES) <==>
            forall x: Entry :: base + RELATIVE_TIMES <= x.time ==> !Due(g, x, Index(g, time))
  {
    forall x: Entry | base + RELATIVE_TIMES <= x.time
      ensures Index(g, base + RELATIVE_TIMES) <= Index(g, x.time)
    {
      ShrMono(base + RELATIVE_TIMES, x.time, g.clockBits);
    }
    assert Entry(0, base + RELATIVE_TIMES).time == base + RELATIVE_TIMES;
  }

  /** So is the bound on insertions: an entry before the base is due in the current bin, and would
      never fit. */
  lemma EarlyNeverFits(g: Scale, bits: nat, now: nat, base: nat, x: Entry)
    requires x.time < base && g.clockBits <= bits && Index(g, base) <= now
    ensures Due(g, x, now) && forall later: nat :: !Fits(x.time, NewBase(g, bits, base, later))
  {
    ShrMono(x.time, base, g.clockBits);
    forall later: nat ensures !Fits(x.time, NewBase(g, bits, base, later)) {
      NewBaseGrows(g, bits, base, later);
    }
  }

  lemma {:induction false} NewBaseGrows(g: Scale, bits: nat, base: nat, now: nat)
    requires g.clockBits <= bits
    ensures NewBase(g, bits, base, now) >= base
    decreases if Index(g, base) <= now then now + 1 - Index(g, base) else 0
  {
    if now >= Index(g, base) + Pow2(bits - g.clockBits) {
      ShrPlusPow(base, bits - g.clockBits, g.clockBits);
      NewBaseGrows(g, bits, base + Pow2(bits), now);
    }
  }

  /** The new base is so many steps of 2^bits clocks after the old one that time index now is within
      a step of it, and if there are any, not before it. */
  lemma {:induction false} NewBaseMeans(g: Scale, bits: nat, base: nat, now: nat) returns (m: nat)
    requires g.clockBits <= bits
    ensures NewBase(g, bits, base, now) == base + m * Pow2(bits)
    ensures now < Index(g, NewBase(g, bits, base, now)) + Pow2(bits - g.clockBits)
    ensures m > 0 ==> Index(g, NewBase(g, bits, base, now)) <= now
    decreases if Index(g, base) <= now then now + 1 - Index(g, base) else 0
  {
    if now < Index(g, base) + Pow2(bits - g.clockBits) {
      m := 0;
    } else {
      ShrPlusPow(base, bits - g.clockBits, g.clockBits);
      m := NewBaseMeans(g, bits, base + Pow2(bits), now);
      assert (m + 1) * Pow2(bits) == m * Pow2(bits) + Pow2(bits);
      m := m + 1;
    }
  }

  class Wheel {
    const g: Scale
    const eltTimeBits: nat
    var levels: seq<Level>
    var overflow: seq<Entry>
    var pending: seq<Elt>
    var deleted: set<nat>
    var now: nat
    var base: nat
    var nextBaseUpdate: nat

    ghost predicate Valid()
      reads this
    {
      && LevelsOk(g, now, base, levels) && pending == []
      && BaseOk() && Index(g, base) <= now < nextBaseUpdate
      && forall x :: x in overflow ==> !Fits(x.time, base)
    }

    /** Nothing waits that was inserted in the current bin but before the time base. */
    ghost predicate NoneEarly()
      reads this`overflow, this`base
    {
      forall x :: x in overflow ==> base <= x.time
    }

    ghost predicate BaseOk()
      reads this`base, this`nextBaseUpdate
    {
      g.clockBits <= eltTimeBits < 32 && nextBaseUpdate == Index(g, base) + Pow2(eltTimeBits - g.clockBits)
    }

    /** Everything waiting, whether deleted or not, with its absolute time. */
    ghost function Contents(): multiset<Entry>
      reads this`levels, this`overflow, this`base
    {
      LevelsBag(levels, base) + multiset(overflow)
    }

    ghost function View(): State
      reads this`levels, this`overflow, this`base, this`deleted, this`now
    {
      State(Contents(), deleted, now)
    }

    /** timing_wheel_init, the scale being given. */
    constructor (time: nat, scale: Scale, timeBits: nat)
      requires scale.clockBits <= if 0 < timeBits < 32 then timeBits else 31
      ensures Valid() && fresh(this) && g == scale && now == Index(scale, time) && base == time
      ensures eltTimeBits == if 0 < timeBits < 32 then timeBits else 31
      ensures Contents() == multiset{} && deleted == {} && NoneEarly()
    {
      g := scale;
      eltTimeBits := if 0 < timeBits < 32 then timeBits else 31;
      levels, overflow, pending, deleted := [], [], [], {};
      BagIs([], time);
      now := Index(scale, time);
      base := time;
      nextBaseUpdate := Index(scale, time) + Pow2((if 0 < timeBits < 32 then timeBits else 31) - scale.clockBits);
    }

    /** get_level_and_relative_time: the time is at least one turn away on every level below. */
    method GetLevelAndRelativeTime(time: nat) returns (level: nat, rtime: nat)
      requires now <= Index(g, time)
      ensures rtime < Pow2(g.binBits)
      ensures level == 0 ==> now + rtime == Index(g, time)
      ensures level > 0 ==> Tick(g, now, level) + rtime + 1 <= Tick(g, Index(g, time), level)
      ensures forall l :: 0 <= l < level ==>
                Tick(g, now, l) + Pow2(g.binBits) + (if l == 0 then 0 else 1) <= Tick(g, Index(g, time), l)
    {
      ghost var ti := Index(g, time);
      rtime := Index(g, time) - now;
      level := 0;
      while Shr(rtime, g.binBits) != 0
        invariant level == 0 ==> now + rtime == ti
        invariant level > 0 ==> Tick(g, now, level) + rtime + 1 <= Tick(g, ti, level)
        invariant forall l :: 0 <= l < level ==>
                  Tick(g, now, l) + Pow2(g.binBits) + (if l == 0 then 0 else 1) <= Tick(g, ti, l)
        decreases rtime
      {
        NextLevel(g, now, ti, level, rtime);
        ShrLess(rtime, g.binBits);
        rtime := Shr(rtime, g.binBits) - 1;
        level := level + 1;
      }
      ShrZero(rtime, g.binBits);
    }

    /** rtime_to_wheel_index: the bin so many after the current one. */
    method RtimeToWheelIndex(level: nat, rtime: nat) returns (w: nat)
      requires rtime < Pow2(g.binBits)
      ensures w < Pow2(g.binBits) && Unwrap(g, Tick(g, now, level), w) == Tick(g, now, level) + rtime
      ensures w == LowBits(Tick(g, now, level) + rtime, g.binBits)
    {
      var t := LowBits(Tick(g, now, level), g.binBits);
      w := LowBits(t + rtime, g.binBits);
      LowBitsPlus(Tick(g, now, level), rtime, g.binBits);
      LowBitsSmall(t, g.binBits);
      LowBitsPlus(t, rtime, g.binBits);
      UnwrapInverse(g, Tick(g, now, level), Tick(g, now, level) + rtime);
    }

    /** The part of insert_helper that makes sure the level has its bins. */
    method ValidateLevel(level: nat)
      requires LevelsOk(g, now, base, levels)
      modifies this`levels
      ensures LevelsOk(g, now, base, levels) && level < |levels| && |levels[level].bins| == Pow2(g.binBits)
      ensures LevelsBag(levels, base) == old(LevelsBag(levels, base))
    {
      if |levels| <= level {
        LevelsAdded(level + 1 - |levels|);
        levels := levels + seq(level + 1 - |levels|, _ => Level({}, []));
      }
      if levels[level].bins == [] {
        var lv := Level(levels[level].occupied, seq(Pow2(g.binBits), _ => []));
        BinsAdded(level, lv);
        levels := levels[level := lv];
      }
      assert LevelOk(g, now, base, level, levels[level]);
    }

    lemma LevelsAdded(n: nat)
      requires LevelsOk(g, now, base, levels)
      ensures var levels' := levels + seq(n, _ => Level({}, []));
              LevelsOk(g, now, base, levels') && LevelsBag(levels', base) == LevelsBag(levels, base)
    {
      var more := seq(n, _ => Level({}, []));
      LevelsGrown(levels, more, base, |levels + more|);
      BagIs(levels, base);
      BagIs(levels + more, base);
      forall k | 0 <= k < |levels + more| ensures LevelOk(g, now, base, k, (levels + more)[k]) {
        assert k < |levels| ==> LevelOk(g, now, base, k, levels[k]);
      }
    }

    lemma BinsAdded(l: nat, lv: Level)
      requires LevelsOk(g, now, base, levels) && l < |levels| && levels[l].bins == []
      requires lv.occupied == levels[l].occupied && |lv.bins| == Pow2(g.binBits) && forall w :: 0 <= w < |lv.bins| ==>
               lv.bins[w] == []
      ensures LevelsOk(g, now, base, levels[l := lv])
      ensures LevelsBag(levels[l := lv], base) == LevelsBag(levels, base)
    {
      BagIs(levels, base);
      BagIs(levels[l := lv], base);
      LevelChanged(levels, l, lv, base, |levels|);
      EmptyBins(lv.bins, base, |lv.bins|);
      var none := BinsBag(lv.bins, base);
      forall x: Entry ensures LevelsBag(levels[l := lv], base)[x] == LevelsBag(levels, base)[x] {
        assert (LevelsBag(levels[l := lv], base) + none)[x] == (LevelsBag(levels, base) + none)[x];
      }
      assert LevelOk(g, now, base, l, levels[l]);
      assert LevelOk(g, now, base, l, lv);
      var levels' := levels[l := lv];
      forall k | 0 <= k < |levels'| ensures LevelOk(g, now, base, k, levels'[k]) {
        assert LevelOk(g, now, base, k, levels[k]);
      }
    }

    /** insert_helper, and the stores of its caller. */
    method InsertHelper(level: nat, rtime: nat, e: Elt)
      requires LevelsOk(g, now, base, levels) && rtime < Pow2(g.binBits) && e.rel < RELATIVE_TIMES
      requires if level == 0 then now + rtime == Index(g, base + e.rel)
               else Tick(g, now, level) + rtime + 1 <= Tick(g, Index(g, base + e.rel), level)
      modifies this`levels
      ensures LevelsOk(g, now, base, levels)
      ensures LevelsBag(levels, base) == old(LevelsBag(levels, base)) + multiset{Entry(e.user, base + e.rel)}
    {
      ValidateLevel(level);
      var w := RtimeToWheelIndex(level, rtime);
      var lv := levels[level];
      ghost var was := levels;
      levels := levels[level := Level(lv.occupied + {w}, lv.bins[w := lv.bins[w] + [e]])];
      BagChanged(was, level, w, lv.bins[w] + [e], lv.occupied + {w}, base);
      OneMore(LevelsBag(was, base), LevelsBag(levels, base), lv.bins[w], e);
      AddedOk(was, level, w, e);
    }

    lemma OneMore(bag: multiset<Entry>, bag': multiset<Entry>, es: seq<Elt>, e: Elt)
      requires bag' + multiset(Absolute(es, base)) == bag + multiset(Absolute(es + [e], base))
      ensures bag' == bag + multiset{Entry(e.user, base + e.rel)}
    {
      var x := Entry(e.user, base + e.rel);
      assert Absolute(es + [e], base) == Absolute(es, base) + [x];
      var b := multiset(Absolute(es, base));
      assert multiset(Absolute(es, base) + [x]) == b + multiset{x};
      forall y: Entry ensures bag'[y] == (bag + multiset{x})[y] {
        assert (bag' + b)[y] == (bag + (b + multiset{x}))[y];
      }
    }

    lemma AddedOk(was: seq<Level>, l: nat, w: nat, e: Elt)
      requires LevelsOk(g, now, base, was) && l < |was| && |was[l].bins| == Pow2(g.binBits) && w < Pow2(g.binBits)
      requires e.rel < RELATIVE_TIMES && Filed(g, now, l, w, base + e.rel)
      ensures LevelsOk(g, now, base, was[l := Level(was[l].occupied + {w}, was[l].bins[w := was[l].bins[w] + [e]])])
    {
      var lv := Level(was[l].occupied + {w}, was[l].bins[w := was[l].bins[w] + [e]]);
      assert LevelOk(g, now, base, l, was[l]);
      forall v | 0 <= v < |lv.bins| ensures BinOk(g, now, base, l, v, lv.bins[v]) {
        assert BinOk(g, now, base, l, v, was[l].bins[v]);
      }
      var changed := was[l := lv];
      forall k | 0 <= k < |changed| ensures LevelOk(g, now, base, k, changed[k]) {
        assert LevelOk(g, now, base, k, was[k]);
      }
    }

    /** timing_wheel_insert_helper. */
    method InsertTimed(time: nat, user: nat)
      requires LevelsOk(g, now, base, levels) && now <= Index(g, time)
      modifies this`levels, this`overflow
      ensures LevelsOk(g, now, base, levels)
      ensures Fits(time, base) ==>
              overflow == old(overflow) && LevelsBag(levels, base) == old(LevelsBag(levels, base)) +
              multiset{Entry(user, time)}
      ensures !Fits(time, base) ==> levels == old(levels) && overflow == old(overflow) + [Entry(user, time)]
      ensures Contents() == old(Contents()) + multiset{Entry(user, time)}
    {
      var level, rtime := GetLevelAndRelativeTime(time);
      if Fits(time, base) {
        InsertHelper(level, rtime, Elt(user, time - base));
      } else {
        overflow := overflow + [Entry(user, time)];
      }
    }

    /** delete_user_data: scan first, and copy only if there is something to leave out. */
    method DeleteUserData(es: seq<Elt>, user: nat) returns (r: seq<Elt>)
      ensures r == WithoutUser(es, user)
    {
      var found := false;
      var i := 0;
      while i < |es| && !found
        invariant 0 <= i <= |es|
        invariant !found ==> forall j :: 0 <= j < i ==> es[j].user != user
      {
        found := es[i].user == user;
        i := i + 1;
      }
      if !found {
        NobodyLeft(es, user);
        return es;
      }
      r := [];
      i := 0;
      while i < |es|
        invariant 0 <= i <= |es|
        invariant r == WithoutUser(es[..i], user)
      {
        assert es[..i + 1][..i] == es[..i];
        if es[i].user != user {
          r := r + [es[i]];
        }
        i := i + 1;
      }
      assert es[..i] == es;
    }

    /** Take the elements of one user off a level. */
    method PurgeLevel(l: nat, user: nat)
      requires LevelsOk(g, now, base, levels) && l < |levels|
      modifies this`levels
      ensures LevelsOk(g, now, base, levels) && |levels| == |old(levels)|
      ensures forall k :: 0 <= k < |levels| && k != l ==> levels[k] == old(levels)[k]
      ensures forall w :: 0 <= w < |levels[l].bins| ==> NoUser(levels[l].bins[w], user)
      ensures forall x: Entry :: x.user != user ==> LevelsBag(levels, base)[x] == old(LevelsBag(levels, base))[x]
    {
      var w := 0;
      while w < |levels[l].bins|
        invariant LevelsOk(g, now, base, levels) && |levels| == |old(levels)|
        invariant forall k :: 0 <= k < |levels| && k != l ==> levels[k] == old(levels)[k]
        invariant |levels[l].bins| == |old(levels)[l].bins| && w <= |levels[l].bins|
        invariant forall v :: 0 <= v < w ==> NoUser(levels[l].bins[v], user)
        invariant forall x: Entry :: x.user != user ==> LevelsBag(levels, base)[x] == old(LevelsBag(levels, base))[x]
      {
        assert LevelOk(g, now, base, l, levels[l]);
        if w in levels[l].occupied {
          PurgedOk(g, now, base, levels, l, w, user);
          WithoutUserElts(levels[l].bins[w], user);
          var es := DeleteUserData(levels[l].bins[w], user);
          levels := levels[l := Level(if es == [] then levels[l].occupied - {w} else levels[l].occupied,
              levels[l].bins[w := es])];
        }
        w := w + 1;
      }
    }

    /** Take the elements of a deleted user off all levels. */
    method PurgeLevels(user: nat)
      requires LevelsOk(g, now, base, levels)
      modifies this`levels
      ensures LevelsOk(g, now, base, levels)
      ensures forall x: Entry :: LevelsBag(levels, base)[x] == if x.user == user then 0
              else old(LevelsBag(levels, base))[x]
    {
      var l := 0;
      while l < |levels|
        invariant l <= |levels| && LevelsOk(g, now, base, levels)
        invariant forall k, w :: 0 <= k < l && 0 <= w < |levels[k].bins| ==> NoUser(levels[k].bins[w], user)
        invariant forall x: Entry :: x.user != user ==> LevelsBag(levels, base)[x] == old(LevelsBag(levels, base))[x]
      {
        PurgeLevel(l, user);
        l := l + 1;
      }
      forall x: Entry | x.user == user ensures LevelsBag(levels, base)[x] == 0 {
        NoneLeft(user, x);
      }
    }

    lemma NoneLeft(user: nat, x: Entry)
      requires forall k, w :: 0 <= k < |levels| && 0 <= w < |levels[k].bins| ==> NoUser(levels[k].bins[w], user)
      requires x.user == user
      ensures LevelsBag(levels, base)[x] == 0
    {
      if x in LevelsBag(levels, base) {
        var k, w, i := FindLevel(levels, x, base);
        assert false;
      }
    }

    /** Take the elements of a deleted user off the wheel. */
    method Purge(user: nat)
      requires LevelsOk(g, now, base, levels)
      modifies this`levels, this`overflow
      ensures LevelsOk(g, now, base, levels) && forall x :: x in overflow ==> x in old(overflow)
      ensures forall x: Entry :: Contents()[x] == if x.user == user then 0 else old(Contents())[x]
    {
      PurgeLevels(user);
      PurgeOverflow(user);
      forall x: Entry ensures multiset(overflow)[x] == if x.user == user then 0 else multiset(old(overflow))[x] {
        OtherEntriesBag(old(overflow), user, x);
      }
      forall x | x in overflow ensures x in old(overflow) {
        assert multiset(overflow)[x] > 0;
      }
    }

    method PurgeOverflow(user: nat)
      modifies this`overflow
      ensures overflow == OtherEntries(old(overflow), user)
    {
      var kept: seq<Entry>, i := [], 0;
      while i < |overflow|
        invariant 0 <= i <= |overflow| && overflow == old(overflow)
        invariant kept == OtherEntries(overflow[..i], user)
      {
        assert overflow[..i + 1][..i] == overflow[..i];
        if overflow[i].user != user {
          kept := kept + [overflow[i]];
        }
        i := i + 1;
      }
      assert overflow[..i] == overflow;
      overflow := kept;
    }

    /** timing_wheel_insert: earlier elements of a deleted user go, this one stays. */
    method Insert(time: nat, user: nat)
      requires Valid() && now <= Index(g, time)
      modifies this`levels, this`overflow, this`deleted
      ensures Valid() && Step(g, old(View()), Op.Insert(Entry(user, time)), View())
      ensures old(NoneEarly()) && base <= time ==> NoneEarly()
      ensures !Fits(time, base) ==> Entry(user, time) in overflow
    {
      if user in deleted {
        Purge(user);
        deleted := deleted - {user};
      }
      InsertTimed(time, user);
    }

    // ---------- Advancing ----------

    /** While time advances to ti: bag0 was on the wheel before, gone is what has left it so far,
        out the list returned, which began as out0. */
    ghost predicate Sweeping(ti: nat, bag0: multiset<Entry>, out0: seq<nat>, out: seq<nat>, gone: seq<Entry>)
      reads this`levels, this`pending, this`deleted, this`base, this`now
    {
      && LevelsOk(g, now, base, levels)
      && Balance(LevelsBag(levels, base), multiset(Absolute(pending, base)), multiset(gone), bag0)
      && SortedOut(ti, out0, out, gone)
    }

    /** What has gone was due and has been returned, unless deleted; what is pending is not due. */
    ghost predicate SortedOut(ti: nat, out0: seq<nat>, out: seq<nat>, gone: seq<Entry>)
      reads this`pending, this`deleted, this`base
    {
      && out == out0 + Users(gone, deleted)
      && (forall i :: 0 <= i < |gone| ==> Due(g, gone[i], ti))
      && Waiting(pending, ti)
    }

    ghost predicate AllDue(es: seq<Elt>, ti: nat)
      reads this`base
    {
      forall i :: 0 <= i < |es| ==> Index(g, base + es[i].rel) <= ti
    }

    lemma SurvivorsStep(es: seq<Elt>, i: nat)
      requires i < |es|
      ensures Users(Absolute(es[..i + 1], base), deleted) == Users(Absolute(es[..i], base), deleted) +
              if es[i].user in deleted then [] else [es[i].user]
    {
      var x := Entry(es[i].user, base + es[i].rel);
      UsersOneMore(Absolute(es[..i], base), x, deleted);
      assert Absolute(es[..i + 1], base) == Absolute(es[..i], base) + [x];
    }

    /** The copying loop of expire_bin. */
    method Survivors(es: seq<Elt>) returns (r: seq<nat>)
      ensures r == Users(Absolute(es, base), deleted)
    {
      var x: seq<nat> := seq(|es|, _ => 0);
      var i, j := 0, 0;
      while i < |es|
        invariant j <= i <= |es| == |x|
        invariant x[..j] == Users(Absolute(es[..i], base), deleted)
      {
        SurvivorsStep(es, i);
        x := x[j := es[i].user];
        assert x[..j + 1] == x[..j] + [es[i].user];
        j := j + if es[i].user in deleted then 0 else 1;
        i := i + 1;
      }
      assert es[..i] == es;
      r := x[..j];
    }

    lemma MoreGone(out0: seq<nat>, out: seq<nat>, gone: seq<Entry>, es: seq<Elt>, ti: nat)
      requires SortedOut(ti, out0, out, gone) && AllDue(es, ti)
      ensures SortedOut(ti, out0, out + Users(Absolute(es, base), deleted), gone + Absolute(es, base))
    {
      var more := Absolute(es, base);
      UsersJoined(gone, more, deleted);
      ThreeLists(out0, Users(gone, deleted), Users(more, deleted));
      MoreDue(gone, more, ti);
    }

    lemma ThreeLists(r: seq<nat>, s: seq<nat>, t: seq<nat>)
      ensures r + s + t == r + (s + t)
    {
    }

    lemma MoreDue(gone: seq<Entry>, more: seq<Entry>, ti: nat)
      requires forall i :: 0 <= i < |gone| ==> Due(g, gone[i], ti)
      requires forall i :: 0 <= i < |more| ==> Due(g, more[i], ti)
      ensures forall i :: 0 <= i < |gone + more| ==> Due(g, (gone + more)[i], ti)
    {
    }

    /** expire_bin: every element leaves the wheel, and unless deleted is returned. */
    method ExpireBin(l: nat, w: nat, out: seq<nat>, ghost ti: nat, ghost bag0: multiset<Entry>, ghost out0: seq<nat>,
                     ghost gone: seq<Entry>)
      returns (out': seq<nat>, ghost gone': seq<Entry>)
      requires Sweeping(ti, bag0, out0, out, gone) && l < |levels| && w < |levels[l].bins| &&
               AllDue(levels[l].bins[w], ti)
      modifies this`levels
      ensures Sweeping(ti, bag0, out0, out', gone') && levels == old(levels)[l := Emptied(old(levels)[l], w)]
    {
      var es := levels[l].bins[w];
      var survivors := Survivors(es);
      out' := out + survivors;
      gone' := gone + Absolute(es, base);
      MoreGone(out0, out, gone, es, ti);
      EmptiedOk(g, now, base, levels, l, w);
      BalanceKept(LevelsBag(levels, base), LevelsBag(levels[l := Emptied(levels[l], w)], base),
          multiset(Absolute(es, base)),
                  multiset(Absolute(pending, base)), multiset(Absolute(pending, base)), multiset(gone), multiset(gone'),
                      bag0);
      levels := levels[l := Emptied(levels[l], w)];
    }

    /** The part of refill_level for one bin: the elements due leave the wheel, the others wait to
        be filed again. */
    method RefillBin(l: nat, w: nat, ti: nat, out: seq<nat>, ghost bag0: multiset<Entry>, ghost out0: seq<nat>,
                     ghost gone: seq<Entry>)
      returns (out': seq<nat>, ghost gone': seq<Entry>)
      requires Sweeping(ti, bag0, out0, out, gone) && l < |levels| && w < |levels[l].bins|
      modifies this`levels, this`pending
      ensures Sweeping(ti, bag0, out0, out', gone') && levels == old(levels)[l := Emptied(old(levels)[l], w)]
    {
      ghost var bag := LevelsBag(levels, base);
      var es := TakeBin(l, w);
      out', gone' := SortOut(es, ti, out, out0, gone);
      BalanceKept(bag, LevelsBag(levels, base), multiset(Absolute(es, base)),
                  multiset(Absolute(old(pending), base)), multiset(Absolute(pending, base)), multiset(gone),
                      multiset(gone'), bag0);
    }

    /** Take everything out of a bin. */
    method TakeBin(l: nat, w: nat) returns (es: seq<Elt>)
      requires LevelsOk(g, now, base, levels) && l < |levels| && w < |levels[l].bins|
      modifies this`levels
      ensures LevelsOk(g, now, base, levels) && levels == old(levels)[l := Emptied(old(levels)[l], w)]
      ensures LevelsBag(levels, base) + multiset(Absolute(es, base)) == old(LevelsBag(levels, base))
      ensures forall i :: 0 <= i < |es| ==> es[i].rel < RELATIVE_TIMES
    {
      es := levels[l].bins[w];
      assert LevelOk(g, now, base, l, levels[l]);
      assert BinOk(g, now, base, l, w, es);
      EmptiedOk(g, now, base, levels, l, w);
      levels := levels[l := Emptied(levels[l], w)];
    }

    /** The inner loop of refill_level. */
    method SortOut(es: seq<Elt>, ti: nat, out: seq<nat>, ghost out0: seq<nat>, ghost gone: seq<Entry>)
      returns (out': seq<nat>, ghost gone': seq<Entry>)
      requires SortedOut(ti, out0, out, gone) && forall i :: 0 <= i < |es| ==> es[i].rel < RELATIVE_TIMES
      modifies this`pending
      ensures SortedOut(ti, out0, out', gone')
      ensures multiset(Absolute(pending, base)) + multiset(gone') == multiset(Absolute(old(pending), base)) +
              multiset(gone) + multiset(Absolute(es, base))
    {
      out', gone' := out, gone;
      ghost var before := multiset(Absolute(pending, base)) + multiset(gone);
      var i := 0;
      while i < |es|
        invariant i <= |es| && SortedOut(ti, out0, out', gone')
        invariant multiset(Absolute(pending, base)) + multiset(gone') == before + multiset(Absolute(es[..i], base))
      {
        ghost var was, wasGone := pending, gone';
        out', gone' := SortElt(es[i], ti, out', out0, gone');
        OneSorted(was, pending, wasGone, gone', es, i, before);
        i := i + 1;
      }
      assert es[..i] == es;
    }

    method SortElt(e: Elt, ti: nat, out: seq<nat>, ghost out0: seq<nat>, ghost gone: seq<Entry>)
      returns (out': seq<nat>, ghost gone': seq<Entry>)
      requires SortedOut(ti, out0, out, gone) && e.rel < RELATIVE_TIMES
      modifies this`pending
      ensures SortedOut(ti, out0, out', gone')
      ensures (pending == old(pending) && gone' == gone + Absolute([e], base)) ||
              (pending == old(pending) + [e] && gone' == gone)
    {
      out', gone' := out, gone;
      if Index(g, base + e.rel) <= ti {
        MoreGone(out0, out, gone, [e], ti);
        OneUser(e);
        gone' := gone + Absolute([e], base);
        if e.user !in deleted {
          out' := out + [e.user];
        } else {
          assert out + [] == out;
        }
      } else {
        pending := pending + [e];
      }
    }

    lemma OneUser(e: Elt)
      ensures Users(Absolute([e], base), deleted) == if e.user in deleted then [] else [e.user]
    {
      var x := Entry(e.user, base + e.rel);
      assert Absolute([e], base) == [x];
      UsersOneMore([], x, deleted);
      assert [] + [x] == [x];
    }

    lemma OneSorted(pend: seq<Elt>, pend': seq<Elt>, gone: seq<Entry>, gone': seq<Entry>, es: seq<Elt>, i: nat,
                    before: multiset<Entry>)
      requires i < |es| && multiset(Absolute(pend, base)) + multiset(gone) == before + multiset(Absolute(es[..i], base))
      requires (pend' == pend && gone' == gone + Absolute([es[i]], base)) || (pend' == pend + [es[i]] && gone' == gone)
      ensures multiset(Absolute(pend', base)) + multiset(gone') == before + multiset(Absolute(es[..i + 1], base))
    {
      var e := es[i];
      var x := Entry(e.user, base + e.rel);
      assert Absolute([e], base) == [x];
      assert Absolute(es[..i + 1], base) == Absolute(es[..i], base) + [x];
      assert Absolute(pend + [e], base) == Absolute(pend, base) + [x];
      var a, b := multiset(Absolute(pend, base)), multiset(gone);
      assert multiset(Absolute(pend', base)) + multiset(gone') == (a + b) + multiset{x};
      assert before + multiset(Absolute(es[..i + 1], base)) == (before + multiset(Absolute(es[..i], base))) +
          multiset{x};
    }

    /** Bins c up to s, but not s itself, of the level are empty. */
    ghost predicate EmptyBelow(l: nat, c: nat, s: nat)
      requires l < |levels| && (|levels[l].bins| == 0 || |levels[l].bins| == Pow2(g.binBits))
      reads this`levels
    {
      forall w :: 0 <= w < |levels[l].bins| && Unwrap(g, c, w) < s ==> levels[l].bins[w] == []
    }

    /** Emptying bin s, or finding it empty, leaves the bins up to s empty. */
    lemma OneFurther(was: seq<Level>, l: nat, w: nat, c: nat, s: nat)
      requires LevelsOk(g, now, base, was) && l < |was| == |levels| && |was[l].bins| == Pow2(g.binBits)
      requires w < Pow2(g.binBits) && c <= s < c + Pow2(g.binBits) && w == LowBits(s, g.binBits)
      requires forall v :: 0 <= v < |was[l].bins| && Unwrap(g, c, v) < s ==> was[l].bins[v] == []
      requires if w in was[l].occupied then levels == was[l := Emptied(was[l], w)] else levels == was
      ensures |levels[l].bins| == Pow2(g.binBits) && EmptyBelow(l, c, s + 1)
    {
      assert LevelOk(g, now, base, l, was[l]);
      forall v | 0 <= v < |levels[l].bins| && Unwrap(g, c, v) < s + 1 ensures levels[l].bins[v] == [] {
        if Unwrap(g, c, v) == s {
          UnwrapWraps(g, c, v);
        }
      }
    }

    /** Every bin of the level is as it was or has been emptied. */
    ghost predicate Emptier(was: seq<Level>, l: nat)
      requires l < |levels| && l < |was|
      reads this`levels
    {
      && |levels[l].bins| == |was[l].bins|
      && forall w :: 0 <= w < |was[l].bins| ==> levels[l].bins[w] == was[l].bins[w] || levels[l].bins[w] == []
    }

    /** On the way round level l: the bins from c up to s, but not s itself, are done. */
    ghost predicate Walking(was: seq<Level>, l: nat, c: nat, s: nat, ti: nat, bag0: multiset<Entry>, out0: seq<nat>,
                            out: seq<nat>, gone: seq<Entry>)
      reads this`levels, this`pending, this`deleted, this`base, this`now
    {
      && Sweeping(ti, bag0, out0, out, gone)
      && l < |levels| == |was| && |levels[l].bins| == Pow2(g.binBits) && c <= s
      && OnlyLevel(was, l) && Emptier(was, l) && EmptyBelow(l, c, s)
    }

    /** refill_level: walk level l from bin `from` round to bin `to`. */
    method RefillLevel(l: nat, ti: nat, from: nat, to: nat, out: seq<nat>, ghost bag0: multiset<Entry>,
                       ghost out0: seq<nat>, ghost gone: seq<Entry>)
      returns (out': seq<nat>, ghost gone': seq<Entry>)
      requires Sweeping(ti, bag0, out0, out, gone) && l > 0
      requires Tick(g, now, l) <= Tick(g, ti, l) < Tick(g, now, l) + Pow2(g.binBits)
      requires from == LowBits(Tick(g, now, l), g.binBits) && to == LowBits(Tick(g, ti, l), g.binBits)
      modifies this`levels, this`pending
      ensures Sweeping(ti, bag0, out0, out', gone') && OnlyLevel(old(levels), l)
      ensures l < |levels| ==> PassedLevel(l, ti)
    {
      out', gone' := out, gone;
      if l < |levels| {
        assert LevelOk(g, now, base, l, levels[l]);
        if levels[l].bins != [] {
          out', gone' := RefillWalk(l, ti, from, to, out, bag0, out0, gone);
        }
      }
    }

    /** The walk itself. */
    method RefillWalk(l: nat, ti: nat, from: nat, to: nat, out: seq<nat>, ghost bag0: multiset<Entry>,
                      ghost out0: seq<nat>, ghost gone: seq<Entry>)
      returns (out': seq<nat>, ghost gone': seq<Entry>)
      requires Sweeping(ti, bag0, out0, out, gone) && l < |levels| && |levels[l].bins| == Pow2(g.binBits)
      requires Tick(g, now, l) <= Tick(g, ti, l) < Tick(g, now, l) + Pow2(g.binBits)
      requires from == LowBits(Tick(g, now, l), g.binBits) && to == LowBits(Tick(g, ti, l), g.binBits)
      modifies this`levels, this`pending
      ensures Sweeping(ti, bag0, out0, out', gone') && OnlyLevel(old(levels), l) && PassedLevel(l, ti)
    {
      out', gone' := out, gone;
      ghost var c, a := Tick(g, now, l), Tick(g, ti, l);
      ghost var s := c;
      var w := from;
      while true
        invariant c <= s <= a && w == LowBits(s, g.binBits)
        invariant Walking(old(levels), l, c, s, ti, bag0, out0, out', gone')
        decreases a - s
      {
        out', gone' := RefillStep(l, w, ti, out', old(levels), c, s, bag0, out0, gone');
        DifferentBins(g, s, a);
        if w == to {
          break;
        }
        w := NextIndex(w, s);
        s := s + 1;
      }
      assert s == a;
    }

    ghost predicate OnlyLevel(was: seq<Level>, l: nat)
      reads this`levels
    {
      |levels| == |was| && forall k :: 0 <= k < |levels| && k != l ==> levels[k] == was[k]
    }

    ghost predicate PassedLevel(l: nat, ti: nat)
      requires l < |levels|
      reads this`levels, this`now
    {
      LevelPassed(g, now, ti, l, levels[l])
    }

    /** One step of the walk. */
    method RefillStep(l: nat, w: nat, ti: nat, out: seq<nat>, ghost was: seq<Level>, ghost c: nat, ghost s: nat,
                      ghost bag0: multiset<Entry>, ghost out0: seq<nat>, ghost gone: seq<Entry>)
      returns (out': seq<nat>, ghost gone': seq<Entry>)
      requires Walking(was, l, c, s, ti, bag0, out0, out, gone) && s < c + Pow2(g.binBits) && w == LowBits(s, g.binBits)
      modifies this`levels, this`pending
      ensures Walking(was, l, c, s + 1, ti, bag0, out0, out', gone')
    {
      out', gone' := out, gone;
      if w in levels[l].occupied {
        out', gone' := RefillBin(l, w, ti, out, bag0, out0, gone);
      }
      OneFurther(old(levels), l, w, c, s);
    }

    /** wheel_add steps to the bin that follows. */
    lemma NextBin(s: nat)
      ensures LowBits(LowBits(s, g.binBits) + 1, g.binBits) == LowBits(s + 1, g.binBits)
    {
      var t := LowBits(s, g.binBits);
      LowBitsSmall(t, g.binBits);
      LowBitsPlus(s, 1, g.binBits);
      LowBitsPlus(t, 1, g.binBits);
    }

    ghost predicate AllPassed(ti: nat, above: nat)
      reads this`levels, this`now
    {
      LevelsPassed(g, now, ti, levels, above)
    }

    /** The first part of timing_wheel_advance: refill each level at which time turns over to
        another bin. */
    method RefillLevels(ti: nat, out: seq<nat>, ghost bag0: multiset<Entry>, ghost out0: seq<nat>,
                        ghost gone: seq<Entry>)
      returns (out': seq<nat>, ghost gone': seq<Entry>)
      requires Sweeping(ti, bag0, out0, out, gone) && pending == []
      requires now <= ti && Tick(g, ti, 1) - Tick(g, now, 1) < Pow2(g.binBits)
      modifies this`levels, this`pending
      ensures Sweeping(ti, bag0, out0, out', gone') && AllPassed(ti, 1)
    {
      out', gone' := out, gone;
      var current, advance := Shr(now, g.binBits), Shr(ti, g.binBits);
      assert Tick(g, now, 0) == now && Tick(g, ti, 0) == ti;
      var l := 1;
      while current != advance
        invariant l > 0 && current == Tick(g, now, l) && advance == Tick(g, ti, l)
        invariant Sweeping(ti, bag0, out0, out', gone')
        invariant forall k {:trigger LevelPassed(g, now, ti, k, levels[k])} :: 1 <= k < l && k < |levels| ==>
                  LevelPassed(g, now, ti, k, levels[k])
        decreases advance
      {
        GapShrinks(g, now, ti, l);
        DifferentBins(g, current, advance);
        var c, a := LowBits(current, g.binBits), LowBits(advance, g.binBits);
        if c != a {
          ghost var was := levels;
          out', gone' := RefillLevel(l, ti, c, a, out', bag0, out0, gone');
          assert forall k {:trigger levels[k]} :: 1 <= k < l && k < |levels| ==> LevelPassed(g, now, ti, k, was[k]);
        }
        ShrLess(advance, g.binBits);
        current, advance := Shr(current, g.binBits), Shr(advance, g.binBits);
        l := l + 1;
      }
      forall k | l <= k < |levels| ensures LevelPassed(g, now, ti, k, levels[k]) {
        SameTickAbove(g, now, ti, l, k);
        assert LevelOk(g, now, base, k, levels[k]);
      }
    }

    /** Empty an entire level that time passes. */
    method ExpireWholeLevel(l: nat, out: seq<nat>, ghost ti: nat, ghost bag0: multiset<Entry>, ghost out0: seq<nat>,
                            ghost gone: seq<Entry>)
      returns (out': seq<nat>, ghost gone': seq<Entry>)
      requires Sweeping(ti, bag0, out0, out, gone) && l < |levels|
      requires forall w :: 0 <= w < |levels[l].bins| ==> AllDue(levels[l].bins[w], ti)
      modifies this`levels
      ensures Sweeping(ti, bag0, out0, out', gone') && OnlyLevel(old(levels), l)
      ensures |levels[l].bins| == |old(levels)[l].bins| && forall w :: 0 <= w < |levels[l].bins| ==>
              levels[l].bins[w] == []
    {
      out', gone' := out, gone;
      var w := 0;
      while w < |levels[l].bins|
        invariant Sweeping(ti, bag0, out0, out', gone') && OnlyLevel(old(levels), l) && Emptier(old(levels), l)
        invariant w <= |levels[l].bins| && forall v :: 0 <= v < w ==> levels[l].bins[v] == []
      {
        assert LevelOk(g, now, base, l, levels[l]);
        if w in levels[l].occupied {
          out', gone' := ExpireBin(l, w, out', ti, bag0, out0, gone');
        }
        w := w + 1;
      }
    }

    /** What is in the bins from c to s is due. */
    ghost predicate DueUpTo(bins: seq<seq<Elt>>, c: nat, s: nat, ti: nat)
      requires |bins| == Pow2(g.binBits)
      reads this`base
    {
      forall w :: 0 <= w < |bins| && Unwrap(g, c, w) <= s ==> AllDue(bins[w], ti)
    }

    /** Empty the bins of a level from the current one on, up to bin c + rtime. */
    method ExpireWalk(l: nat, ghost rtime: nat, from: nat, to: nat, out: seq<nat>, ghost c: nat, ghost ti: nat,
                      ghost bag0: multiset<Entry>, ghost out0: seq<nat>, ghost gone: seq<Entry>)
      returns (out': seq<nat>, ghost gone': seq<Entry>)
      requires Sweeping(ti, bag0, out0, out, gone) && l < |levels| && |levels[l].bins| == Pow2(g.binBits) &&
               rtime < Pow2(g.binBits)
      requires from == LowBits(c, g.binBits) && to == LowBits(c + rtime, g.binBits) &&
               DueUpTo(levels[l].bins, c, c + rtime, ti)
      modifies this`levels
      ensures Sweeping(ti, bag0, out0, out', gone') && OnlyLevel(old(levels), l) && Emptier(old(levels), l)
      ensures EmptyBelow(l, c, c + rtime + 1)
    {
      out', gone' := out, gone;
      ghost var s, a := c, c + rtime;
      var w := from;
      while true
        invariant c <= s <= a && w == LowBits(s, g.binBits)
        invariant Walking(old(levels), l, c, s, ti, bag0, out0, out', gone')
        decreases a - s
      {
        out', gone' := ExpireStep(l, w, out', old(levels), c, s, a, ti, bag0, out0, gone');
        DifferentBins(g, s, a);
        if w == to {
          break;
        }
        w := NextIndex(w, s);
        s := s + 1;
      }
      assert s == a;
    }

    /** wheel_add, one bin further. */
    method NextIndex(w: nat, ghost s: nat) returns (w': nat)
      requires w == LowBits(s, g.binBits)
      ensures w' == LowBits(s + 1, g.binBits)
    {
      NextBin(s);
      w' := LowBits(w + 1, g.binBits);
    }

    lemma StillDue(was: seq<Level>, l: nat, w: nat, c: nat, s: nat, a: nat, ti: nat)
      requires l < |was| && l < |levels| && Emptier(was, l) && |was[l].bins| == Pow2(g.binBits)
      requires c <= s <= a < c + Pow2(g.binBits) && w == LowBits(s, g.binBits)
      requires DueUpTo(was[l].bins, c, a, ti)
      ensures AllDue(levels[l].bins[w], ti)
    {
      UnwrapInverse(g, c, s);
    }

    method ExpireStep(l: nat, w: nat, out: seq<nat>, ghost was: seq<Level>, ghost c: nat, ghost s: nat, ghost a: nat,
                      ghost ti: nat, ghost bag0: multiset<Entry>, ghost out0: seq<nat>, ghost gone: seq<Entry>)
      returns (out': seq<nat>, ghost gone': seq<Entry>)
      requires Walking(was, l, c, s, ti, bag0, out0, out, gone) && w == LowBits(s, g.binBits)
      requires s <= a < c + Pow2(g.binBits) && |was[l].bins| == Pow2(g.binBits) && DueUpTo(was[l].bins, c, a, ti)
      modifies this`levels
      ensures Walking(was, l, c, s + 1, ti, bag0, out0, out', gone')
    {
      out', gone' := out, gone;
      StillDue(was, l, w, c, s, a, ti);
      if w in levels[l].occupied {
        out', gone' := ExpireBin(l, w, out, ti, bag0, out0, gone);
      }
      OneFurther(old(levels), l, w, c, s);
    }

    /** Whatever is on a level at least one turn behind is due. */
    lemma WholeLevelDue(l: nat, ti: nat)
      requires LevelsOk(g, now, base, levels) && l < |levels| && now <= ti
      requires Tick(g, now, l) + Pow2(g.binBits) + (if l == 0 then 0 else 1) <= Tick(g, ti, l)
      requires l > 0 ==> PassedLevel(l, ti)
      ensures forall w :: 0 <= w < |levels[l].bins| ==> AllDue(levels[l].bins[w], ti)
    {
      assert LevelOk(g, now, base, l, levels[l]);
      forall w | 0 <= w < |levels[l].bins| ensures AllDue(levels[l].bins[w], ti) {
        assert BinOk(g, now, base, l, w, levels[l].bins[w]);
      }
    }

    /** What is in the bins of the last level up to the time itself is due. */
    lemma WalkDue(l: nat, rtime: nat, ti: nat)
      requires LevelsOk(g, now, base, levels) && l < |levels| && |levels[l].bins| == Pow2(g.binBits)
      requires if l == 0 then now + rtime == ti else Tick(g, now, l) + rtime + 1 <= Tick(g, ti, l) && PassedLevel(l, ti)
      ensures DueUpTo(levels[l].bins, Tick(g, now, l), Tick(g, now, l) + rtime, ti)
    {
      forall w | 0 <= w < |levels[l].bins| && Unwrap(g, Tick(g, now, l), w) <= Tick(g, now, l) + rtime
        ensures AllDue(levels[l].bins[w], ti)
      {
        assert LevelOk(g, now, base, l, levels[l]);
        assert BinOk(g, now, base, l, w, levels[l].bins[w]);
      }
    }

    /** The second part of timing_wheel_advance: empty the levels below the one of the new time,
        and that one up to the new time. */
    method ExpireLevels(time: nat, out: seq<nat>, ghost bag0: multiset<Entry>, ghost out0: seq<nat>,
                        ghost gone: seq<Entry>)
      returns (out': seq<nat>, ghost gone': seq<Entry>)
      requires now <= Index(g, time) && Sweeping(Index(g, time), bag0, out0, out, gone) && AllPassed(Index(g, time), 1)
      modifies this`levels
      ensures Sweeping(Index(g, time), bag0, out0, out', gone') && AllPassed(Index(g, time), 0)
    {
      ghost var ti := Index(g, time);
      var level, rtime := GetLevelAndRelativeTime(time);
      var to := RtimeToWheelIndex(level, rtime);
      out', gone' := out, gone;
      var l := 0;
      while l < level && l < |levels|
        invariant l <= level && Sweeping(ti, bag0, out0, out', gone')
        invariant AllPassed(ti, if l > 0 then 0 else 1)
      {
        out', gone' := ExpireBelow(l, out', ti, bag0, out0, gone');
        l := l + 1;
      }
      if l < |levels| {
        out', gone' := ExpireLast(l, rtime, to, out', ti, bag0, out0, gone');
      }
    }

    /** One of these levels. */
    method ExpireBelow(l: nat, out: seq<nat>, ghost ti: nat, ghost bag0: multiset<Entry>, ghost out0: seq<nat>,
                       ghost gone: seq<Entry>)
      returns (out': seq<nat>, ghost gone': seq<Entry>)
      requires Sweeping(ti, bag0, out0, out, gone) && l < |levels| && AllPassed(ti, if l > 0 then 0 else 1)
      requires now <= ti && Tick(g, now, l) + Pow2(g.binBits) + (if l == 0 then 0 else 1) <= Tick(g, ti, l)
      modifies this`levels
      ensures Sweeping(ti, bag0, out0, out', gone') && AllPassed(ti, 0)
    {
      WholeLevelDue(l, ti);
      assert LevelOk(g, now, base, l, levels[l]);
      out', gone' := ExpireWholeLevel(l, out, ti, bag0, out0, gone);
      PassedToo(old(levels), l, ti);
    }

    /** The last of these levels. */
    method ExpireLast(l: nat, ghost rtime: nat, to: nat, out: seq<nat>, ghost ti: nat, ghost bag0: multiset<Entry>,
                      ghost out0: seq<nat>, ghost gone: seq<Entry>)
      returns (out': seq<nat>, ghost gone': seq<Entry>)
      requires Sweeping(ti, bag0, out0, out, gone) && l < |levels| && AllPassed(ti, if l > 0 then 0 else 1)
      requires rtime < Pow2(g.binBits) && to == LowBits(Tick(g, now, l) + rtime, g.binBits)
      requires if l == 0 then now + rtime == ti else Tick(g, now, l) + rtime + 1 <= Tick(g, ti, l)
      modifies this`levels
      ensures Sweeping(ti, bag0, out0, out', gone') && AllPassed(ti, 0)
    {
      out', gone' := out, gone;
      assert LevelOk(g, now, base, l, levels[l]);
      if levels[l].bins != [] {
        WalkDue(l, rtime, ti);
        out', gone' := ExpireWalk(l, rtime, LowBits(Tick(g, now, l), g.binBits), to, out, Tick(g, now, l), ti, bag0,
            out0, gone);
        WalkPassed(old(levels), l, rtime, ti);
      } else {
        assert LevelPassed(g, now, ti, l, levels[l]);
      }
    }

    lemma PassedToo(was: seq<Level>, l: nat, ti: nat)
      requires OnlyLevel(was, l) && l < |levels| && |levels[l].bins| == |was[l].bins|
      requires |was[l].bins| == 0 || |was[l].bins| == Pow2(g.binBits)
      requires forall w :: 0 <= w < |levels[l].bins| ==> levels[l].bins[w] == []
      requires LevelsPassed(g, now, ti, was, if l > 0 then 0 else 1)
      ensures AllPassed(ti, 0)
    {
      forall k | 0 <= k < |levels| ensures LevelPassed(g, now, ti, k, levels[k]) {
        assert k != l ==> LevelPassed(g, now, ti, k, was[k]);
      }
    }

    lemma WalkPassed(was: seq<Level>, l: nat, rtime: nat, ti: nat)
      requires OnlyLevel(was, l) && l < |levels| && Emptier(was, l) && |was[l].bins| == Pow2(g.binBits)
      requires l == 0 ==> now + rtime == ti && EmptyBelow(0, now, now + rtime + 1)
      requires LevelsPassed(g, now, ti, was, if l > 0 then 0 else 1)
      ensures AllPassed(ti, 0)
    {
      forall k | 0 <= k < |levels| ensures LevelPassed(g, now, ti, k, levels[k]) {
        assert k > 0 ==> LevelPassed(g, now, ti, k, was[k]);
        assert l > 0 ==> LevelPassed(g, now, ti, k, was[k]);
      }
    }

    /** What is on the wheel now is what was before and these elements. */
    ghost predicate Joined(now: multiset<Entry>, before: multiset<Entry>, es: seq<Elt>)
      reads this`base
    {
      now == before + multiset(Absolute(es, base))
    }

    lemma NonePending(bag: multiset<Entry>, es: seq<Elt>)
      ensures Joined(bag, bag, es[..0])
    {
      assert Absolute(es[..0], base) == [];
    }

    lemma PendingBag(bag: multiset<Entry>, before: multiset<Entry>, es: seq<Elt>, i: nat)
      requires i < |es| && Joined(bag, before, es[..i])
      ensures Joined(bag + multiset{Entry(es[i].user, base + es[i].rel)}, before, es[..i + 1])
    {
      assert Absolute(es[..i + 1], base) == Absolute(es[..i], base) + [Entry(es[i].user, base + es[i].rel)];
    }

    /** insert_elt. */
    method InsertElt(es: seq<Elt>, i: nat, ghost ti: nat, ghost before: multiset<Entry>)
      requires LevelsOk(g, now, base, levels) && NoneDue(g, LevelsBag(levels, base), ti)
      requires now == ti && Waiting(es, ti) && i < |es| && Joined(LevelsBag(levels, base), before, es[..i])
      modifies this`levels, this`overflow
      ensures LevelsOk(g, now, base, levels) && NoneDue(g, LevelsBag(levels, base), ti) && overflow == old(overflow)
      ensures Joined(LevelsBag(levels, base), before, es[..i + 1])
    {
      var e := es[i];
      ghost var bag, x := LevelsBag(levels, base), Entry(e.user, base + e.rel);
      assert Fits(x.time, base) && !Due(g, x, ti);
      PendingBag(bag, before, es, i);
      InsertTimed(base + e.rel, e.user);
      NoneDueMore(bag, x, LevelsBag(levels, base), ti);
    }

    lemma NoneDueMore(bag: multiset<Entry>, x: Entry, bag': multiset<Entry>, ti: nat)
      requires NoneDue(g, bag, ti) && !Due(g, x, ti) && bag' == bag + multiset{x}
      ensures NoneDue(g, bag', ti)
    {
    }

    ghost predicate Waiting(es: seq<Elt>, ti: nat)
      reads this`base
    {
      forall i :: 0 <= i < |es| ==> es[i].rel < RELATIVE_TIMES && Index(g, base + es[i].rel) > ti
    }

    /** The elements pending are filed by the new time. */
    method FilePending(ghost ti: nat)
      requires LevelsOk(g, now, base, levels) && now == ti
      requires NoneDue(g, LevelsBag(levels, base), ti) && Waiting(pending, ti)
      modifies this`levels, this`overflow, this`pending
      ensures LevelsOk(g, now, base, levels) && overflow == old(overflow) && pending == []
      ensures NoneDue(g, LevelsBag(levels, base), ti)
      ensures LevelsBag(levels, base) == old(LevelsBag(levels, base) + multiset(Absolute(pending, base)))
    {
      var es := pending;
      pending := [];
      ghost var bag := LevelsBag(levels, base);
      var i := 0;
      NonePending(bag, es);
      while i < |es|
        invariant i <= |es| && overflow == old(overflow) && pending == []
        invariant LevelsOk(g, now, base, levels) && NoneDue(g, LevelsBag(levels, base), ti)
        invariant Joined(LevelsBag(levels, base), bag, es[..i])
      {
        InsertElt(es, i, ti, bag);
        i := i + 1;
      }
      assert es[..i] == es;
    }

    /** The loops of advance_cpu_time_base over the elements on the wheel. */
    method RebaseBin(es: seq<Elt>, delta: nat) returns (ok: bool, es': seq<Elt>)
      ensures ok <==> BinAtLeast(es, delta)
      ensures ok ==> RebasedBin(es, es', delta)
    {
      es' := es;
      var i := 0;
      while i < |es|
        invariant i <= |es| == |es'|
        invariant forall k :: 0 <= k < i ==> es[k].rel >= delta && es'[k] == Elt(es[k].user, es[k].rel - delta)
        invariant forall k :: i <= k < |es| ==> es'[k] == es[k]
      {
        if es'[i].rel < delta {
          return false, es';
        }
        es' := es'[i := Elt(es'[i].user, es'[i].rel - delta)];
        i := i + 1;
      }
      ok := true;
    }

    method RebaseLevel(lv: Level, delta: nat) returns (ok: bool, lv': Level)
      requires forall w :: 0 <= w < |lv.bins| ==> (w in lv.occupied <==> lv.bins[w] != [])
      ensures ok <==> LevelAtLeast(lv, delta)
      ensures ok ==> RebasedLevel(lv, lv', delta)
    {
      lv', ok := lv, true;
      var w := 0;
      while w < |lv.bins|
        invariant w <= |lv.bins| == |lv'.bins| && lv'.occupied == lv.occupied
        invariant forall v :: 0 <= v < w ==> BinAtLeast(lv.bins[v], delta) && RebasedBin(lv.bins[v], lv'.bins[v], delta)
        invariant forall v :: w <= v < |lv.bins| ==> lv'.bins[v] == lv.bins[v]
      {
        if w in lv.occupied {
          var es;
          ok, es := RebaseBin(lv.bins[w], delta);
          if !ok {
            return;
          }
          lv' := Level(lv'.occupied, lv'.bins[w := es]);
        }
        w := w + 1;
      }
      ok := true;
    }

    /** If an element that is not yet past is before the next base, it is stuck. */
    lemma BeforeNextBase(l: nat, w: nat, i: nat) returns (x: Entry)
      requires BaseOk() && now >= nextBaseUpdate && NonePast()
      requires l < |levels| && w < |levels[l].bins| && i < |levels[l].bins[w]|
      requires levels[l].bins[w][i].rel < Pow2(eltTimeBits)
      ensures x in LevelsBag(levels, base) && Stuck(g, x, base, base + Pow2(eltTimeBits), now)
    {
      InBag(levels, l, w, i, base);
      x := Entry(levels[l].bins[w][i].user, base + levels[l].bins[w][i].rel);
      ShrPlusPow(base, eltTimeBits - g.clockBits, g.clockBits);
      ShrMono(x.time, base + Pow2(eltTimeBits), g.clockBits);
    }

    /** The source asserts that every element is at least as late as the new base. */
    method RebaseLevels(delta: nat) returns (ok: bool)
      requires LevelsOk(g, now, base, levels)
      modifies this`levels
      ensures ok <==> old(AtLeast(levels, delta))
      ensures ok ==>
              LevelsOk(g, now, base + delta, levels) && LevelsBag(levels, base + delta) == old(LevelsBag(levels, base))
    {
      var l := 0;
      while l < |levels|
        invariant l <= |levels| == |old(levels)|
        invariant forall k :: 0 <= k < l ==> LevelAtLeast(old(levels)[k], delta)
        invariant forall k :: 0 <= k < l ==> RebasedLevel(old(levels)[k], levels[k], delta)
        invariant forall k :: l <= k < |levels| ==> levels[k] == old(levels)[k]
      {
        assert LevelOk(g, now, base, l, old(levels)[l]);
        var lv;
        ok, lv := RebaseLevel(levels[l], delta);
        if !ok {
          return;
        }
        levels := levels[l := lv];
        l := l + 1;
      }
      ok := true;
      RebasedWheel(g, now, old(levels), levels, base, delta);
    }

    /** No bin time has passed is in use, whatever may be due in the current one. */
    ghost predicate NonePast()
      reads this`levels, this`base, this`now
    {
      forall x :: x in LevelsBag(levels, base) ==> now <= Index(g, x.time)
    }

    /** Since the time base was base0 it has not moved past anything in the overflow pool. */
    ghost predicate NonePassed(base0: nat)
      reads this`overflow, this`base
    {
      forall x :: x in overflow && base0 <= x.time ==> base <= x.time
    }

    /** The wheel between the sweep and the end of timing_wheel_advance: of what there was, late
        has been found late since the time base was base0. */
    ghost predicate Advanced(all: multiset<Entry>, late: seq<Entry>, base0: nat)
      reads this`levels, this`overflow, this`base, this`now, this`nextBaseUpdate
    {
      && LevelsOk(g, now, base, levels) && BaseOk() && Index(g, base) <= now && base0 <= base
      && Contents() + multiset(late) == all && NonePast() && NonePassed(base0) && AllLate(late, base0)
    }

    ghost predicate AllLate(late: seq<Entry>, base0: nat)
      reads this`now
    {
      forall i :: 0 <= i < |late| ==> Late(g, late[i], base0, now)
    }

    /** The elements found late do not have room in the vector. */
    ghost predicate Overfull(room: Room, all: multiset<Entry>, late: seq<Entry>, base0: nat)
      reads this`now, this`deleted
    {
      TooMany(room, late, deleted) && multiset(late) <= all && AllLate(late, base0)
    }

    ghost predicate NoneDueIn(es: seq<Entry>)
      reads this`now
    {
      forall x :: x in es ==> !Due(g, x, now)
    }

    ghost predicate NoneFits()
      reads this`overflow, this`base
    {
      forall x :: x in overflow ==> !Fits(x.time, base)
    }

    /** advance_cpu_time_base, which gets a copy v of the pointer to the result, v0 until base0. */
    method AdvanceCpuTimeBase(v: Expired, ghost all: multiset<Entry>, ghost late: seq<Entry>, ghost base0: nat,
                              ghost v0: Expired)
      returns (outcome: Outcome, v': Expired, ghost late': seq<Entry>)
      requires Advanced(all, late, base0) && Grown(v0, v, late, deleted) && now >= nextBaseUpdate && NoneFits()
      modifies this`levels, this`overflow, this`base, this`nextBaseUpdate
      ensures outcome.AssertionFailed? <==> old(SomeStuck())
      ensures if outcome.Moved? then Overfull(v0.room, all, late', base0) else Grown(v0, v', late', deleted)
      ensures outcome.AssertionFailed? ==> StuckIn(all, base0, old(NewBase(g, eltTimeBits, base, now)))
      ensures outcome.Returned? ==>
              && Advanced(all, late', base0) && NoneFits() && nextBaseUpdate > old(nextBaseUpdate)
              && base == old(base) + Pow2(eltTimeBits)
              && NewBase(g, eltTimeBits, base, now) == old(NewBase(g, eltTimeBits, base, now))
    {
      NextNewBase();
      if SomeStuck() {
        StuckThen(all, late, base0);
      }
      v', late' := v, late;
      var ok := MoveBase(all, late, base0);
      if !ok {
        return AssertionFailed, v, late;
      }
      var moved;
      moved, v', late' := RefileOverflow(v, all, late, base0, v0);
      outcome := if moved then Moved else Returned;
    }

    /** Something on the levels is due in the current bin, but before the next base. */
    ghost predicate SomeStuck()
      reads this`levels, this`base, this`now
    {
      exists x :: x in LevelsBag(levels, base) && Stuck(g, x, base, base + Pow2(eltTimeBits), now)
    }

    /** The part of advance_cpu_time_base that is not about the overflow pool. */
    method MoveBase(ghost all: multiset<Entry>, ghost late: seq<Entry>, ghost base0: nat) returns (ok: bool)
      requires Advanced(all, late, base0) && now >= nextBaseUpdate && NoneFits()
      modifies this`levels, this`base, this`nextBaseUpdate
      ensures ok <==> !old(SomeStuck())
      ensures ok ==>
              && Advanced(all, late, base0) && nextBaseUpdate > old(nextBaseUpdate)
              && base == old(base) + Pow2(eltTimeBits)
    {
      var delta := Pow2(eltTimeBits);
      StuckMeans();
      ok := RebaseLevels(delta);
      if ok {
        BaseMoves(base);
        base := base + delta;
        nextBaseUpdate := nextBaseUpdate + Shr(delta, g.clockBits);
      }
    }

    ghost predicate StuckIn(all: multiset<Entry>, base0: nat, b: nat)
      reads this`now
    {
      exists x :: x in all && Stuck(g, x, base0, b, now)
    }

    lemma BaseMoves(b: nat)
      requires g.clockBits <= eltTimeBits < 32
      ensures Index(g, b + Pow2(eltTimeBits)) == Index(g, b) + Pow2(eltTimeBits - g.clockBits)
      ensures Shr(Pow2(eltTimeBits), g.clockBits) == Pow2(eltTimeBits - g.clockBits)
      ensures Pow2(eltTimeBits) <= RELATIVE_TIMES
    {
      ShrPlusPow(b, eltTimeBits - g.clockBits, g.clockBits);
      ShrPlusPow(0, eltTimeBits - g.clockBits, g.clockBits);
      ShrZero(0, g.clockBits);
      Pow2Mono(eltTimeBits, 32);
      WordSize();
    }

    /** The assertion holds unless something is stuck. */
    lemma StuckMeans()
      requires LevelsOk(g, now, base, levels) && BaseOk() && now >= nextBaseUpdate && NonePast()
      ensures AtLeast(levels, Pow2(eltTimeBits)) <==> !SomeStuck()
    {
      if x :| x in LevelsBag(levels, base) && Stuck(g, x, base, base + Pow2(eltTimeBits), now) {
        var l, w, i := FindLevel(levels, x, base);
        assert !BinAtLeast(levels[l].bins[w], Pow2(eltTimeBits));
        assert !LevelAtLeast(levels[l], Pow2(eltTimeBits));
      } else {
        forall l, w, i | 0 <= l < |levels| && 0 <= w < |levels[l].bins| && 0 <= i < |levels[l].bins[w]|
          ensures levels[l].bins[w][i].rel >= Pow2(eltTimeBits)
        {
          if levels[l].bins[w][i].rel < Pow2(eltTimeBits) {
            var _ := BeforeNextBase(l, w, i);
          }
        }
      }
    }

    /** See which overflow elements fit now. */
    method RefileOverflow(v: Expired, ghost all: multiset<Entry>, ghost late: seq<Entry>, ghost base0: nat,
                          ghost v0: Expired)
      returns (moved: bool, v': Expired, ghost late': seq<Entry>)
      requires Advanced(all, late, base0) && Grown(v0, v, late, deleted)
      modifies this`levels, this`overflow
      ensures if moved then Overfull(v0.room, all, late', base0)
              else Advanced(all, late', base0) && NoneFits() && Grown(v0, v', late', deleted)
    {
      moved, v', late' := false, v, late;
      var pool;
      ghost var filed;
      pool, filed := EmptyPool(all, late, base0, v0, v);
      var i := 0;
      while i < |pool|
        invariant i <= |pool| && !moved && Refiling(pool, i, filed, all, late', base0, v0, v')
      {
        moved, v', late', filed := RefileNext(pool, i, v', filed, all, late', base0, v0);
        if moved {
          return;
        }
        i := i + 1;
      }
      assert Open(0);
    }

    /** With the elements of the pool before i filed again. */
    ghost predicate Refiling(pool: seq<Entry>, i: nat, filed: multiset<Entry>, all: multiset<Entry>, late: seq<Entry>,
                             base0: nat, v0: Expired, v: Expired)
      reads this`levels, this`overflow, this`base, this`now, this`nextBaseUpdate, this`deleted
    {
      forall k {:trigger Open(k)} :: Open(k) ==>
        && ToFile(filed, pool, i, all) && Advanced(filed, late, base0) && NoneFits()
        && Grown(v0, v, late, deleted) && forall x :: x in pool && base0 <= x.time ==> base <= x.time
    }

    method EmptyPool(ghost all: multiset<Entry>, ghost late: seq<Entry>, ghost base0: nat, ghost v0: Expired,
                     ghost v: Expired)
      returns (pool: seq<Entry>, ghost filed: multiset<Entry>)
      requires Advanced(all, late, base0) && Grown(v0, v, late, deleted)
      modifies this`overflow
      ensures Refiling(pool, 0, filed, all, late, base0, v0, v)
    {
      pool := overflow;
      filed := LevelsBag(levels, base) + multiset(late);
      overflow := [];
      assert LevelsBag(levels, base) + multiset([]) == LevelsBag(levels, base);
      PoolFirst(LevelsBag(levels, base), late, pool, all);
    }

    method RefileNext(pool: seq<Entry>, i: nat, v: Expired, ghost filed: multiset<Entry>, ghost all: multiset<Entry>,
                      ghost late: seq<Entry>, ghost base0: nat, ghost v0: Expired)
      returns (moved: bool, v': Expired, ghost late': seq<Entry>, ghost filed': multiset<Entry>)
      requires i < |pool| && Refiling(pool, i, filed, all, late, base0, v0, v)
      modifies this`levels, this`overflow
      ensures if moved then Overfull(v0.room, all, late', base0)
              else Refiling(pool, i + 1, filed', all, late', base0, v0, v')
    {
      assert Open(0);
      OneFewer(pool, i, filed, all);
      assert pool[i] in pool;
      moved, v', late' := RefileOne(pool[i], v, filed, late, base0, v0);
      filed' := filed + multiset{pool[i]};
    }

    /** The pool is still to be filed from i on. */
    ghost predicate ToFile(filed: multiset<Entry>, pool: seq<Entry>, i: nat, all: multiset<Entry>) {
      filed <= all && if i < |pool| then filed + multiset(pool[i..]) == all else filed == all
    }

    lemma PoolFirst(bag: multiset<Entry>, late: seq<Entry>, pool: seq<Entry>, all: multiset<Entry>)
      requires bag + multiset(pool) + multiset(late) == all
      ensures ToFile(bag + multiset(late), pool, 0, all)
    {
      assert pool[0..] == pool;
      assert bag + multiset(late) + multiset(pool) == all;
    }

    lemma OneFewer(pool: seq<Entry>, i: nat, filed: multiset<Entry>, all: multiset<Entry>)
      requires i < |pool| && ToFile(filed, pool, i, all)
      ensures ToFile(filed + multiset{pool[i]}, pool, i + 1, all)
    {
      assert pool[i..] == [pool[i]] + pool[i + 1..];
      assert filed + multiset{pool[i]} + multiset(pool[i + 1..]) == all;
      if i + 1 == |pool| {
        assert pool[i + 1..] == [];
      }
    }

    /** One overflow element.  If it fits, but should have expired before the current bin, its user
        is appended to the result, unless deleted. */
    method RefileOne(x: Entry, v: Expired, ghost all: multiset<Entry>, ghost late: seq<Entry>, ghost base0: nat,
                     ghost v0: Expired)
      returns (moved: bool, v': Expired, ghost late': seq<Entry>)
      requires Advanced(all, late, base0) && NoneFits() && Grown(v0, v, late, deleted)
      requires base0 <= x.time ==> base <= x.time
      modifies this`levels, this`overflow
      ensures Advanced(all + multiset{x}, late', base0) && NoneFits()
      ensures if moved then TooMany(v0.room, late', deleted) else Grown(v0, v', late', deleted)
    {
      moved, v', late' := false, v, late;
      if !Fits(x.time, base) {
        overflow := overflow + [x];
      } else if Index(g, x.time) < now {
        late' := late + [x];
        moved, v' := AppendToCopy(x, v, deleted, late, v0);
      } else {
        InsertTimed(x.time, x.user);
      }
    }

    /** timing_wheel_advance, where the result vector has the given room once the levels have been
        swept.  Unless an element of the overflow pool is due, exactly what is due by the new time
        leaves the wheel, and of that exactly what is not deleted is returned.  In general there is
        a result if and only if no element is stuck and the late ones do not overfill the vector;
        and it is right if and only if each element due in the pool is deleted, or is found late by
        a caller who has a vector to see it in. */
    method Advance(time: nat, expired: seq<nat>, room: Room)
      returns (outcome: Outcome, out: seq<nat>, ghost gone: seq<Entry>, ghost late: seq<Entry>)
      requires Valid() && now <= Index(g, time)
      requires Tick(g, Index(g, time), 1) - Tick(g, now, 1) < Pow2(g.binBits)
      modifies this`levels, this`overflow, this`pending, this`now, this`base, this`nextBaseUpdate
      ensures now == Index(g, time)
      ensures forall x: Entry :: multiset(gone)[x] == if Due(g, x, now) then old(LevelsBag(levels, base))[x] else 0
      ensures outcome.Returned? ==> LatePart(g, old(overflow), late, old(base), now)
      ensures var room' := RoomOf(room, expired + Users(gone, deleted));
        && (!outcome.Moved? ==>
            out == expired + Users(gone, deleted) + if room'.Null? then [] else Users(late, deleted))
        && Ends(outcome, g, eltTimeBits, old(base), old(overflow), deleted, now, room')
        && (outcome.Returned? ==>
            (Exact(g, old(Contents()), out[|expired|..], Contents(), deleted, now) <==>
             AllSeen(g, old(base), old(overflow), deleted, now, room')))
      ensures outcome.Returned? ==>
        Valid() && base == NewBase(g, eltTimeBits, old(base), now) && (old(NoneEarly()) ==> NoneEarly())
      ensures NoneDueIn(old(overflow)) ==>
        && outcome.Returned? && out == expired + Users(gone, deleted)
        && Step(g, old(View()), Op.Advance(now, gone), View())
    {
      ghost var s0, bag0 := View(), LevelsBag(levels, base);
      ghost var pool, base0 := overflow, base;
      ghost var bag;
      outcome, out, gone, late, bag := TurnAndUpdate(time, expired, room);
      ghost var room' := RoomOf(room, expired + Users(gone, deleted));
      ghost var users := if outcome.Returned? then out[|expired|..] else [];
      if outcome.Returned? {
        LastPart(expired, Users(gone, deleted), if room'.Null? then [] else Users(late, deleted), out);
      }
      Answered(outcome, s0, View(), bag, gone, bag0, base0, pool, late, room', users);
    }

    lemma LastPart(r: seq<nat>, s: seq<nat>, t: seq<nat>, out: seq<nat>)
      requires out == r + s + t
      ensures out[|r|..] == s + t
    {
    }

    lemma Answered(outcome: Outcome, s0: State, s: State, bag: multiset<Entry>, gone: seq<Entry>,
                   bag0: multiset<Entry>, base0: nat, pool: seq<Entry>, late: seq<Entry>, room: Room, users: seq<nat>)
      requires g.clockBits <= eltTimeBits && s0.now <= now == s.now && s.deleted == s0.deleted == deleted
      requires s0.contents == bag0 + multiset(pool)
      requires Swept(bag, gone, bag0) && Ends(outcome, g, eltTimeBits, base0, pool, deleted, now, room)
      requires outcome.Returned? ==> s.contents + multiset(late) == bag + multiset(pool)
      requires outcome.Returned? ==> LatePart(g, pool, late, base0, now)
      requires outcome.Returned? ==> users == Users(gone, deleted) + if room.Null? then [] else Users(late, deleted)
      ensures forall x: Entry :: multiset(gone)[x] == if Due(g, x, now) then bag0[x] else 0
      ensures outcome.Returned? ==>
              (Exact(g, s0.contents, users, s.contents, deleted, now) <==>
               AllSeen(g, base0, pool, deleted, now, room))
      ensures NoneDueIn(pool) ==> outcome.Returned? && late == [] && Step(g, s0, Op.Advance(now, gone), s)
    {
      LevelsPart(bag, gone, bag0);
      if outcome.Returned? {
        WhenRight(s0.contents, bag, gone, bag0, base0, pool, s.contents, late, room, users);
      }
      if NoneDueIn(pool) {
        NoneDueEnds(outcome, pool, base0, room);
        WhenNoneDue(s0, s, bag, gone, bag0, base0, pool, late);
      }
    }

    /** What is due has gone from the levels. */
    ghost predicate Swept(bag: multiset<Entry>, gone: seq<Entry>, bag0: multiset<Entry>)
      reads this`now
    {
      && bag + multiset(gone) == bag0 && NoneDue(g, bag, now)
      && forall i :: 0 <= i < |gone| ==> Due(g, gone[i], now)
    }

    lemma WhenNoneDue(s0: State, s: State, bag: multiset<Entry>, gone: seq<Entry>, bag0: multiset<Entry>, base0: nat,
                      pool: seq<Entry>, late: seq<Entry>)
      requires Swept(bag, gone, bag0) && NoneDueIn(pool) && LatePart(g, pool, late, base0, now)
      requires s0.now <= now == s.now && s.deleted == s0.deleted
      requires s0.contents == bag0 + multiset(pool) && s.contents + multiset(late) == bag + multiset(pool)
      ensures late == [] && Step(g, s0, Op.Advance(now, gone), s)
    {
      NoneLate(pool, late, base0);
      Exactly(g, bag, gone, bag0, pool, now);
      assert s.contents + multiset([]) == s.contents;
    }

    lemma WhenRight(all: multiset<Entry>, bag: multiset<Entry>, gone: seq<Entry>, bag0: multiset<Entry>, base0: nat,
                    pool: seq<Entry>, left: multiset<Entry>, late: seq<Entry>, room: Room, users: seq<nat>)
      requires all == bag0 + multiset(pool)
      requires Swept(bag, gone, bag0)
      requires left + multiset(late) == bag + multiset(pool) && LatePart(g, pool, late, base0, now)
      requires users == Users(gone, deleted) + if room.Null? then [] else Users(late, deleted)
      ensures Exact(g, all, users, left, deleted, now) <==> AllSeen(g, base0, pool, deleted, now, room)
    {
      if room.Null? {
        LatePartDue(pool, late, base0);
        WhenLost(g, bag, gone, bag0, pool, left, late, deleted, now);
      } else {
        WhenSeen(g, bag, gone, bag0, base0, pool, left, late, deleted, now, room);
        UsersJoined(gone, late, deleted);
      }
    }

    lemma LatePartDue(pool: seq<Entry>, late: seq<Entry>, base0: nat)
      requires LatePart(g, pool, late, base0, now)
      ensures forall i :: 0 <= i < |late| ==> Due(g, late[i], now)
    {
      forall i | 0 <= i < |late| ensures Due(g, late[i], now) {
        assert late[i] in multiset(late);
      }
    }

    lemma LevelsPart(bag: multiset<Entry>, gone: seq<Entry>, bag0: multiset<Entry>)
      requires Swept(bag, gone, bag0)
      ensures forall x: Entry :: multiset(gone)[x] == if Due(g, x, now) then bag0[x] else 0
    {
      forall x: Entry
        ensures multiset(gone)[x] == if Due(g, x, now) then bag0[x] else 0
      {
        assert (bag + multiset(gone))[x] == bag0[x];
        assert multiset(gone)[x] > 0 ==> x in gone;
      }
    }

    /** What has gone from the levels, what was left there, and what was late in the overflow pool. */
    method TurnAndUpdate(time: nat, expired: seq<nat>, room: Room)
      returns (outcome: Outcome, out: seq<nat>, ghost gone: seq<Entry>, ghost late: seq<Entry>,
               ghost bag: multiset<Entry>)
      requires Valid() && now <= Index(g, time)
      requires Tick(g, Index(g, time), 1) - Tick(g, now, 1) < Pow2(g.binBits)
      modifies this`levels, this`overflow, this`pending, this`now, this`base, this`nextBaseUpdate
      ensures now == Index(g, time)
      ensures Swept(bag, gone, old(LevelsBag(levels, base)))
      ensures var room' := RoomOf(room, expired + Users(gone, deleted));
        && (!outcome.Moved? ==>
            out == expired + Users(gone, deleted) + if room'.Null? then [] else Users(late, deleted))
        && Ends(outcome, g, eltTimeBits, old(base), old(overflow), deleted, now, room')
      ensures outcome.Returned? ==>
        Valid() && base == NewBase(g, eltTimeBits, old(base), now) && (old(NoneEarly()) ==> NoneEarly())
      ensures outcome.Returned? ==> Contents() + multiset(late) == bag + multiset(old(overflow))
      ensures outcome.Returned? ==> LatePart(g, old(overflow), late, old(base), now)
    {
      out, gone := Turn(time, expired);
      bag := LevelsBag(levels, base);
      var v := Expired(out, RoomOf(room, out));
      outcome, v, late := UpdateAll(v, bag);
      out := v.users;
    }

    /** The update of the time base, when what is due has gone from the levels. */
    method UpdateAll(v0: Expired, ghost bag: multiset<Entry>)
      returns (outcome: Outcome, v: Expired, ghost late: seq<Entry>)
      requires LevelsOk(g, now, base, levels) && BaseOk() && Index(g, base) <= now && NoneFits() && pending == []
      requires bag == LevelsBag(levels, base) && NoneDue(g, bag, now)
      modifies this`levels, this`overflow, this`base, this`nextBaseUpdate
      ensures !outcome.Moved? ==> v.users == v0.users + if v0.room.Null? then [] else Users(late, deleted)
      ensures Ends(outcome, g, eltTimeBits, old(base), old(overflow), deleted, now, v0.room)
      ensures outcome.Returned? ==>
        Valid() && base == NewBase(g, eltTimeBits, old(base), now) && (old(NoneEarly()) ==> NoneEarly())
      ensures outcome.Returned? ==> Contents() + multiset(late) == bag + multiset(old(overflow))
      ensures outcome.Returned? ==> LatePart(g, old(overflow), late, old(base), now)
    {
      ghost var pool, base0 := overflow, base;
      AllAfter(bag);
      assert Contents() + multiset([]) == Contents();
      outcome, v, late := UpdateBase(v0, Contents());
      if !outcome.Moved? {
        GrownUsers(v0, v, late, deleted);
      }
      if outcome.Returned? {
        EndedWell(v0, v, bag, pool, late, base0);
      } else if outcome.Moved? {
        Overfilled(v0.room, bag, pool, late, base0);
      } else {
        NotStuckBefore(bag, pool, base0, NewBase(g, eltTimeBits, base0, now));
      }
    }

    lemma EndedWell(v0: Expired, v: Expired, bag: multiset<Entry>, pool: seq<Entry>, late: seq<Entry>, base0: nat)
      requires Advanced(bag + multiset(pool), late, base0) && NoneFits() && now < nextBaseUpdate
      requires NoneDue(g, bag, now) && NoneBefore(bag, base0) && Grown(v0, v, late, deleted)
      requires base == NewBase(g, eltTimeBits, base0, now)
      ensures LatePart(g, pool, late, base0, now)
      ensures Ends(Returned, g, eltTimeBits, base0, pool, deleted, now, v0.room)
      ensures (forall x :: x in pool ==> base0 <= x.time) ==> NoneEarly()
    {
      Ended(bag, pool, late, base0);
      EnoughRoom(v0, v, pool, late, base0);
      StillNoneEarly(bag, pool, late, base0);
    }

    ghost predicate NoneBefore(bag: multiset<Entry>, base0: nat) {
      forall x :: x in bag ==> base0 <= x.time
    }

    lemma AllAfter(bag: multiset<Entry>)
      requires bag == LevelsBag(levels, base)
      ensures NoneBefore(bag, base)
    {
      forall x | x in bag ensures base <= x.time {
        NotBeforeBase(x);
      }
    }

    lemma StillNoneEarly(bag: multiset<Entry>, pool: seq<Entry>, late: seq<Entry>, base0: nat)
      requires Advanced(bag + multiset(pool), late, base0) && NoneBefore(bag, base0)
      ensures (forall x :: x in pool ==> base0 <= x.time) ==> NoneEarly()
    {
      if forall x :: x in pool ==> base0 <= x.time {
        forall x | x in overflow ensures base <= x.time {
          assert multiset(overflow)[x] > 0 && (Contents() + multiset(late))[x] > 0;
          assert (bag + multiset(pool))[x] > 0;
        }
      }
    }

    /** Everything on the levels is at or after the base. */
    lemma NotBeforeBase(x: Entry)
      requires x in LevelsBag(levels, base)
      ensures base <= x.time
    {
      var l, w, i := FindLevel(levels, x, base);
    }

    /** At the end nothing in the overflow pool was stuck, and what was late there is all in late. */
    lemma Ended(bag: multiset<Entry>, pool: seq<Entry>, late: seq<Entry>, base0: nat)
      requires Advanced(bag + multiset(pool), late, base0) && NoneFits() && now < nextBaseUpdate
      requires NoneDue(g, bag, now)
      ensures LatePart(g, pool, late, base0, now) && forall x :: x in pool ==> !Stuck(g, x, base0, base, now)
    {
      forall x: Entry
        ensures Late(g, x, base0, now) || Stuck(g, x, base0, base, now) ==> Contents()[x] == 0
      {
        if x in LevelsBag(levels, base) {
          NotBeforeBase(x);
        } else if x in overflow && base <= x.time {
          NextUpdateDue(x.time);
        }
      }
      forall x: Entry
        ensures multiset(late)[x] == if Late(g, x, base0, now) then multiset(pool)[x] else 0
        ensures Stuck(g, x, base0, base, now) ==> multiset(pool)[x] == 0
      {
        assert (Contents() + multiset(late))[x] == (bag + multiset(pool))[x];
        assert multiset(late)[x] > 0 ==> x in late;
      }
    }

    /** What still does not fit is not due before the next update. */
    lemma NextUpdateDue(time: nat)
      requires BaseOk() && base <= time && !Fits(time, base)
      ensures nextBaseUpdate <= Index(g, time)
    {
      Pow2Mono(eltTimeBits, 32);
      WordSize();
      ShrPlusPow(base, eltTimeBits - g.clockBits, g.clockBits);
      ShrMono(base + Pow2(eltTimeBits), time, g.clockBits);
    }

    lemma EnoughRoom(v0: Expired, v: Expired, pool: seq<Entry>, late: seq<Entry>, base0: nat)
      requires LatePart(g, pool, late, base0, now) && Grown(v0, v, late, deleted)
      ensures !TooMany(v0.room, LateOnes(g, pool, base0, now), deleted)
    {
      LateAsMany(pool, late, base0);
      assert Open(0);
    }

    lemma LateAsMany(pool: seq<Entry>, late: seq<Entry>, base0: nat)
      requires LatePart(g, pool, late, base0, now)
      ensures |Users(late, deleted)| == |Users(LateOnes(g, pool, base0, now), deleted)|
    {
      LateOnesPart(g, pool, base0, now);
      NotMoreUsers(late, LateOnes(g, pool, base0, now), deleted);
      NotMoreUsers(LateOnes(g, pool, base0, now), late, deleted);
    }

    lemma Overfilled(room: Room, bag: multiset<Entry>, pool: seq<Entry>, late: seq<Entry>, base0: nat)
      requires Overfull(room, bag + multiset(pool), late, base0) && NoneDue(g, bag, now)
      ensures TooMany(room, LateOnes(g, pool, base0, now), deleted)
    {
      LateOnesPart(g, pool, base0, now);
      forall x: Entry
        ensures multiset(late)[x] <= multiset(LateOnes(g, pool, base0, now))[x]
      {
        assert multiset(late)[x] <= (bag + multiset(pool))[x];
        assert multiset(late)[x] > 0 ==> x in late;
      }
      NotMoreUsers(late, LateOnes(g, pool, base0, now), deleted);
    }

    lemma NotStuckBefore(bag: multiset<Entry>, pool: seq<Entry>, base0: nat, b: nat)
      requires NoneDue(g, bag, now) && StuckIn(bag + multiset(pool), base0, b)
      ensures exists x :: x in pool && Stuck(g, x, base0, b, now)
    {
      var x :| x in bag + multiset(pool) && Stuck(g, x, base0, b, now);
      assert x in pool;
    }

    /** When nothing in the pool is due, nothing is late there. */
    lemma NoneLate(pool: seq<Entry>, late: seq<Entry>, base0: nat)
      requires LatePart(g, pool, late, base0, now) && NoneDueIn(pool)
      ensures late == []
    {
      forall x: Entry
        ensures multiset(late)[x] == 0
      {
        assert multiset(pool)[x] > 0 ==> x in pool;
      }
      assert multiset(late) == multiset{} && |late| == |multiset(late)|;
    }

    /** In particular there is a result. */
    lemma NoneDueEnds(outcome: Outcome, pool: seq<Entry>, base0: nat, room: Room)
      requires g.clockBits <= eltTimeBits && NoneDueIn(pool)
      requires Ends(outcome, g, eltTimeBits, base0, pool, deleted, now, room)
      ensures outcome == Returned
    {
      LateOnesPart(g, pool, base0, now);
      NoneLate(pool, LateOnes(g, pool, base0, now), base0);
    }

    /** All of it but the update of the time base. */
    method Turn(time: nat, expired: seq<nat>) returns (out: seq<nat>, ghost gone: seq<Entry>)
      requires Valid() && now <= Index(g, time)
      requires Tick(g, Index(g, time), 1) - Tick(g, now, 1) < Pow2(g.binBits)
      modifies this`levels, this`overflow, this`pending, this`now
      ensures now == Index(g, time) && pending == [] && overflow == old(overflow)
      ensures LevelsOk(g, now, base, levels) && NoneDue(g, LevelsBag(levels, base), now)
      ensures LevelsBag(levels, base) + multiset(gone) == old(LevelsBag(levels, base))
      ensures out == expired + Users(gone, deleted) && forall i :: 0 <= i < |gone| ==> Due(g, gone[i], now)
    {
      ghost var bag0 := LevelsBag(levels, base);
      out, gone := Sweep(time, expired);
      MoveOn(Index(g, time), bag0, expired, out, gone);
    }

    /** The new time is now the current one; what is pending is filed by it. */
    method MoveOn(ti: nat, ghost bag0: multiset<Entry>, ghost out0: seq<nat>, ghost out: seq<nat>,
                  ghost gone: seq<Entry>)
      requires Sweeping(ti, bag0, out0, out, gone) && AllPassed(ti, 0) && now <= ti
      modifies this`levels, this`overflow, this`pending, this`now
      ensures now == ti && pending == [] && overflow == old(overflow)
      ensures LevelsOk(g, now, base, levels) && NoneDue(g, LevelsBag(levels, base), ti)
      ensures LevelsBag(levels, base) + multiset(gone) == bag0
    {
      WheelMoved(g, now, ti, base, levels);
      now := ti;
      FilePending(ti);
    }

    /** Advance the time base as long as necessary. */
    method UpdateBase(v: Expired, ghost all: multiset<Entry>)
      returns (outcome: Outcome, v': Expired, ghost late: seq<Entry>)
      requires Advanced(all, [], base) && NoneFits()
      modifies this`levels, this`overflow, this`base, this`nextBaseUpdate
      ensures if outcome.Moved? then Overfull(v.room, all, late, old(base)) else Grown(v, v', late, deleted)
      ensures outcome.AssertionFailed? ==> StuckIn(all, old(base), NewBase(g, eltTimeBits, old(base), now))
      ensures outcome.Returned? ==>
              && Advanced(all, late, old(base)) && NoneFits() && now < nextBaseUpdate
              && base == NewBase(g, eltTimeBits, old(base), now)
    {
      outcome, v', late := Returned, v, [];
      GrownByNone(v, deleted);
      ghost var base0 := base;
      while now >= nextBaseUpdate
        invariant outcome.Returned? && Advanced(all, late, base0) && NoneFits() && Grown(v, v', late, deleted)
        invariant NewBase(g, eltTimeBits, base, now) == NewBase(g, eltTimeBits, base0, now)
        decreases now + 1 - nextBaseUpdate
      {
        outcome, v', late := AdvanceCpuTimeBase(v', all, late, base0, v);
        if !outcome.Returned? {
          return;
        }
      }
    }

    lemma NextNewBase()
      requires BaseOk() && now >= nextBaseUpdate
      ensures NewBase(g, eltTimeBits, base, now) == NewBase(g, eltTimeBits, base + Pow2(eltTimeBits), now)
      ensures NewBase(g, eltTimeBits, base, now) >= base + Pow2(eltTimeBits)
    {
      BaseMoves(base);
      NewBaseGrows(g, eltTimeBits, base + Pow2(eltTimeBits), now);
    }

    lemma StuckThen(all: multiset<Entry>, late: seq<Entry>, base0: nat)
      requires Advanced(all, late, base0) && now >= nextBaseUpdate && SomeStuck()
      ensures StuckIn(all, base0, NewBase(g, eltTimeBits, base, now))
    {
      NextNewBase();
      var x :| x in LevelsBag(levels, base) && Stuck(g, x, base, base + Pow2(eltTimeBits), now);
      assert (Contents() + multiset(late))[x] > 0;
    }

    /** With nothing inserted before the time base, an advance of less than 2^32 clocks past the
        base finds nothing due in the overflow pool. */
    lemma OverflowNotDue(time: nat)
      requires Valid() && NoneEarly() && Index(g, time) < Index(g, base + RELATIVE_TIMES)
      ensures forall x :: x in overflow ==> !Due(g, x, Index(g, time))
    {
      forall x | x in overflow ensures !Due(g, x, Index(g, time)) {
        ShrMono(base + RELATIVE_TIMES, x.time, g.clockBits);
      }
    }

    // ---------- Calls ----------

    /** One call, of which the answer is the list of expired users. */
    method Obey(c: Call) returns (out: seq<nat>, ghost op: Op)
      requires Valid() && NoneEarly() && Legal(g, now, base, c)
      modifies this
      ensures Valid() && NoneEarly()
      ensures now == NowAfter(g, old(now), c) && base == BaseAfter(g, eltTimeBits, old(base), c)
      ensures Step(g, old(View()), op, View()) && Answers(g, c, old(deleted), op, out)
    {
      match c
      case InsertAt(time, user) =>
        Insert(time, user);
        out, op := [], Op.Insert(Entry(user, time));
      case DeleteUser(user) =>
        Delete(user);
        out, op := [], Op.Delete(user);
      case AdvanceTo(time) =>
        OverflowNotDue(time);
        var outcome;
        ghost var gone, late;
        outcome, out, gone, late := Advance(time, [], Null);
        op := Op.Advance(now, gone);
    }

    /** Any run of calls. */
    method Play(calls: seq<Call>) returns (outs: seq<seq<nat>>, ghost states: seq<State>, ghost ops: seq<Op>)
      requires Valid() && NoneEarly() && AllLegal(g, eltTimeBits, now, base, calls)
      modifies this
      ensures Valid() && NoneEarly() && Run(g, states, ops) && states[0] == old(View()) && states[|ops|] == View()
      ensures AnswersTo(g, calls, states, ops, outs, |calls|)
    {
      outs, states, ops := [], [View()], [];
      assert calls[0..] == calls;
      while |outs| < |calls|
        invariant Valid() && NoneEarly() && |outs| <= |calls|
        invariant AllLegal(g, eltTimeBits, now, base, calls[|outs|..])
        invariant Run(g, states, ops) && states[0] == old(View()) && states[|ops|] == View()
        invariant AnswersTo(g, calls, states, ops, outs, |outs|)
        decreases |calls| - |outs|
      {
        ghost var n := |outs|;
        assert calls[n..][1..] == calls[n + 1..];
        var out;
        ghost var op;
        out, op := Obey(calls[|outs|]);
        RunLonger(g, states, ops, op, View());
        AnswersMore(g, calls, states, ops, outs, n, View(), op, out);
        outs, states, ops := outs + [out], states + [View()], ops + [op];
        assert |outs| == n + 1;
      }
    }

    /** Take everything due off the wheel. */
    method Sweep(time: nat, expired: seq<nat>) returns (out: seq<nat>, ghost gone: seq<Entry>)
      requires LevelsOk(g, now, base, levels) && pending == []
      requires now <= Index(g, time) && Tick(g, Index(g, time), 1) - Tick(g, now, 1) < Pow2(g.binBits)
      modifies this`levels, this`pending
      ensures Sweeping(Index(g, time), old(LevelsBag(levels, base)), expired, out, gone) && AllPassed(Index(g, time), 0)
    {
      ghost var bag0 := LevelsBag(levels, base);
      out, gone := expired, [];
      assert Absolute([], base) == [] && bag0 + multiset{} + multiset{} == bag0;
      out, gone := RefillLevels(Index(g, time), out, bag0, expired, gone);
      out, gone := ExpireLevels(time, out, bag0, expired, gone);
    }

    /** timing_wheel_delete. */
    method Delete(user: nat)
      requires Valid()
      modifies this`deleted
      ensures Valid() && Step(g, old(View()), Op.Delete(user), View())
    {
      deleted := deleted + {user};
    }
  }

  /** On a new wheel: what is inserted is returned by an advance that reaches its time if and only
      if it could be stored relative to the base, or is found late and there is room for it. */
  method OneRun(start: nat, scale: Scale, timeBits: nat, time: nat, user: nat, t: nat, room: Room)
    returns (outcome: Outcome, out: seq<nat>)
    requires scale.clockBits <= if 0 < timeBits < 32 then timeBits else 31
    requires Index(scale, start) <= Index(scale, time) <= Index(scale, t)
    requires Tick(scale, Index(scale, t), 1) - Tick(scale, Index(scale, start), 1) < Pow2(scale.binBits)
    ensures Fits(time, start) ==> outcome.Returned? && out == [user]
    ensures room.Null? && !Fits(time, start) ==> out == []
    ensures outcome.Returned? && out == [user] <==>
            Fits(time, start) || (room.Spare? && room.n > 0 && Late(scale, Entry(user, time), start, Index(scale, t)))
  {
    var w := new Wheel(start, scale, timeBits);
    ghost var x, before := Entry(user, time), w.View();
    w.Insert(time, user);
    ghost var after := w.View();
    forall y: Entry
      ensures after.contents[y] == if y == x then 1 else 0
    {
      assert before.contents[y] == 0;
    }
    WhereItIs(LevelsBag(w.levels, w.base), w.overflow, after.contents, x, start);
    outcome, out := AdvanceForOne(w, t, x, room);
  }

  /** An advance past x, which is all there is. */
  method AdvanceForOne(w: Wheel, t: nat, ghost x: Entry, room: Room) returns (outcome: Outcome, out: seq<nat>)
    requires w.Valid() && w.deleted == {} && w.now <= Index(w.g, t) && Due(w.g, x, Index(w.g, t))
    requires Tick(w.g, Index(w.g, t), 1) - Tick(w.g, w.now, 1) < Pow2(w.g.binBits)
    requires w.overflow == if Fits(x.time, w.base) then [] else [x]
    requires forall y: Entry :: LevelsBag(w.levels, w.base)[y] == if y == x && Fits(x.time, w.base) then 1 else 0
    modifies w
    ensures old(Fits(x.time, w.base)) ==> outcome.Returned? && out == [x.user]
    ensures room.Null? && old(!Fits(x.time, w.base)) ==> out == []
    ensures outcome.Returned? && out == [x.user] <==>
            old(Fits(x.time, w.base)) || (room.Spare? && room.n > 0 && Late(w.g, x, old(w.base), Index(w.g, t)))
  {
    ghost var gone, late;
    ghost var base, pool := w.base, w.overflow;
    outcome, out, gone, late := w.Advance(t, [], room);
    assert [] + Users(gone, {}) == Users(gone, {});
    AnswerForOne(w.g, w.eltTimeBits, x, base, w.now, room, pool, gone, late, outcome, out);
  }

  lemma AnswerForOne(g: Scale, bits: nat, x: Entry, base: nat, now: nat, room: Room, pool: seq<Entry>, gone: seq<Entry>,
                     late: seq<Entry>, outcome: Outcome, out: seq<nat>)
    requires g.clockBits <= bits && pool == if Fits(x.time, base) then [] else [x]
    requires forall y: Entry :: multiset(gone)[y] == if y == x && Fits(x.time, base) then 1 else 0
    requires outcome.Returned? ==> LatePart(g, pool, late, base, now)
    requires var room' := RoomOf(room, Users(gone, {}));
             && Ends(outcome, g, bits, base, pool, {}, now, room')
             && (!outcome.Moved? ==> out == Users(gone, {}) + if room'.Null? then [] else Users(late, {}))
    ensures Fits(x.time, base) ==> outcome.Returned? && out == [x.user]
    ensures room.Null? && !Fits(x.time, base) ==> out == []
    ensures outcome.Returned? && out == [x.user] <==>
            Fits(x.time, base) || (room.Spare? && room.n > 0 && Late(g, x, base, now))
  {
    AtMostOne(gone, x, if Fits(x.time, base) then 1 else 0);
    OneLate(g, x, base, now);
    if outcome.Returned? {
      AtMostOne(late, x, if !Fits(x.time, base) && Late(g, x, base, now) then 1 else 0);
    }
    var ones := LateOnes(g, pool, base, now);
    assert ones == if !Fits(x.time, base) && Late(g, x, base, now) then [x] else [];
    if Fits(x.time, base) {
      assert !SomeStuckIn(g, bits, base, pool, now);
    } else if Late(g, x, base, now) {
      LateNotStuck(g, bits, x, base, now);
    }
  }

  lemma LateNotStuck(g: Scale, bits: nat, x: Entry, base: nat, now: nat)
    requires g.clockBits <= bits && Late(g, x, base, now)
    ensures !SomeStuckIn(g, bits, base, [x], now)
  {
  }

  lemma OneLate(g: Scale, x: Entry, base: nat, now: nat)
    ensures LateOnes(g, [x], base, now) == if Late(g, x, base, now) then [x] else []
    ensures Users([x], {}) == [x.user] && multiset([x])[x] == 1
  {
    assert [x][..0] == [];
  }

  lemma WhereItIs(bag: multiset<Entry>, pool: seq<Entry>, all: multiset<Entry>, x: Entry, base: nat)
    requires all == bag + multiset(pool) && forall y: Entry :: all[y] == if y == x then 1 else 0
    requires if Fits(x.time, base) then forall y :: y in pool ==> !Fits(y.time, base) else x in pool
    ensures forall y: Entry :: bag[y] == if y == x && Fits(x.time, base) then 1 else 0
    ensures pool == if Fits(x.time, base) then [] else [x]
  {
    var n := if Fits(x.time, base) then 0 else 1;
    forall y: Entry
      ensures bag[y] == if y == x && Fits(x.time, base) then 1 else 0
      ensures multiset(pool)[y] == if y == x then n else 0
    {
      assert (bag + multiset(pool))[y] == if y == x then 1 else 0;
      assert multiset(pool)[y] > 0 ==> y in pool;
      assert !Fits(x.time, base) ==> multiset(pool)[x] > 0;
    }
    AtMostOne(pool, x, n);
  }

  lemma AtMostOne(s: seq<Entry>, x: Entry, n: nat)
    requires n <= 1 && forall y: Entry :: multiset(s)[y] == if y == x then n else 0
    ensures s == if n == 0 then [] else [x]
  {
    assert |multiset(s)| == |s|;
    if n == 0 {
      assert multiset(s) == multiset{};
    } else {
      assert multiset(s) == multiset{x};
      assert |s| == 1 && s[0] in multiset(s);
    }
  }

  /** Such runs, of which two lose what is inserted: with bins of two clocks, an insertion in the
      current bin but before the base; and one 2^32 clocks after it, by a single advance.  The
      latter is returned after all to a caller whose vector has room for it. */
  method LostRuns() returns (early: seq<nat>, far: seq<nat>, seen: seq<nat>)
    ensures early == [] && far == [] && seen == [7]
  {
    WordSize();
    var outcome;
    outcome, early := OneRun(1, Scale(1, 1), 32, 0, 7, 1, Null);
    FarIndex();
    outcome, far := OneRun(0, Scale(16, 1), 32, RELATIVE_TIMES, 7, RELATIVE_TIMES + 2, Null);
    outcome, seen := OneRun(0, Scale(16, 1), 32, RELATIVE_TIMES, 7, RELATIVE_TIMES + 2, Spare(1));
  }

  lemma FarIndex()
    ensures var scale := Scale(16, 1); var ti := Index(scale, RELATIVE_TIMES + 2);
            && Index(scale, 0) <= Index(scale, RELATIVE_TIMES) < ti
            && Tick(scale, ti, 1) - Tick(scale, 0, 1) < Pow2(16)
  {
    var ti := Shr(RELATIVE_TIMES + 2, 1);
    assert Shr((RELATIVE_TIMES + 2) / 2, 0) == ti && Shr(RELATIVE_TIMES / 2, 0) == Shr(RELATIVE_TIMES, 1);
    WordSize();
    HighBits(ti, 16, 16);
  }
}
