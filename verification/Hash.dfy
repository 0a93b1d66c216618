/** The hash table of clib/hash.c: buckets that hold one pair directly or several indirectly,
    growing and shrinking by powers of two.
 */
module Hash {
  import opened Words

  datatype Pair<V> = Pair(key: nat, value: V)

  /** A bucket: one pair in place (its is_user bit is set), or a vector of pairs, none of them
      for an empty bucket. */
  datatype Bucket<V> = Direct(pair: Pair<V>) | Indirect(pairs: seq<Pair<V>>)

  datatype Option<T> = None | Some(value: T)

  datatype Opcode = Get | Set | Unset

  /** The user's functions: equal keys have equal sums, and equality is one. */
  ghost predicate KeyFunctions(sum: nat -> nat, eq: (nat, nat) -> bool) {
    && (forall k :: eq(k, k)) && (forall k, l :: eq(k, l) ==> eq(l, k) && sum(k) == sum(l))
    && forall k, l, n :: eq(k, l) && eq(l, n) ==> eq(k, n)
  }

  function Pairs<V>(b: Bucket<V>): seq<Pair<V>> {
    match b
    case Direct(p) => [p]
    case Indirect(ps) => ps
  }

  /** The pairs of the first n buckets in order: the order of hash_foreach_pair and hash_next. */
  function PairsUpTo<V>(buckets: seq<Bucket<V>>, n: nat): seq<Pair<V>>
    requires n <= |buckets|
  {
    if n == 0 then [] else PairsUpTo(buckets, n - 1) + Pairs(buckets[n - 1])
  }

  /** The key is at home in bucket i, with the value the map gives it. */
  ghost predicate PairOk<V>(p: Pair<V>, m: map<nat, V>, sum: nat -> nat, bits: nat, i: nat) {
    p.key in m && m[p.key] == p.value && LowBits(sum(p.key), bits) == i
  }

  ghost predicate BucketOk<V>(b: Bucket<V>, m: map<nat, V>, sum: nat -> nat, eq: (nat, nat) -> bool, bits: nat,
                              i: nat) {
    && (b.Indirect? ==> |b.pairs| != 1)
    && (forall j {:trigger PairOk(Pairs(b)[j], m, sum, bits, i)} :: 0 <= j < |Pairs(b)| ==>
        PairOk(Pairs(b)[j], m, sum, bits, i))
    && forall j, k :: 0 <= j < k < |Pairs(b)| ==> !eq(Pairs(b)[j].key, Pairs(b)[k].key)
  }

  /** The key is in some pair of its bucket. */
  ghost predicate KeyOk<V>(buckets: seq<Bucket<V>>, m: map<nat, V>, sum: nat -> nat, bits: nat, k: nat)
    requires |buckets| == Pow2(bits) && k in m
  {
    Pair(k, m[k]) in Pairs(buckets[LowBits(sum(k), bits)])
  }

  /** The buckets hold the map. */
  ghost predicate Represents<V>(buckets: seq<Bucket<V>>, m: map<nat, V>, sum: nat -> nat, eq: (nat, nat) -> bool,
                                bits: nat) {
    && |buckets| == Pow2(bits) && KeyFunctions(sum, eq)
    && (forall i {:trigger BucketOk(buckets[i], m, sum, eq, bits, i)} :: 0 <= i < |buckets| ==>
        BucketOk(buckets[i], m, sum, eq, bits, i))
    && forall k {:trigger KeyOk(buckets, m, sum, bits, k)} :: k in m ==> KeyOk(buckets, m, sum, bits, k)
  }

  /** No two keys of the map are equal to the user. */
  lemma KeysDiffer<V>(buckets: seq<Bucket<V>>, m: map<nat, V>, sum: nat -> nat, eq: (nat, nat) -> bool, bits: nat,
                      k: nat, l: nat)
    requires Represents(buckets, m, sum, eq, bits) && k in m && l in m && eq(k, l)
    ensures k == l
  {
    assert KeyOk(buckets, m, sum, bits, k) && KeyOk(buckets, m, sum, bits, l);
    var i := LowBits(sum(k), bits);
    assert sum(k) == sum(l);
    assert BucketOk(buckets[i], m, sum, eq, bits, i);
    var ps := Pairs(buckets[i]);
    var j :| 0 <= j < |ps| && ps[j] == Pair(k, m[k]);
    var n :| 0 <= n < |ps| && ps[n] == Pair(l, m[l]);
    assert eq(l, k);
  }

  /** A key equal to the given one is looked for in one bucket only. */
  lemma InItsBucket<V>(buckets: seq<Bucket<V>>, m: map<nat, V>, sum: nat -> nat, eq: (nat, nat) -> bool, bits: nat,
                       key: nat)
    requires Represents(buckets, m, sum, eq, bits)
    ensures forall k :: k in m && eq(k, key) ==> Pair(k, m[k]) in Pairs(buckets[LowBits(sum(key), bits)])
  {
    forall k | k in m && eq(k, key) ensures Pair(k, m[k]) in Pairs(buckets[LowBits(sum(key), bits)]) {
      assert KeyOk(buckets, m, sum, bits, k);
    }
  }

  // ---------- Changing one bucket ----------

  /** Storing a value for a key the map has. */
  lemma Replaced<V>(buckets: seq<Bucket<V>>, m: map<nat, V>, sum: nat -> nat, eq: (nat, nat) -> bool, bits: nat, i: nat,
                    j: nat, v: V, b: Bucket<V>)
    requires Represents(buckets, m, sum, eq, bits) && i < |buckets| && j < |Pairs(buckets[i])|
    requires b.Direct? == buckets[i].Direct? && Pairs(b) == Pairs(buckets[i])[j := Pair(Pairs(buckets[i])[j].key, v)]
    ensures Pairs(buckets[i])[j].key in m &&
            Represents(buckets[i := b], m[Pairs(buckets[i])[j].key := v], sum, eq, bits)
  {
    var ps := Pairs(buckets[i]);
    var k0 := ps[j].key;
    assert BucketOk(buckets[i], m, sum, eq, bits, i);
    assert PairOk(ps[j], m, sum, bits, i);
    var m', bs := m[k0 := v], buckets[i := b];
    assert eq(k0, k0);
    forall n | 0 <= n < |bs| ensures BucketOk(bs[n], m', sum, eq, bits, n) {
      assert BucketOk(buckets[n], m, sum, eq, bits, n);
      forall t | 0 <= t < |Pairs(bs[n])| ensures PairOk(Pairs(bs[n])[t], m', sum, bits, n) {
        assert PairOk(Pairs(buckets[n])[t], m, sum, bits, n);
        if Pairs(buckets[n])[t].key == k0 && n == i && t != j {
          assert false;
        }
      }
    }
    forall k | k in m' ensures KeyOk(bs, m', sum, bits, k) {
      assert KeyOk(buckets, m, sum, bits, k);
      var n := LowBits(sum(k), bits);
      var t :| 0 <= t < |Pairs(buckets[n])| && Pairs(buckets[n])[t] == Pair(k, m[k]);
      if k == k0 {
        assert bs[i] == b && Pairs(b)[j] == Pair(k0, v);
      } else if n == i {
        assert Pairs(b)[t] == Pair(k, m[k]);
      }
    }
  }

  /** Adding a key that is not equal to any of the map. */
  lemma Added<V>(buckets: seq<Bucket<V>>, m: map<nat, V>, sum: nat -> nat, eq: (nat, nat) -> bool, bits: nat, key: nat,
                 v: V, b: Bucket<V>)
    requires Represents(buckets, m, sum, eq, bits) && forall k :: k in m ==> !eq(k, key)
    requires Pairs(b) == Pairs(buckets[LowBits(sum(key), bits)]) + [Pair(key, v)] && (b.Direct? <==> |Pairs(b)| == 1)
    ensures Represents(buckets[LowBits(sum(key), bits) := b], m[key := v], sum, eq, bits) && key !in m
  {
    var i := LowBits(sum(key), bits);
    var m', bs := m[key := v], buckets[i := b];
    assert eq(key, key);
    forall n | 0 <= n < |bs| ensures BucketOk(bs[n], m', sum, eq, bits, n) {
      assert BucketOk(buckets[n], m, sum, eq, bits, n);
      forall t | 0 <= t < |Pairs(bs[n])| ensures PairOk(Pairs(bs[n])[t], m', sum, bits, n) {
        if t < |Pairs(buckets[n])| {
          assert PairOk(Pairs(buckets[n])[t], m, sum, bits, n);
        }
      }
      if n == i {
        forall t | 0 <= t < |Pairs(buckets[n])| ensures !eq(Pairs(buckets[n])[t].key, key) {
          assert PairOk(Pairs(buckets[n])[t], m, sum, bits, n);
        }
      }
    }
    forall k | k in m' ensures KeyOk(bs, m', sum, bits, k) {
      if k != key {
        assert KeyOk(buckets, m, sum, bits, k);
      } else {
        assert Pair(key, v) in Pairs(b);
      }
    }
  }

  /** Taking a pair out of its bucket; the others may change places. */
  lemma Removed<V>(buckets: seq<Bucket<V>>, m: map<nat, V>, sum: nat -> nat, eq: (nat, nat) -> bool, bits: nat, i: nat,
                   j: nat, b: Bucket<V>)
    requires Represents(buckets, m, sum, eq, bits) && i < |buckets| && j < |Pairs(buckets[i])|
    requires b.Indirect? ==> |b.pairs| != 1
    requires Pairs(b) == WithLast(Pairs(buckets[i]), j)
    ensures Pairs(buckets[i])[j].key in m && Represents(buckets[i := b], m - {Pairs(buckets[i])[j].key}, sum, eq, bits)
  {
    var ps := Pairs(buckets[i]);
    var k0 := ps[j].key;
    assert BucketOk(buckets[i], m, sum, eq, bits, i);
    assert PairOk(ps[j], m, sum, bits, i);
    var m', bs := m - {k0}, buckets[i := b];
    assert eq(k0, k0);
    forall n | 0 <= n < |bs| ensures BucketOk(bs[n], m', sum, eq, bits, n) {
      assert BucketOk(buckets[n], m, sum, eq, bits, n);
      forall t | 0 <= t < |Pairs(bs[n])| ensures PairOk(Pairs(bs[n])[t], m', sum, bits, n) {
        var o := if n == i && t == j then |ps| - 1 else t;
        assert PairOk(Pairs(buckets[n])[o], m, sum, bits, n) && Pairs(bs[n])[t] == Pairs(buckets[n])[o];
        if Pairs(buckets[n])[o].key == k0 {
          assert false;
        }
      }
      if n == i {
        forall t, u | 0 <= t < u < |Pairs(b)| ensures !eq(Pairs(b)[t].key, Pairs(b)[u].key) {
          if t == j {
            assert !eq(ps[u].key, ps[|ps| - 1].key);
          }
        }
      }
    }
    forall k | k in m' ensures KeyOk(bs, m', sum, bits, k) {
      assert KeyOk(buckets, m, sum, bits, k);
      var n := LowBits(sum(k), bits);
      if n == i {
        var t :| 0 <= t < |ps| && ps[t] == Pair(k, m[k]);
        assert Pairs(b)[if t == |ps| - 1 then j else t] == Pair(k, m[k]);
      }
    }
  }

  /** The j-th element gives way to the last one, and the sequence is one shorter. */
  function WithLast<T>(s: seq<T>, j: nat): seq<T>
    requires j < |s|
  {
    s[j := s[|s| - 1]][..|s| - 1]
  }

  // ---------- All pairs ----------

  /** One of the pairs is the one the map has for k. */
  ghost predicate Listed<V>(ps: seq<Pair<V>>, m: map<nat, V>, k: nat) {
    k in m && exists t :: 0 <= t < |ps| && ps[t] == Pair(k, m[k])
  }

  ghost predicate FromMap<V>(ps: seq<Pair<V>>, m: map<nat, V>) {
    && (forall t :: 0 <= t < |ps| ==> ps[t].key in m && m[ps[t].key] == ps[t].value)
    && (forall t, u :: 0 <= t < u < |ps| ==> ps[t].key != ps[u].key)
  }

  /** The pairs of the first n buckets: keys of those buckets, no two equal, each with its value. */
  lemma {:induction false} PairsFacts<V>(buckets: seq<Bucket<V>>, m: map<nat, V>, sum: nat -> nat,
                                         eq: (nat, nat) -> bool, bits: nat, n: nat)
    requires Represents(buckets, m, sum, eq, bits) && n <= |buckets|
    ensures FromMap(PairsUpTo(buckets, n), m)
    ensures forall t :: 0 <= t < |PairsUpTo(buckets, n)| ==> LowBits(sum(PairsUpTo(buckets, n)[t].key), bits) < n
  {
    if n > 0 {
      PairsFacts(buckets, m, sum, eq, bits, n - 1);
      var earlier, here := PairsUpTo(buckets, n - 1), Pairs(buckets[n - 1]);
      assert BucketOk(buckets[n - 1], m, sum, eq, bits, n - 1);
      var ps := PairsUpTo(buckets, n);
      assert ps == earlier + here;
      forall t | 0 <= t < |here| ensures here[t].key in m && m[here[t].key] == here[t].value &&
          LowBits(sum(here[t].key), bits) == n - 1 {
        assert PairOk(here[t], m, sum, bits, n - 1);
      }
      forall t, u | 0 <= t < u < |ps| ensures ps[t].key != ps[u].key {
        if t >= |earlier| {
          assert eq(here[t - |earlier|].key, here[t - |earlier|].key);
          assert !eq(here[t - |earlier|].key, here[u - |earlier|].key);
        }
      }
    }
  }

  /** Every key of those buckets is met. */
  lemma {:induction false} PairsComplete<V>(buckets: seq<Bucket<V>>, m: map<nat, V>, sum: nat -> nat,
                                            eq: (nat, nat) -> bool, bits: nat, n: nat, k: nat)
    requires Represents(buckets, m, sum, eq, bits) && n <= |buckets| && k in m && LowBits(sum(k), bits) < n
    ensures Listed(PairsUpTo(buckets, n), m, k)
  {
    var earlier, here := PairsUpTo(buckets, n - 1), Pairs(buckets[n - 1]);
    var ps := PairsUpTo(buckets, n);
    if LowBits(sum(k), bits) < n - 1 {
      PairsComplete(buckets, m, sum, eq, bits, n - 1, k);
      var t :| 0 <= t < |earlier| && earlier[t] == Pair(k, m[k]);
      assert ps[t] == Pair(k, m[k]);
    } else {
      assert KeyOk(buckets, m, sum, bits, k);
      var t :| 0 <= t < |here| && here[t] == Pair(k, m[k]);
      assert ps[|earlier| + t] == Pair(k, m[k]);
    }
  }

  /** Going through all buckets meets every pair of the map exactly once. */
  lemma EachPairOnce<V>(buckets: seq<Bucket<V>>, m: map<nat, V>, sum: nat -> nat, eq: (nat, nat) -> bool, bits: nat)
    requires Represents(buckets, m, sum, eq, bits)
    ensures FromMap(PairsUpTo(buckets, |buckets|), m) && |PairsUpTo(buckets, |buckets|)| == |m|
    ensures forall k :: k in m ==> Listed(PairsUpTo(buckets, |buckets|), m, k)
  {
    PairsFacts(buckets, m, sum, eq, bits, |buckets|);
    var ps := PairsUpTo(buckets, |buckets|);
    forall k | k in m ensures Listed(ps, m, k) {
      PairsComplete(buckets, m, sum, eq, bits, |buckets|, k);
    }
    KeysCounted(ps, m);
  }

  lemma OneKeyLess<V>(ps: seq<Pair<V>>, m: map<nat, V>, n: nat, m': map<nat, V>)
    requires FromMap(ps, m) && (forall k :: k in m ==> Listed(ps, m, k)) && n + 1 == |ps| && m' == m - {ps[n].key}
    ensures FromMap(ps[..n], m') && forall k :: k in m' ==> Listed(ps[..n], m', k)
  {
    forall k | k in m' ensures Listed(ps[..n], m', k) {
      assert Listed(ps, m, k);
      var t :| 0 <= t < |ps| && ps[t] == Pair(k, m[k]);
      assert ps[..n][t] == Pair(k, m'[k]);
    }
  }

  lemma {:induction false} KeysCounted<V>(ps: seq<Pair<V>>, m: map<nat, V>)
    requires FromMap(ps, m) && forall k :: k in m ==> Listed(ps, m, k)
    ensures |ps| == |m|
  {
    if ps == [] {
      assert m == map[] by {
        forall k ensures k !in m {
          assert k in m ==> Listed(ps, m, k);
        }
      }
    } else {
      var n := |ps| - 1;
      var m' := m - {ps[n].key};
      OneKeyLess(ps, m, n, m');
      KeysCounted(ps[..n], m');
      Larger(m', ps[n].key, ps[n].value);
      assert m'[ps[n].key := ps[n].value] == m;
    }
  }

  /** Where hash_next stands: bucket i, pair j of it; and the flags it has saved. */
  datatype Iterator = Iterator(i: nat, j: nat, grow: bool, shrink: bool)

  ghost predicate IteratorOk<V>(buckets: seq<Bucket<V>>, it: Iterator) {
    it.i <= |buckets| && (if it.i < |buckets| &&
        buckets[it.i].Indirect? then it.j <= |buckets[it.i].pairs| else it.j == 0)
  }

  /** How many pairs come before. */
  ghost function Met<V>(buckets: seq<Bucket<V>>, it: Iterator): nat
    requires it.i <= |buckets|
  {
    |PairsUpTo(buckets, it.i)| + it.j
  }

  lemma {:induction false} PairAt<V>(buckets: seq<Bucket<V>>, i: nat, j: nat, n: nat)
    requires i < n <= |buckets| && j < |Pairs(buckets[i])|
    ensures |PairsUpTo(buckets, i)| + j < |PairsUpTo(buckets, n)|
    ensures PairsUpTo(buckets, n)[|PairsUpTo(buckets, i)| + j] == Pairs(buckets[i])[j]
  {
    var earlier, here := PairsUpTo(buckets, n - 1), Pairs(buckets[n - 1]);
    var k := |PairsUpTo(buckets, i)| + j;
    assert PairsUpTo(buckets, n) == earlier + here;
    if i < n - 1 {
      PairAt(buckets, i, j, n - 1);
      assert (earlier + here)[k] == earlier[k];
    } else {
      assert (earlier + here)[k] == here[j];
    }
  }

  lemma {:induction false} NoneAfter<V>(buckets: seq<Bucket<V>>, it: Iterator)
    requires IteratorOk(buckets, it) && it.i == |buckets|
    ensures Met(buckets, it) == |PairsUpTo(buckets, |buckets|)|
  {
  }

  /** How far a table of this length is from having room for so many pairs. */
  function Lacking(pairs: nat, length: nat): nat {
    if 4 * (pairs + 1) > 3 * length then 4 * (pairs + 1) - 3 * length else 0
  }

  /** The length of a new table: of the powers of two, the least that is at least the size, and 64. */
  predicate LengthFor(size: nat, length: nat) {
    var least := if size < 64 then 64 else size;
    least <= length < 2 * least
  }

  /** With one more pair, three quarters of a table would not be full. */
  predicate Roomy(pairs: nat, length: nat) {
    4 * (pairs + 1) <= 3 * length
  }

  /** A table has grown only if half of it would have been too little. */
  predicate Needed(pairs: nat, length: nat) {
    8 * (pairs + 1) > 3 * length
  }

  /** The length of a table that was made for a size and has so many pairs by now. */
  predicate Sized(size: nat, grow: bool, pairs: nat, length: nat) {
    && length >= size && (grow ==> Roomy(pairs, length))
    && (LengthFor(size, length) || Needed(pairs, length))
  }

  lemma AtLeast64(k: nat)
    requires k >= 6
    ensures Pow2(k) >= 64
  {
    assert Pow2(6) == 64;
    Pow2Mono(6, k);
  }

  lemma MoreThan64(k: nat)
    requires Pow2(k) > 64
    ensures k > 6 && Pow2(k) == 2 * Pow2(k - 1)
  {
    assert Pow2(6) == 64;
    if k <= 6 {
      Pow2Mono(k, 6);
    }
  }

  lemma SamePower(j: nat, k: nat)
    requires Pow2(k) <= Pow2(j) < 2 * Pow2(k)
    ensures j == k
  {
    if j < k {
      Doubles(j, k);
    } else if k < j {
      Doubles(k, j);
    }
  }

  lemma Doubles(j: nat, k: nat)
    requires j < k
    ensures 2 * Pow2(j) <= Pow2(k)
  {
    Pow2Mono(j + 1, k);
  }

  /** The map holds exactly the first n pairs. */
  ghost predicate HoldsFirst<V>(m: map<nat, V>, ps: seq<Pair<V>>, n: nat)
    requires n <= |ps|
  {
    |m| == n && forall o {:trigger Open(o)} :: Open(o) ==>
      && (forall k {:trigger k in m} :: k in m ==> exists t :: 0 <= t < n && ps[t].key == k)
      && (forall t {:trigger ps[t]} :: 0 <= t < n ==> ps[t].key in m && m[ps[t].key] == ps[t].value)
  }

  lemma HoldsNone<V>(ps: seq<Pair<V>>)
    ensures HoldsFirst(map[], ps, 0)
  {
  }

  lemma HoldsAll<V>(m: map<nat, V>, ps: seq<Pair<V>>, m0: map<nat, V>)
    requires HoldsFirst(m, ps, |ps|) && FromMap(ps, m0) && forall k :: k in m0 ==> Listed(ps, m0, k)
    ensures m == m0
  {
    assert Open(0);
    forall k ensures k in m <==> k in m0 {
      assert k in m0 ==> Listed(ps, m0, k);
    }
  }

  // ---------- Operations ----------

  /** What a lookup finds and does, on the map: k is the key stored that equals the given one. */
  ghost predicate Looked<V>(m: map<nat, V>, m': map<nat, V>, eq: (nat, nat) -> bool, key: nat, op: Opcode, v: V,
                            old_: Option<V>) {
    match old_
    case None =>
      (forall k :: k in m ==> !eq(k, key)) && m' == if op == Set then m[key := v] else m
    case Some(was) =>
      exists k :: k in m && eq(k, key) && was == m[k] &&
          m' == (if op == Set then m[k := v] else if op == Unset then m - {k} else m)
  }

  class HashTable<V(0)> {
    const sum: nat -> nat
    const eq: (nat, nat) -> bool
    var buckets: seq<Bucket<V>>
    var elts: nat
    var autoGrow: bool
    var autoShrink: bool
    ghost var m: map<nat, V>
    ghost var bits: nat

    ghost predicate Valid()
      reads this`buckets, this`elts, this`m, this`bits
    {
      Represents(buckets, m, sum, eq, bits) && elts == |m| && bits >= 6
    }

    /** _hash_create: room for at least 64 pairs, and a power of two. */
    constructor (size: nat, keySum: nat -> nat, keyEqual: (nat, nat) -> bool, grow: bool, shrink: bool)
      requires KeyFunctions(keySum, keyEqual)
      ensures Valid() && fresh(this) && m == map[] && sum == keySum && eq == keyEqual && autoGrow == grow &&
              autoShrink == shrink
      ensures LengthFor(size, |buckets|)
    {
      var n := if size < 64 then 64 else size;
      sum, eq, autoGrow, autoShrink := keySum, keyEqual, grow, shrink;
      buckets := seq(Pow2(MaxLog2(n)), _ => Indirect([]));
      elts := 0;
      m, bits := map[], MaxLog2(n);
      MaxLog2Below(n, MaxLog2(n));
      assert Pow2(5) == 32;
      MaxLog2Least(n, 5);
    }

    /** get_indirect. */
    method GetIndirect(pairs: seq<Pair<V>>, key: nat) returns (j: nat)
      ensures j <= |pairs| && (j < |pairs| ==> eq(pairs[j].key, key))
      ensures forall k :: 0 <= k < j ==> !eq(pairs[k].key, key)
    {
      j := 0;
      while j < |pairs|
        invariant j <= |pairs| && forall k :: 0 <= k < j ==> !eq(pairs[k].key, key)
      {
        if eq(pairs[j].key, key) {
          return;
        }
        j := j + 1;
      }
    }

    /** unset_indirect: a bucket left with one pair holds it directly. */
    method UnsetIndirect(i: nat, j: nat)
      requires i < |buckets| && buckets[i].Indirect? && j < |buckets[i].pairs|
      modifies this`buckets
      ensures |buckets| == |old(buckets)| && (buckets[i].Indirect? ==> |buckets[i].pairs| != 1)
      ensures buckets == old(buckets)[i := buckets[i]] && Pairs(buckets[i]) == WithLast(old(buckets)[i].pairs, j)
    {
      var ps := buckets[i].pairs;
      var n := |ps|;
      if n <= 2 {
        if n == 2 {
          buckets := buckets[i := Direct(if j == 0 then ps[1] else ps[0])];
        } else {
          buckets := buckets[i := Indirect([])];
        }
      } else {
        if j < n - 1 {
          ps := ps[j := ps[n - 1]];
        }
        buckets := buckets[i := Indirect(ps[..n - 1])];
      }
    }

    /** Store a value for the j-th pair of a bucket. */
    method Store(i: nat, j: nat, v: V, b: Bucket<V>)
      requires Represents(buckets, m, sum, eq, bits) && i < |buckets| && j < |Pairs(buckets[i])|
      requires b.Direct? == buckets[i].Direct? && Pairs(b) == Pairs(buckets[i])[j := Pair(Pairs(buckets[i])[j].key, v)]
      modifies this`buckets, this`m
      ensures Represents(buckets, m, sum, eq, bits) && m == old(m)[old(Pairs(buckets[i])[j].key) := v]
    {
      Replaced(buckets, m, sum, eq, bits, i, j, v, b);
      m := m[Pairs(buckets[i])[j].key := v];
      buckets := buckets[i := b];
    }

    /** Add a pair for a key that is not there. */
    method Add(i: nat, key: nat, v: V, b: Bucket<V>)
      requires Represents(buckets, m, sum, eq, bits) && i == LowBits(sum(key), bits) && forall k :: k in m ==>
               !eq(k, key)
      requires Pairs(b) == Pairs(buckets[i]) + [Pair(key, v)] && (b.Direct? <==> |Pairs(b)| == 1)
      modifies this`buckets, this`m
      ensures Represents(buckets, m, sum, eq, bits) && m == old(m)[key := v]
    {
      Added(buckets, m, sum, eq, bits, key, v, b);
      m := m[key := v];
      buckets := buckets[i := b];
    }

    /** lookup, for a bucket that holds one pair directly. */
    method LookupDirect(i: nat, key: nat, op: Opcode, v: V) returns (old_: Option<V>)
      requires Valid() && i == LowBits(sum(key), bits) && buckets[i].Direct?
      modifies this`buckets, this`m
      ensures Represents(buckets, m, sum, eq, bits) && Looked(old(m), m, eq, key, op, v, old_)
    {
      var p := buckets[i].pair;
      assert Pairs(buckets[i])[0] == p;
      Home(i, key);
      if eq(p.key, key) {
        old_ := Some(p.value);
        if op == Unset {
          Removed(buckets, m, sum, eq, bits, i, 0, Indirect([]));
          buckets := buckets[i := Indirect([])];
          m := m - {p.key};
        } else if op == Set {
          Store(i, 0, v, Direct(Pair(p.key, v)));
        }
      } else {
        old_ := None;
        NotFound(i, key);
        if op == Set {
          Add(i, key, v, Indirect([p, Pair(key, v)]));
        }
      }
    }

    /** lookup, for any other bucket. */
    method LookupIndirect(i: nat, key: nat, op: Opcode, v: V) returns (old_: Option<V>)
      requires Valid() && i == LowBits(sum(key), bits) && buckets[i].Indirect?
      modifies this`buckets, this`m
      ensures Represents(buckets, m, sum, eq, bits) && Looked(old(m), m, eq, key, op, v, old_)
    {
      var ps := buckets[i].pairs;
      Home(i, key);
      if op == Set && ps == [] {
        NotFound(i, key);
        Add(i, key, v, Direct(Pair(key, v)));
        return None;
      }
      var j := GetIndirect(ps, key);
      if j < |ps| {
        assert Pairs(buckets[i])[j] == ps[j];
        old_ := Some(ps[j].value);
        if op == Unset {
          UnsetIndirect(i, j);
          Removed(old(buckets), m, sum, eq, bits, i, j, buckets[i]);
          m := m - {ps[j].key};
        } else if op == Set {
          Store(i, j, v, Indirect(ps[j := Pair(ps[j].key, v)]));
        }
      } else {
        old_ := None;
        NotFound(i, key);
        if op == Set {
          Add(i, key, v, Indirect(ps + [Pair(key, v)]));
        }
      }
    }

    lemma NotFound(i: nat, key: nat)
      requires Represents(buckets, m, sum, eq, bits) && i == LowBits(sum(key), bits)
      requires forall j :: 0 <= j < |Pairs(buckets[i])| ==> !eq(Pairs(buckets[i])[j].key, key)
      ensures forall k :: k in m ==> !eq(k, key)
    {
      InItsBucket(buckets, m, sum, eq, bits, key);
    }

    /** All keys of the map that equal the given one are in its bucket. */
    lemma Home(i: nat, key: nat)
      requires Represents(buckets, m, sum, eq, bits) && i == LowBits(sum(key), bits)
      ensures forall k :: k in m && eq(k, key) ==> Pair(k, m[k]) in Pairs(buckets[i])
      ensures forall j :: 0 <= j < |Pairs(buckets[i])| ==>
              Pairs(buckets[i])[j].key in m && m[Pairs(buckets[i])[j].key] == Pairs(buckets[i])[j].value
      ensures buckets[i].Indirect? ==> |buckets[i].pairs| != 1
    {
      InItsBucket(buckets, m, sum, eq, bits, key);
      assert BucketOk(buckets[i], m, sum, eq, bits, i);
      forall j | 0 <= j < |Pairs(buckets[i])|
        ensures Pairs(buckets[i])[j].key in m && m[Pairs(buckets[i])[j].key] == Pairs(buckets[i])[j].value
      {
        assert PairOk(Pairs(buckets[i])[j], m, sum, bits, i);
      }
    }

    /** lookup, with the count of pairs kept up. */
    method Lookup(key: nat, op: Opcode, v: V) returns (old_: Option<V>)
      requires Valid()
      modifies this`buckets, this`m, this`elts
      ensures Valid() && Looked(old(m), m, eq, key, op, v, old_) && |buckets| == |old(buckets)|
    {
      PowerLog(bits);
      var i := LowBits(sum(key), MaxLog2(|buckets|));
      if buckets[i].Direct? {
        old_ := LookupDirect(i, key, op, v);
      } else {
        old_ := LookupIndirect(i, key, op, v);
      }
      Counted(old(m), key, op, v, old_);
      if op == Set && old_ == None {
        elts := elts + 1;
      }
      if op == Unset && old_ != None {
        elts := elts - 1;
      }
    }

    lemma Counted(was: map<nat, V>, key: nat, op: Opcode, v: V, old_: Option<V>)
      requires Looked(was, m, eq, key, op, v, old_) && eq(key, key)
      ensures |m| == |was| + (if op == Set && old_ == None then 1 else 0) - (if op == Unset &&
              old_ != None then 1 else 0)
    {
      match old_
      case None =>
        if op == Set {
          Larger(was, key, v);
        }
      case Some(w) =>
        var k :| k in was && eq(k, key) && w == was[k] &&
            m == (if op == Set then was[k := v] else if op == Unset then was - {k} else was);
        SameSize(was, k, v);
    }

    /** _hash_get. */
    method Find(key: nat) returns (v: Option<V>)
      requires Valid()
      modifies this`buckets, this`m, this`elts
      ensures Valid() && m == old(m) && |buckets| == |old(buckets)|
      ensures v == None <==> forall k :: k in m ==> !eq(k, key)
      ensures v.Some? ==> exists k :: k in m && eq(k, key) && m[k] == v.value
    {
      if elts == 0 {
        return None;
      }
      var unused: V := *;
      v := Lookup(key, Get, unused);
    }

    /** _hash_set3: set, and double the size when three quarters are full. */
    method Set3(key: nat, v: V) returns (old_: Option<V>)
      requires Valid()
      modifies this
      ensures Valid() && Looked(old(m), m, eq, key, Set, v, old_)
      ensures autoGrow ==> Roomy(|m|, |buckets|)
      ensures |buckets| == |old(buckets)| ||
              (autoGrow && |buckets| >= 2 * |old(buckets)| && Needed(|m|, |buckets|))
      ensures autoGrow == old(autoGrow) && autoShrink == old(autoShrink)
      decreases Lacking(elts + 1, |buckets|), 1
    {
      old_ := Lookup(key, Set, v);
      Grow();
    }

    /** The second half of _hash_set3. */
    method Grow()
      requires Valid()
      modifies this
      ensures Valid() && m == old(m) && autoGrow == old(autoGrow) && autoShrink == old(autoShrink)
      ensures autoGrow ==> Roomy(|m|, |buckets|)
      ensures |buckets| == |old(buckets)| ||
              (autoGrow && |buckets| >= 2 * |old(buckets)| && Needed(|m|, |buckets|))
      decreases Lacking(elts, |buckets|), 0
    {
      if autoGrow && 4 * (elts + 1) > 3 * |buckets| {
        ghost var k := bits + 1;
        Resize(2 * |buckets|);
        LengthIs(k);
      }
    }

    /** hash_resize: a new table takes the place of the old. */
    method Resize(size: nat)
      requires Valid() && size > 0
      modifies this
      ensures Valid() && m == old(m) && Sized(size, autoGrow, |m|, |buckets|)
      ensures autoGrow == old(autoGrow) && autoShrink == old(autoShrink)
      decreases Lacking(elts, size), 4
    {
      var h := ResizeInternal(size);
      buckets, elts, bits, m := h.buckets, h.elts, h.bits, h.m;
    }

    /** A table made for 2^k has this length, unless it has grown. */
    lemma LengthIs(k: nat)
      requires Valid() && k >= 6 && Sized(Pow2(k), autoGrow, |m|, |buckets|)
      ensures |buckets| == Pow2(k) || (|buckets| >= 2 * Pow2(k) && Needed(|m|, |buckets|))
    {
      AtLeast64(k);
      if |buckets| < 2 * Pow2(k) {
        SamePower(bits, k);
      }
    }

    /** hash_resize_internal: a new table with the same pairs. */
    method ResizeInternal(size: nat) returns (h: HashTable<V>)
      requires Valid() && size > 0
      ensures h.Valid() && fresh(h) && h.m == m && h.sum == sum && h.eq == eq
      ensures Sized(size, autoGrow, |m|, |h.buckets|)
      ensures h.autoGrow == autoGrow && h.autoShrink == autoShrink
      decreases Lacking(elts, size), 3
    {
      h := new HashTable(size, sum, eq, autoGrow, autoShrink);
      EachPairOnce(buckets, m, sum, eq, bits);
      var ps := AllPairs();
      HoldsNone(ps);
      var n := 0;
      while n < |ps|
        invariant n <= |ps| && h.Valid() && fresh(h) && h.sum == sum && h.eq == eq
        invariant Sized(size, autoGrow, n, |h.buckets|)
        invariant HoldsFirst(h.m, ps, n) && h.autoGrow == autoGrow && h.autoShrink == autoShrink
      {
        CopyOne(h, ps, n, size);
        n := n + 1;
      }
      HoldsAll(h.m, ps, m);
    }

    /** The body of that loop. */
    method CopyOne(h: HashTable<V>, ps: seq<Pair<V>>, n: nat, ghost size: nat)
      requires h != this && Represents(buckets, m, sum, eq, bits) && FromMap(ps, m) && n < |ps|
      requires h.Valid() && h.sum == sum && h.eq == eq && HoldsFirst(h.m, ps, n)
      requires Sized(size, h.autoGrow, n, |h.buckets|)
      modifies h
      ensures h.Valid() && HoldsFirst(h.m, ps, n + 1) && Sized(size, h.autoGrow, n + 1, |h.buckets|)
      ensures |h.buckets| >= |old(h.buckets)|
      ensures h.autoGrow == old(h.autoGrow) && h.autoShrink == old(h.autoShrink)
      decreases Lacking(h.elts + 1, |h.buckets|), 2
    {
      NewKey(h.m, ps, n);
      var old_ := h.Set3(ps[n].key, ps[n].value);
      OnePairMore(old(h.m), h.m, ps, n, old_);
    }

    /** The pairs in the order of hash_foreach_pair. */
    method AllPairs() returns (ps: seq<Pair<V>>)
      ensures ps == PairsUpTo(buckets, |buckets|)
    {
      ps := [];
      var i := 0;
      while i < |buckets|
        invariant i <= |buckets| && ps == PairsUpTo(buckets, i)
      {
        ps := ps + (if buckets[i].Direct? then [buckets[i].pair] else buckets[i].pairs);
        i := i + 1;
      }
    }

    /** The next key of another table with the same keys is equal to none of those before. */
    lemma NewKey(was: map<nat, V>, ps: seq<Pair<V>>, n: nat)
      requires Represents(buckets, m, sum, eq, bits) && FromMap(ps, m) && n < |ps| && HoldsFirst(was, ps, n)
      ensures forall k :: k in was ==> !eq(k, ps[n].key)
    {
      assert Open(0);
      forall k | k in was ensures !eq(k, ps[n].key) {
        var t :| 0 <= t < n && ps[t].key == k;
        if eq(k, ps[n].key) {
          KeysDiffer(buckets, m, sum, eq, bits, k, ps[n].key);
        }
      }
    }

    lemma OnePairMore(was: map<nat, V>, is_: map<nat, V>, ps: seq<Pair<V>>, n: nat, old_: Option<V>)
      requires n < |ps| && HoldsFirst(was, ps, n) && Looked(was, is_, eq, ps[n].key, Set, ps[n].value, old_)
      requires (forall k :: k in was ==> !eq(k, ps[n].key)) && forall t, u :: 0 <= t < u < |ps| ==>
               ps[t].key != ps[u].key
      ensures HoldsFirst(is_, ps, n + 1)
    {
      assert Open(0);
      assert old_ == None && is_ == was[ps[n].key := ps[n].value];
      forall k | k in was ensures k != ps[n].key {
        var t :| 0 <= t < n && ps[t].key == k;
      }
      Larger(was, ps[n].key, ps[n].value);
      forall k | k in is_ ensures exists t :: 0 <= t < n + 1 && ps[t].key == k {
        if k in was {
          var t :| 0 <= t < n && ps[t].key == k;
        }
      }
    }

    /** _hash_unset: remove, and halve the size when less than a quarter is full. */
    method Remove(key: nat, unused: V) returns (old_: Option<V>)
      requires Valid()
      modifies this
      ensures Valid() && Looked(old(m), m, eq, key, Unset, unused, old_)
      ensures |buckets| == if autoShrink && |m| > 32 && 4 * (|m| + 1) < |old(buckets)| then |old(buckets)| / 2
              else |old(buckets)|
      ensures autoGrow == old(autoGrow) && autoShrink == old(autoShrink)
    {
      old_ := Lookup(key, Unset, unused);
      Shrink();
    }

    /** The second half of _hash_unset. */
    method Shrink()
      requires Valid()
      modifies this
      ensures Valid() && m == old(m) && autoGrow == old(autoGrow) && autoShrink == old(autoShrink)
      ensures |buckets| == if autoShrink && |m| > 32 && 4 * (|m| + 1) < |old(buckets)| then |old(buckets)| / 2
              else |old(buckets)|
    {
      if autoShrink {
        if elts > 32 && 4 * (elts + 1) < |buckets| {
          MoreThan64(bits);
          ghost var k: nat := bits - 1;
          Resize(|buckets| / 2);
          LengthIs(k);
        }
      }
    }

    /** hash_dup. */
    method Dup() returns (h: HashTable<V>)
      requires Valid()
      ensures h.Valid() && fresh(h) && h.m == m && h.sum == sum && h.eq == eq
    {
      LengthOk();
      h := ResizeInternal(|buckets|);
    }

    /** One round of the loop in hash_next: the pair it stands at, or on to the next bucket. */
    method Visit(it: Iterator) returns (p: Option<Pair<V>>, it': Iterator)
      requires IteratorOk(buckets, it) && it.i < |buckets|
      ensures IteratorOk(buckets, it') && it'.grow == it.grow && it'.shrink == it.shrink && it'.i + it'.j > 0
      ensures p.Some? ==>
                && Met(buckets, it') == Met(buckets, it) + 1 && Met(buckets, it) < |PairsUpTo(buckets, |buckets|)|
                && p.value == PairsUpTo(buckets, |buckets|)[Met(buckets, it)]
      ensures p == None ==> it'.i == it.i + 1 && Met(buckets, it') == Met(buckets, it)
    {
      if buckets[it.i].Direct? {
        PairAt(buckets, it.i, 0, |buckets|);
        return Some(buckets[it.i].pair), it.(i := it.i + 1);
      }
      var n := |buckets[it.i].pairs|;
      if it.j >= n {
        return None, it.(i := it.i + 1, j := 0);
      } else {
        PairAt(buckets, it.i, it.j, |buckets|);
        return Some(buckets[it.i].pairs[it.j]), it.(j := it.j + 1);
      }
    }

    /** hash_next: the pairs one after the other, in the order of PairsUpTo.  Until it has come to
        the end the table neither grows nor shrinks. */
    method Next(it: Iterator) returns (p: Option<Pair<V>>, it': Iterator)
      requires Valid() && IteratorOk(buckets, it)
      modifies this`autoGrow, this`autoShrink
      ensures IteratorOk(buckets, it') && (p == None <==> Met(buckets, it) >= |PairsUpTo(buckets, |buckets|)|)
      ensures p.Some? ==>
              Met(buckets, it') == Met(buckets, it) + 1 && p.value == PairsUpTo(buckets, |buckets|)[Met(buckets, it)]
      ensures p.Some? ==> Suspended(old(autoGrow), old(autoShrink), it, it')
      ensures p == None && it.i + it.j > 0 ==>
              it' == Iterator(0, 0, false, false) && autoGrow == it.grow && autoShrink == it.shrink
      ensures p == None && it.i + it.j == 0 ==> autoGrow == old(autoGrow) && autoShrink == old(autoShrink)
    {
      it' := it;
      while true
        invariant IteratorOk(buckets, it') && Met(buckets, it') == Met(buckets, it)
        invariant if it'.i + it'.j == 0 then it' == it && autoGrow == old(autoGrow) && autoShrink == old(autoShrink)
                  else Suspended(old(autoGrow), old(autoShrink), it, it')
        decreases |buckets| - it'.i
      {
        if it'.i == 0 && it'.j == 0 {
          it' := it'.(grow := autoGrow, shrink := autoShrink);
          autoGrow, autoShrink := false, false;
        } else if it'.i >= |buckets| {
          NoneAfter(buckets, it');
          autoGrow, autoShrink := it'.grow, it'.shrink;
          return None, Iterator(0, 0, false, false);
        }
        p, it' := Visit(it');
        if p.Some? {
          return;
        }
      }
    }

    /** The flags have been saved, now or before, and the table keeps its size. */
    ghost predicate Suspended(grow: bool, shrink: bool, it: Iterator, it': Iterator)
      reads this`autoGrow, this`autoShrink
    {
      if it.i + it.j == 0 then !autoGrow && !autoShrink && it'.grow == grow && it'.shrink == shrink
      else autoGrow == grow && autoShrink == shrink && it'.grow == it.grow && it'.shrink == it.shrink
    }

    lemma LengthOk()
      requires Valid()
      ensures |buckets| > 0
    {
    }
  }

  lemma Larger<V>(m: map<nat, V>, k: nat, v: V)
    requires k !in m
    ensures |m[k := v]| == |m| + 1
  {
    assert m[k := v].Keys == m.Keys + {k};
    assert |m[k := v]| == |m[k := v].Keys| && |m| == |m.Keys|;
  }

  lemma SameSize<V>(m: map<nat, V>, k: nat, v: V)
    requires k in m
    ensures |m[k := v]| == |m| == |m - {k}| + 1
  {
    var rest := m - {k};
    Larger(rest, k, m[k]);
    Larger(rest, k, v);
    assert rest[k := m[k]] == m;
    assert rest[k := v] == m[k := v];
  }

  lemma PowerLog(k: nat)
    ensures MaxLog2(Pow2(k)) == k
  {
    LogOf(Pow2(k), k);
  }

  lemma LogOf(x: nat, k: nat)
    requires x == Pow2(k)
    ensures MaxLog2(x) == k
  {
    MaxLog2Least(x, k);
    if k > 0 {
      MaxLog2Least(x, k - 1);
    }
  }
}
