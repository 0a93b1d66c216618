/** Perfect-hash construction of clib/phash.c: the key lists by b, the search for an
    augmenting path, its application with rollback, and the final lookup table.
 */
module Phash {
  import opened Words
  import Qsort

  /** The u32 value ~0. */
  const EMPTY: nat := 0xffff_ffff

  datatype Key = Key(key: nat, a: nat, b: nat)

  /** phash_tabq_t: how to change the b of queue entry parent so that it may use this hash. */
  datatype QueueElt = QueueElt(b: nat, parent: nat, newVal: nat, oldVal: nat)

  /** The b's whose val apply changes on its way from queue entry child to the root. */
  ghost function PathBs(tabq: seq<QueueElt>, child: nat): set<nat>
    requires child < |tabq| && forall q :: 0 < q <= child ==> tabq[q].parent < q
  {
    if child == 0 then {} else {tabq[tabq[child].parent].b} + PathBs(tabq, tabq[child].parent)
  }

  /** What stays fixed while one set of tables is filled: the keys, the key indices by b
      (tabb[b].keys) and the scramble table. */
  datatype KeyLists = KeyLists(keys: seq<Key>, lists: seq<seq<nat>>, scramble: seq<nat>)

  /** Each list holds the keys of its b and no other, and no two of them share an a. */
  ghost predicate KeyListsOk(l: KeyLists) {
    && |l.keys| < EMPTY && |l.lists| < EMPTY
    && (forall b, i {:trigger l.lists[b][i]} :: 0 <= b < |l.lists| && 0 <= i < |l.lists[b]| ==>
          l.lists[b][i] < |l.keys| && l.keys[l.lists[b][i]].b == b)
    && (forall b, i, j :: 0 <= b < |l.lists| && 0 <= i < j < |l.lists[b]| ==> l.lists[b][i] != l.lists[b][j])
    && (forall k :: 0 <= k < |l.keys| ==> l.keys[k].b < |l.lists| && k in l.lists[l.keys[k].b])
    && (forall k, m :: 0 <= k < m < |l.keys| && l.keys[k].b == l.keys[m].b ==> l.keys[k].a != l.keys[m].a)
  }

  type Layout = l: KeyLists | KeyListsOk(l) witness KeyLists([], [], [])

  function HashWith(l: Layout, k: nat, v: nat): nat
    requires k < |l.keys| && v < |l.scramble|
  {
    Xor(l.keys[k].a, l.scramble[v])
  }

  /** All keys of b hash below max when tab[b] is v. */
  ghost predicate Fits(l: Layout, b: nat, v: nat, max: nat) {
    && b < |l.lists| && v < |l.scramble|
    && forall k :: 0 <= k < |l.keys| && l.keys[k].b == b ==> HashWith(l, k, v) < max
  }

  /** With val v all keys of b go to empty places. */
  ghost predicate FreeVal(l: Layout, b: nat, v: nat, tabh: seq<nat>) {
    && b < |l.lists| && v < |l.scramble|
    && forall k :: 0 <= k < |l.keys| && l.keys[k].b == b ==>
         HashWith(l, k, v) < |tabh| && tabh[HashWith(l, k, v)] == EMPTY
  }

  /** With some vals of some b's, all of them in the table, there is a b left that no val sends to
      empty places only. */
  ghost predicate Blocked(l: Layout, hashMax: nat, vLimit: nat) {
    exists vals: seq<nat>, tabh: seq<nat>, mapped: set<nat>, b: nat ::
      BlockedAt(l, hashMax, vLimit, vals, tabh, mapped, b)
  }

  ghost predicate BlockedAt(l: Layout, hashMax: nat, vLimit: nat, vals: seq<nat>, tabh: seq<nat>, mapped: set<nat>,
                            b: nat)
  {
    && Vals(l, vals) && |tabh| == hashMax && Consistent(l, vals, tabh, mapped)
    && b < |l.lists| && b !in mapped && forall v :: 0 <= v < vLimit ==> !FreeVal(l, b, v, tabh)
  }

  ghost predicate Vals(l: Layout, vals: seq<nat>) {
    |vals| == |l.lists| && forall b :: 0 <= b < |vals| ==> vals[b] < |l.scramble|
  }

  /** The hash of key k under the current vals. */
  function Hash(l: Layout, k: nat, vals: seq<nat>): nat
    requires k < |l.keys| && l.keys[k].b < |vals| && vals[l.keys[k].b] < |l.scramble|
  {
    HashWith(l, k, vals[l.keys[k].b])
  }

  /** Every table entry is a key at its own hash, and its b is in the set. */
  ghost predicate EntriesOk(l: Layout, vals: seq<nat>, tabh: seq<nat>, bs: set<nat>)
    requires Vals(l, vals)
  {
    forall h :: 0 <= h < |tabh| && tabh[h] != EMPTY ==>
      tabh[h] < |l.keys| && l.keys[tabh[h]].b in bs && Hash(l, tabh[h], vals) == h
  }

  /** Every key of b is in the table at its hash. */
  ghost predicate Placed(l: Layout, b: nat, vals: seq<nat>, tabh: seq<nat>)
    requires Vals(l, vals)
  {
    forall k :: 0 <= k < |l.keys| && l.keys[k].b == b ==>
      Hash(l, k, vals) < |tabh| && tabh[Hash(l, k, vals)] == k
  }

  /** The table holds exactly the keys of the mapped b's, each at its hash. */
  ghost predicate Consistent(l: Layout, vals: seq<nat>, tabh: seq<nat>, mapped: set<nat>)
    requires Vals(l, vals)
  {
    && EntriesOk(l, vals, tabh, mapped)
    && forall b :: b in mapped ==> Placed(l, b, vals, tabh)
  }

  /** The table without the entries of b. */
  ghost predicate Erased(l: Layout, b: nat, vals: seq<nat>, before: seq<nat>, after: seq<nat>)
    requires Vals(l, vals)
  {
    && |after| == |before|
    && forall h :: 0 <= h < |after| ==>
         after[h] == if before[h] < |l.keys| && l.keys[before[h]].b == b &&
             Hash(l, before[h], vals) == h then EMPTY else before[h]
  }

  /** h is the hash of some key of b. */
  ghost predicate Target(l: Layout, b: nat, vals: seq<nat>, h: nat)
    requires Vals(l, vals)
  {
    exists k :: 0 <= k < |l.keys| && l.keys[k].b == b && Hash(l, k, vals) == h
  }

  /** Place h holds a key of b at its own hash. */
  ghost predicate HoldsOwn(l: Layout, b: nat, vals: seq<nat>, tabh: seq<nat>, h: nat)
    requires Vals(l, vals) && h < |tabh|
  {
    tabh[h] < |l.keys| && l.keys[tabh[h]].b == b && Hash(l, tabh[h], vals) == h
  }

  /** The keys of one b have different hashes, whatever tab[b] is. */
  lemma HashesDiffer(l: Layout, k: nat, m: nat, v: nat)
    requires k < |l.keys| && m < |l.keys| && k != m && l.keys[k].b == l.keys[m].b && v < |l.scramble|
    ensures HashWith(l, k, v) != HashWith(l, m, v)
  {
    if HashWith(l, k, v) == HashWith(l, m, v) {
      XorInjective(l.keys[k].a, l.keys[m].a, l.scramble[v]);
      assert false;
    }
  }

  /** Queue entry q was reached from the b of its parent, a mapped b or the root, by a val that
      keeps all keys of that b in range; it remembers the val that b had. */
  ghost predicate EltOk(l: Layout, tabq: seq<QueueElt>, max: nat, q: nat, vals0: seq<nat>, mapped: set<nat>)
    requires Vals(l, vals0) && 0 < q < |tabq| && tabq[q].parent < q
  {
    var parent := tabq[q].parent;
    && (parent > 0 ==> tabq[parent].b in mapped)
    && tabq[parent].b < |l.lists|
    && Fits(l, tabq[parent].b, tabq[q].newVal, max)
    && tabq[q].oldVal == vals0[tabq[parent].b]
  }

  /** The queue is a tree with entry 0 as its root. */
  ghost predicate QueueOk(l: Layout, tabq: seq<QueueElt>, max: nat, tail: nat, root: nat, vals0: seq<nat>,
                          mapped: set<nat>)
    requires Vals(l, vals0)
  {
    && 0 < tail <= |tabq| && tabq[0].b == root && root < |l.lists| && root !in mapped
    && (forall b :: b in mapped ==> b < |l.lists|)
    && (forall q :: 0 < q < tail ==> tabq[q].parent < q)
    && (forall q {:trigger EltOk(l, tabq, max, q, vals0, mapped)} :: 0 < q < tail ==>
        EltOk(l, tabq, max, q, vals0, mapped))
  }

  lemma {:induction false} PathFacts(l: Layout, tabq: seq<QueueElt>, max: nat, tail: nat, child: nat, root: nat,
                                     vals0: seq<nat>, mapped: set<nat>)
    requires Vals(l, vals0) && QueueOk(l, tabq, max, tail, root, vals0, mapped) && child < tail
    ensures PathBs(tabq, child) <= mapped + {root}
    ensures child > 0 ==> root in PathBs(tabq, child)
    decreases child
  {
    if child > 0 {
      assert EltOk(l, tabq, max, child, vals0, mapped);
      PathFacts(l, tabq, max, tail, tabq[child].parent, root, vals0, mapped);
    }
  }

  /** Midway through an application: the table is consistent, and only b's on the path have
      another val than before. */
  ghost predicate Applying(l: Layout, vals: seq<nat>, tabh: seq<nat>, path: set<nat>, bs: set<nat>, vals0: seq<nat>)
    requires Vals(l, vals) && Vals(l, vals0)
  {
    && Consistent(l, vals, tabh, bs)
    && (forall b :: b in path ==> b < |vals| && Fits(l, b, vals[b], |tabh|))
    && (forall b :: 0 <= b < |vals| && b !in path ==> vals[b] == vals0[b])
  }

  lemma StartsApplying(l: Layout, vals: seq<nat>, tabh: seq<nat>, path: set<nat>, root: nat, mapped: set<nat>)
    requires Vals(l, vals) && Consistent(l, vals, tabh, mapped) && path <= mapped + {root}
    requires root < |vals| && Fits(l, root, vals[root], |tabh|) && forall b :: b in mapped ==> b < |vals|
    ensures Applying(l, vals, tabh, path, mapped, vals)
  {
    forall b | b in path ensures b < |vals| && Fits(l, b, vals[b], |tabh|) {
      assert b in mapped ==> Placed(l, b, vals, tabh);
    }
  }

  /** Midway through a rollback: every b outside pending is back as it was. */
  ghost predicate RollingBack(l: Layout, vals: seq<nat>, tabh: seq<nat>, pending: set<nat>, root: nat, mapped: set<nat>,
                              vals0: seq<nat>)
    requires Vals(l, vals) && Vals(l, vals0)
  {
    && pending <= mapped + {root} && EntriesOk(l, vals, tabh, mapped + {root})
    && (forall b :: b in mapped ==> b < |vals|)
    && (forall b :: b in pending ==> b < |vals| && Fits(l, b, vals[b], |tabh|))
    && (forall b :: 0 <= b < |vals| && b !in pending ==> vals[b] == vals0[b])
    && (forall b :: b in mapped && b !in pending ==> Placed(l, b, vals, tabh))
    && (root !in pending ==> forall h :: 0 <= h < |tabh| && tabh[h] != EMPTY ==> l.keys[tabh[h]].b != root)
  }

  /** A table is determined by the vals and the set of mapped b's. */
  lemma ConsistentUnique(l: Layout, vals0: seq<nat>, t: seq<nat>, t': seq<nat>, mapped: set<nat>)
    requires Vals(l, vals0) && |t| == |t'|
    requires Consistent(l, vals0, t, mapped) && Consistent(l, vals0, t', mapped)
    ensures t == t'
  {
    forall h | 0 <= h < |t| ensures t[h] == t'[h] {
      assert t[h] != EMPTY ==> Placed(l, l.keys[t[h]].b, vals0, t');
      assert t'[h] != EMPTY ==> Placed(l, l.keys[t'[h]].b, vals0, t);
    }
  }

  /** With the entries of b gone its val can change and nothing else is disturbed. */
  /** If a place is taken even when the keys of b have been taken out, it was before. */
  lemma Clash(l: Layout, t: seq<nat>, t': seq<nat>, vals: seq<nat>, vals': seq<nat>, b: nat, v: nat)
    requires Vals(l, vals) && b < |vals| && v < |l.scramble| && vals' == vals[b := v] && Vals(l, vals')
    requires Erased(l, b, vals, t, t') && exists h :: 0 <= h < |t| && Target(l, b, vals', h) && t'[h] != EMPTY
    ensures !FreeVal(l, b, v, t)
  {
    var h :| 0 <= h < |t| && Target(l, b, vals', h) && t'[h] != EMPTY;
    var k :| 0 <= k < |l.keys| && l.keys[k].b == b && Hash(l, k, vals') == h;
    assert HashWith(l, k, v) == h;
  }

  lemma AfterErase(l: Layout, vals: seq<nat>, t: seq<nat>, t': seq<nat>, b: nat, v: nat, bs: set<nat>)
    requires Vals(l, vals) && b < |vals| && v < |l.scramble|
    requires EntriesOk(l, vals, t, bs) && Erased(l, b, vals, t, t')
    ensures Vals(l, vals[b := v]) && EntriesOk(l, vals[b := v], t', bs - {b})
    ensures forall c :: c in bs && c != b && Placed(l, c, vals, t) ==> Placed(l, c, vals[b := v], t')
  {
    var vals' := vals[b := v];
    forall c | c in bs && c != b && Placed(l, c, vals, t) ensures Placed(l, c, vals', t') {
      forall k | 0 <= k < |l.keys| && l.keys[k].b == c
        ensures Hash(l, k, vals') < |t'| && t'[Hash(l, k, vals')] == k
      {
        assert Hash(l, k, vals') == Hash(l, k, vals);
      }
    }
  }

  /** Filling free places with keys of b disturbs no other b. */
  lemma AfterEnter(l: Layout, vals: seq<nat>, t: seq<nat>, t': seq<nat>, b: nat, bs: set<nat>)
    requires Vals(l, vals) && |t'| == |t| && EntriesOk(l, vals, t, bs)
    requires forall h :: 0 <= h < |t| ==> t'[h] == t[h] || (t[h] == EMPTY && HoldsOwn(l, b, vals, t', h))
    ensures EntriesOk(l, vals, t', bs + {b})
    ensures forall c :: c in bs && Placed(l, c, vals, t) ==> Placed(l, c, vals, t')
  {
  }

  /** A b moved but perhaps not fully entered leaves a state the rollback can start from. */
  lemma AfterRemap(l: Layout, vals: seq<nat>, t: seq<nat>, b: nat, v: nat, t': seq<nat>,
                   path: set<nat>, root: nat, mapped: set<nat>, vals0: seq<nat>)
    requires Vals(l, vals) && Vals(l, vals0) && |t'| == |t| && b in path && b < |vals| && Fits(l, b, v, |t|)
    requires path <= mapped + {root} && root in path && forall c :: c in mapped ==> c < |vals|
    requires Applying(l, vals, t, path, mapped, vals0)
    requires EntriesOk(l, vals[b := v], t', mapped + {b})
    requires forall c :: c in mapped && c != b ==> Placed(l, c, vals[b := v], t')
    ensures Vals(l, vals[b := v])
    ensures RollingBack(l, vals[b := v], t', path, root, mapped, vals0)
    ensures Placed(l, b, vals[b := v], t') ==> Applying(l, vals[b := v], t', path, mapped + {b}, vals0)
  {
  }

  /** Putting b back where it was takes no place from a b that is already back. */
  lemma AfterRestore(l: Layout, vals: seq<nat>, t: seq<nat>, t': seq<nat>, b: nat, bs: set<nat>,
                     vals0: seq<nat>, t0: seq<nat>)
    requires Vals(l, vals) && Vals(l, vals0) && |t'| == |t| && EntriesOk(l, vals, t, bs)
    requires b < |vals| && vals[b] == vals0[b] && Placed(l, b, vals0, t0)
    requires forall h :: 0 <= h < |t| ==>
               if Target(l, b, vals, h) then HoldsOwn(l, b, vals, t', h) else t'[h] == t[h]
    ensures EntriesOk(l, vals, t', bs + {b})
    ensures forall c ::
              c in bs && c != b && c < |vals| && vals[c] == vals0[c] &&
              Placed(l, c, vals0, t0) && Placed(l, c, vals, t) ==>
              Placed(l, c, vals, t')
  {
    forall c | c in bs && c != b && c < |vals| && vals[c] == vals0[c] && Placed(l, c, vals0, t0) &&
        Placed(l, c, vals, t)
      ensures Placed(l, c, vals, t')
    {
      forall k | 0 <= k < |l.keys| && l.keys[k].b == c
        ensures Hash(l, k, vals) < |t'| && t'[Hash(l, k, vals)] == k
      {
        assert t0[Hash(l, k, vals0)] == k;
        assert !Target(l, b, vals, Hash(l, k, vals));
      }
    }
  }

  lemma QueueGrows(l: Layout, tabq: seq<QueueElt>, tabq': seq<QueueElt>, max: nat, tail: nat, root: nat, vals: seq<nat>,
                   mapped: set<nat>)
    requires Vals(l, vals) && QueueOk(l, tabq, max, tail, root, vals, mapped)
    requires tail < |tabq| == |tabq'| && tabq' == tabq[tail := tabq'[tail]]
    requires tabq'[tail].parent < tail && EltOk(l, tabq', max, tail, vals, mapped)
    ensures QueueOk(l, tabq', max, tail + 1, root, vals, mapped)
  {
    forall q | 0 < q < tail + 1 ensures EltOk(l, tabq', max, q, vals, mapped) {
      assert q < tail ==> EltOk(l, tabq, max, q, vals, mapped);
    }
  }

  lemma QueueShrinks(l: Layout, tabq: seq<QueueElt>, max: nat, tail: nat, root: nat, vals: seq<nat>, mapped: set<nat>)
    requires Vals(l, vals) && tail > 0 && QueueOk(l, tabq, max, tail + 1, root, vals, mapped)
    ensures QueueOk(l, tabq, max, tail, root, vals, mapped)
  {
  }

  lemma {:induction false} BoundedSet(s: set<nat>, n: nat)
    requires forall x :: x in s ==> x < n
    ensures |s| <= n
  {
    if n > 0 {
      BoundedSet(s - {n - 1}, n - 1);
    } else {
      assert s == {};
    }
  }

  class Tables {
    const layout: Layout
    var vals: seq<nat>             // tabb[b].val_b
    var water: seq<nat>            // tabb[b].water_b
    var tabh: seq<nat>
    var tabq: seq<QueueElt>
    const hashMax: nat
    const vLimit: nat              // 1 << (s_bits or 8)
    const fast: bool               // PHASH_FLAG_FAST_MODE
    const minimal: bool            // PHASH_FLAG_MINIMAL

    /** Tables as perfect finds them: val and water zero everywhere. */
    constructor (layout: Layout, hashMax: nat, vLimit: nat, fast: bool, minimal: bool)
      requires 0 < |layout.scramble| && vLimit <= |layout.scramble|
      ensures Valid() && this.layout == layout && this.hashMax == hashMax && this.vLimit == vLimit
      ensures forall b :: 0 <= b < |vals| ==> vals[b] == 0 && water[b] == 0
    {
      this.layout, this.hashMax, this.vLimit, this.fast, this.minimal := layout, hashMax, vLimit, fast, minimal;
      vals, water := seq(|layout.lists|, _ => 0), seq(|layout.lists|, _ => 0);
      tabh := seq(hashMax, _ => EMPTY);
      tabq := seq(|layout.lists| + 1, _ => QueueElt(0, 0, 0, 0));
    }

    ghost predicate Valid()
      reads this
    {
      && Vals(layout, vals)
      && |water| == |layout.lists| && |tabq| > |layout.lists|
      && |tabh| == hashMax && vLimit <= |layout.scramble|
    }

    /** Erase the hashes of b, as the first inner loop of apply does. */
    method Erase(b: nat)
      requires Valid() && b < |vals| && Fits(layout, b, vals[b], hashMax)
      modifies this`tabh
      ensures Valid() && Erased(layout, b, vals, old(tabh), tabh)
    {
      var list := layout.lists[b];
      var i := 0;
      while i < |list|
        invariant 0 <= i <= |list| && Valid()
        invariant forall h :: 0 <= h < hashMax ==>
                    tabh[h] == if old(tabh)[h] in list[..i] &&
                        Hash(layout, old(tabh)[h], vals) == h then EMPTY else old(tabh)[h]
      {
        var ki := list[i];
        var hash := Hash(layout, ki, vals);
        if ki == tabh[hash] {
          tabh := tabh[hash := EMPTY];
        }
        i := i + 1;
      }
      forall h | 0 <= h < hashMax
        ensures old(tabh)[h] in list <==> old(tabh)[h] < |layout.keys| && layout.keys[old(tabh)[h]].b == b
      {
      }
      assert list[..i] == list;
    }

    /** Enter the hashes of b into free places; stop at the first place that is taken. */
    method Enter(b: nat) returns (ok: bool)
      requires Valid() && b < |vals| && Fits(layout, b, vals[b], hashMax)
      requires forall h :: 0 <= h < hashMax && tabh[h] < |layout.keys| ==> layout.keys[tabh[h]].b != b
      modifies this`tabh
      ensures Valid()
      ensures forall h :: 0 <= h < hashMax ==>
                tabh[h] == old(tabh)[h] || (old(tabh)[h] == EMPTY && HoldsOwn(layout, b, vals, tabh, h))
      ensures ok ==> Placed(layout, b, vals, tabh)
      ensures !ok ==> exists h :: 0 <= h < hashMax && Target(layout, b, vals, h) && old(tabh)[h] != EMPTY
    {
      var list := layout.lists[b];
      var i := 0;
      while i < |list|
        invariant 0 <= i <= |list| && Valid()
        invariant forall h :: 0 <= h < hashMax ==>
                    || tabh[h] == old(tabh)[h]
                    || (old(tabh)[h] == EMPTY && tabh[h] in list[..i] && Hash(layout, tabh[h], vals) == h)
        invariant forall j :: 0 <= j < i ==> tabh[Hash(layout, list[j], vals)] == list[j]
      {
        var ki := list[i];
        var hash := Hash(layout, ki, vals);
        if tabh[hash] != EMPTY {
          assert old(tabh)[hash] != EMPTY by {
            assert Target(layout, b, vals, hash);
            if old(tabh)[hash] == EMPTY {
              HashesDiffer(layout, tabh[hash], ki, vals[b]);
            }
          }
          return false;
        }
        forall j | 0 <= j < i ensures Hash(layout, list[j], vals) != hash {
          HashesDiffer(layout, list[j], ki, vals[b]);
        }
        tabh := tabh[hash := ki];
        i := i + 1;
      }
      return true;
    }

    /** Enter the hashes of b whatever is there, as apply does when it rolls back. */
    method Restore(b: nat)
      requires Valid() && b < |vals| && Fits(layout, b, vals[b], hashMax)
      modifies this`tabh
      ensures Valid()
      ensures forall h :: 0 <= h < hashMax ==>
                if Target(layout, b, vals, h) then HoldsOwn(layout, b, vals, tabh, h) else tabh[h] == old(tabh)[h]
      ensures Placed(layout, b, vals, tabh)
    {
      var list := layout.lists[b];
      var i := 0;
      while i < |list|
        invariant 0 <= i <= |list| && Valid()
        invariant forall h :: 0 <= h < hashMax && !Target(layout, b, vals, h) ==> tabh[h] == old(tabh)[h]
        invariant forall j :: 0 <= j < i ==> tabh[Hash(layout, list[j], vals)] == list[j]
      {
        var ki := list[i];
        var hash := Hash(layout, ki, vals);
        assert Target(layout, b, vals, hash);
        forall j | 0 <= j < i ensures Hash(layout, list[j], vals) != hash {
          HashesDiffer(layout, list[j], ki, vals[b]);
        }
        tabh := tabh[hash := ki];
        i := i + 1;
      }
      forall h | 0 <= h < hashMax && Target(layout, b, vals, h) ensures HoldsOwn(layout, b, vals, tabh, h) {
        var k :| 0 <= k < |layout.keys| && layout.keys[k].b == b && Hash(layout, k, vals) == h;
        assert k in layout.lists[layout.keys[k].b];
      }
    }

    /** apply with the rollback flag: from whatever the failed walk left, back to exactly the
        vals and hashes it started from. */
    method Rollback(tail: nat, ghost root: nat, ghost mapped: set<nat>, ghost vals0: seq<nat>, ghost tabh0: seq<nat>)
      requires Valid() && Vals(layout, vals0) && |tabh0| == hashMax
      requires QueueOk(layout, tabq, hashMax, tail, root, vals0, mapped) && tail >= 2
      requires Consistent(layout, vals0, tabh0, mapped) && Fits(layout, root, vals0[root], hashMax)
      requires RollingBack(layout, vals, tabh, PathBs(tabq, tail - 1), root, mapped, vals0)
      modifies this`tabh, this`vals
      ensures Valid() && vals == vals0 && tabh == tabh0
    {
      var child := tail - 1;
      while child != 0
        invariant 0 <= child < tail && Valid() && tabq == old(tabq)
        invariant RollingBack(layout, vals, tabh, PathBs(tabq, child), root, mapped, vals0)
      {
        var parent := tabq[child].parent;
        PathFacts(layout, tabq, hashMax, tail, parent, root, vals0, mapped);
        assert EltOk(layout, tabq, hashMax, child, vals0, mapped);
        RollbackOne(tabq[parent].b, tabq[child].oldVal, parent == 0, root, mapped, vals0, tabh0,
                    PathBs(tabq, child), PathBs(tabq, parent));
        child := parent;
      }
      RolledBack(root, mapped, vals0, tabh0);
    }

    lemma RolledBack(root: nat, mapped: set<nat>, vals0: seq<nat>, tabh0: seq<nat>)
      requires Valid() && Vals(layout, vals0) && |tabh0| == hashMax
      requires Consistent(layout, vals0, tabh0, mapped)
      requires RollingBack(layout, vals, tabh, {}, root, mapped, vals0)
      ensures vals == vals0 && tabh == tabh0
    {
      ConsistentUnique(layout, vals0, tabh, tabh0, mapped);
    }

    /** One step of the rollback: b is settled, unless it comes up again further on. */
    method RollbackOne(b: nat, oldVal: nat, isRoot: bool, ghost root: nat, ghost mapped: set<nat>,
                       ghost vals0: seq<nat>, ghost tabh0: seq<nat>, ghost pending: set<nat>, ghost pending': set<nat>)
      requires Valid() && Vals(layout, vals0) && |tabh0| == hashMax
      requires b < |vals| && oldVal == vals0[b] && root !in mapped && pending == {b} + pending'
      requires if isRoot then b == root else b in mapped && root in pending'
      requires Consistent(layout, vals0, tabh0, mapped)
      requires root < |vals| && Fits(layout, root, vals0[root], hashMax)
      requires RollingBack(layout, vals, tabh, pending, root, mapped, vals0)
      modifies this`tabh, this`vals
      ensures Valid() && RollingBack(layout, vals, tabh, pending', root, mapped, vals0)
    {
      Erase(b);
      AfterErase(layout, vals, old(tabh), tabh, b, oldVal, mapped + {root});
      vals := vals[b := oldVal];
      if !isRoot {
        ghost var erased := tabh;
        Restore(b);
        AfterRestore(layout, vals, erased, tabh, b, mapped + {root} - {b}, vals0, tabh0);
        assert mapped + {root} - {b} + {b} == mapped + {root};
      }
    }

    /** Give b a new val: move its keys to their new hashes, if all of those are free. */
    method Remap(b: nat, newVal: nat, ghost path: set<nat>, ghost root: nat, ghost mapped: set<nat>,
                 ghost vals0: seq<nat>)
      returns (ok: bool)
      requires Valid() && Vals(layout, vals0) && b in path && b < |vals|
      requires path <= mapped + {root} && root in path && forall c :: c in mapped ==> c < |vals|
      requires Fits(layout, b, newVal, hashMax)
      requires Applying(layout, vals, tabh, path, mapped, vals0)
      modifies this`tabh, this`vals
      ensures Valid()
      ensures ok ==> Applying(layout, vals, tabh, path, mapped + {b}, vals0)
      ensures !ok ==>
              RollingBack(layout, vals, tabh, path, root, mapped, vals0) && !FreeVal(layout, b, newVal, old(tabh))
    {
      Erase(b);
      AfterErase(layout, vals, old(tabh), tabh, b, newVal, mapped);
      vals := vals[b := newVal];
      ghost var erased := tabh;
      ok := Enter(b);
      if !ok {
        Clash(layout, old(tabh), erased, old(vals), vals, b, newVal);
      }
      AfterEnter(layout, vals, erased, tabh, b, mapped - {b});
      assert mapped - {b} + {b} == mapped + {b};
      AfterRemap(layout, old(vals), old(tabh), b, newVal, tabh, path, root, mapped, vals0);
    }

    /** One step of the walk from a new leaf to the root, undoing all of it on a clash. */
    method ApplyOne(tail: nat, child: nat, ghost path: set<nat>, ghost root: nat, ghost mapped: set<nat>,
                    ghost vals0: seq<nat>, ghost tabh0: seq<nat>) returns (ok: bool)
      requires Valid() && Vals(layout, vals0) && |tabh0| == hashMax && 0 < child < tail && tail >= 2
      requires QueueOk(layout, tabq, hashMax, tail, root, vals0, mapped)
      requires Consistent(layout, vals0, tabh0, mapped) && Fits(layout, root, vals0[root], hashMax)
      requires path == PathBs(tabq, tail - 1) && PathBs(tabq, child) <= path
      requires Applying(layout, vals, tabh, path, mapped, vals0)
      modifies this`tabh, this`vals
      ensures Valid()
      ensures ok ==> Applying(layout, vals, tabh, path, mapped + {tabq[tabq[child].parent].b}, vals0)
      ensures !ok ==> vals == vals0 && tabh == tabh0
      ensures !ok ==> !FreeVal(layout, tabq[tabq[child].parent].b, tabq[child].newVal, old(tabh))
    {
      PathFacts(layout, tabq, hashMax, tail, tail - 1, root, vals0, mapped);
      assert EltOk(layout, tabq, hashMax, child, vals0, mapped);
      ok := Remap(tabq[tabq[child].parent].b, tabq[child].newVal, path, root, mapped, vals0);
      if !ok {
        Rollback(tail, root, mapped, vals0, tabh0);
      }
    }

    /** apply without the rollback flag: walk from the new leaf to the root, giving each b on
        the way the val recorded for it.  If two keys clash on the way all is undone. */
    method Apply(tail: nat, ghost root: nat, ghost mapped: set<nat>) returns (ok: bool)
      requires Valid() && QueueOk(layout, tabq, hashMax, tail, root, vals, mapped) && tail >= 2
      requires Consistent(layout, vals, tabh, mapped) && Fits(layout, root, vals[root], hashMax)
      modifies this`tabh, this`vals
      ensures Valid()
      ensures ok ==> Consistent(layout, vals, tabh, mapped + {root})
      ensures ok ==> forall b :: 0 <= b < |vals| && b !in mapped && b != root ==> vals[b] == old(vals)[b]
      ensures !ok ==> vals == old(vals) && tabh == old(tabh)
      ensures !ok && tabq[tail - 1].parent == 0 ==> !FreeVal(layout, root, tabq[tail - 1].newVal, tabh)
    {
      ghost var vals0, tabh0 := vals, tabh;
      var child := tail - 1;
      PathFacts(layout, tabq, hashMax, tail, child, root, vals0, mapped);
      ghost var path := PathBs(tabq, child);
      StartsApplying(layout, vals, tabh, path, root, mapped);
      while child != 0
        invariant 0 <= child < tail && Valid() && tabq == old(tabq)
        invariant path == PathBs(tabq, tail - 1) && PathBs(tabq, child) <= path
        invariant if child == tail - 1 then tabh == tabh0 else child == 0 || tabq[tail - 1].parent != 0
        invariant Applying(layout, vals, tabh, path, if child == 0 then mapped + {root} else mapped, vals0)
      {
        var parent := tabq[child].parent;
        assert EltOk(layout, tabq, hashMax, child, vals0, mapped);
        ok := ApplyOne(tail, child, path, root, mapped, vals0, tabh0);
        if !ok {
          return false;
        }
        assert mapped + {tabq[parent].b} == if parent == 0 then mapped + {root} else mapped;
        child := parent;
      }
      ok := true;
    }

    /** Try val v for b: is every key in range, and whose place is taken?  EMPTY for child
        says that none is. */
    method Probe(b: nat, v: nat, highWater: nat, ghost mapped: set<nat>) returns (usable: bool, child: nat)
      requires Valid() && b < |layout.lists| && v < |layout.scramble|
      requires EntriesOk(layout, vals, tabh, mapped)
      ensures usable ==> Fits(layout, b, v, hashMax)
      ensures FreeVal(layout, b, v, tabh) ==> usable && child == EMPTY
      ensures usable && child == EMPTY ==>
                forall i :: 0 <= i < |layout.lists[b]| ==> tabh[HashWith(layout, layout.lists[b][i], v)] == EMPTY
      ensures usable && child != EMPTY ==>
                && child in mapped && child < |water| && water[child] != highWater
                && exists i :: 0 <= i < |layout.lists[b]| && Hits(b, v, i, child)
                     && forall j :: 0 <= j < |layout.lists[b]| && j != i ==> !Hits(b, v, j, child)
    {
      ghost var first := 0;
      child := EMPTY;
      var i := 0;
      while i < |layout.lists[b]|
        invariant 0 <= i <= |layout.lists[b]| && Probed(b, v, i, child, first, highWater, mapped)
        invariant FreeVal(layout, b, v, tabh) ==> child == EMPTY
      {
        usable, child, first := ProbeKey(b, v, i, child, first, highWater, mapped);
        if !usable {
          return;
        }
        i := i + 1;
      }
      return true, child;
    }

    /** What is known after the first i keys of b: all in range, and child has the place of one of
        them at most. */
    ghost predicate Probed(b: nat, v: nat, i: nat, child: nat, first: nat, highWater: nat, mapped: set<nat>)
      requires Valid() && b < |layout.lists| && v < |layout.scramble| && i <= |layout.lists[b]|
      reads this
    {
      var list := layout.lists[b];
      && (forall j :: 0 <= j < i ==> HashWith(layout, list[j], v) < hashMax)
      && (child == EMPTY ==> forall j :: 0 <= j < i ==> tabh[HashWith(layout, list[j], v)] == EMPTY)
      && (child != EMPTY ==>
            && child in mapped && child < |water| && water[child] != highWater
            && 0 <= first < i && Hits(b, v, first, child)
            && forall j :: 0 <= j < i && j != first ==> !Hits(b, v, j, child))
    }

    /** One key. */
    method ProbeKey(b: nat, v: nat, i: nat, child: nat, ghost first: nat, highWater: nat, ghost mapped: set<nat>)
      returns (usable: bool, child': nat, ghost first': nat)
      requires Valid() && b < |layout.lists| && v < |layout.scramble| && i < |layout.lists[b]|
      requires EntriesOk(layout, vals, tabh, mapped) && Probed(b, v, i, child, first, highWater, mapped)
      ensures usable ==> Probed(b, v, i + 1, child', first', highWater, mapped)
      ensures FreeVal(layout, b, v, tabh) && child == EMPTY ==> usable && child' == EMPTY
    {
      child', first' := child, first;
      var hash := HashWith(layout, layout.lists[b][i], v);
      if hash >= hashMax {
        return false, child', first';
      }
      if tabh[hash] != EMPTY {
        var hit := layout.keys[tabh[hash]].b;
        if child != EMPTY {
          if child == hit {
            return false, child', first';
          }
        } else {
          child', first' := hit, i;
          if water[hit] == highWater {
            return false, child', first';
          }
        }
      }
      ProbedMore(b, v, i, child, first, child', first', highWater, mapped);
      usable := true;
    }

    lemma ProbedMore(b: nat, v: nat, i: nat, child: nat, first: nat, child': nat, first': nat, highWater: nat,
                     mapped: set<nat>)
      requires Valid() && b < |layout.lists| && v < |layout.scramble| && i < |layout.lists[b]|
      requires Probed(b, v, i, child, first, highWater, mapped)
      requires HashWith(layout, layout.lists[b][i], v) < hashMax
      requires var k := tabh[HashWith(layout, layout.lists[b][i], v)];
               if k == EMPTY then child' == child && first' == first
               else
                 && k < |layout.keys|
                 && (if child == EMPTY then child' == layout.keys[k].b && first' == i
                     else child' == child != layout.keys[k].b && first' == first)
                 && (child == EMPTY ==>
                     child' != EMPTY && child' in mapped && child' < |water| && water[child'] != highWater)
      ensures Probed(b, v, i + 1, child', first', highWater, mapped)
    {
    }

    /** With val v the i-th key of b would take a place that a key of c has. */
    ghost predicate Hits(b: nat, v: nat, i: nat, c: nat)
      requires b < |layout.lists| && i < |layout.lists[b]| && v < |layout.scramble|
      reads this`tabh
    {
      var hash := HashWith(layout, layout.lists[b][i], v);
      hash < |tabh| && tabh[hash] < |layout.keys| && layout.keys[tabh[hash]].b == c
    }

    /** The b's explored by this search: each is the b of one queue entry other than the root. */
    ghost function Marked(highWater: nat): set<nat>
      reads this`water
    {
      set b | 0 <= b < |water| && water[b] == highWater
    }

    /** What holds between two vals of the search: nothing is mapped differently than at its
        start, and the queue is no longer than the b's it can have found. */
    ghost predicate Searching(tail: nat, root: nat, highWater: nat, mapped: set<nat>)
      reads this
    {
      && Valid() && root < |vals| && QueueOk(layout, tabq, hashMax, tail, root, vals, mapped)
      && Consistent(layout, vals, tabh, mapped) && Fits(layout, root, vals[root], hashMax)
      && (forall p :: 0 < p < tail ==> tabq[p].b in mapped)
      && Marked(highWater) <= mapped && |Marked(highWater)| == tail - 1
    }

    /** The queue has room for one more entry: tabq never needs more than 2^b_bits + 1. */
    lemma QueueFits(tail: nat, root: nat, highWater: nat, mapped: set<nat>)
      requires Searching(tail, root, highWater, mapped)
      ensures tail <= |layout.lists| < |tabq|
    {
      BoundedSet(Marked(highWater) + {root}, |layout.lists|);
    }

    /** A new queue entry, reached from entry q. */
    method Enqueue(q: nat, v: nat, b: nat, child: nat, tail: nat, ghost root: nat, ghost mapped: set<nat>)
      requires Vals(layout, vals) && QueueOk(layout, tabq, hashMax, tail, root, vals, mapped)
      requires q < tail < |tabq| && b == tabq[q].b && (q > 0 ==> b in mapped) && b < |vals| &&
               Fits(layout, b, v, hashMax)
      modifies this`tabq
      ensures tabq == old(tabq)[tail := QueueElt(child, q, v, vals[b])]
      ensures QueueOk(layout, tabq, hashMax, tail + 1, root, vals, mapped)
    {
      ghost var tabq0 := tabq;
      tabq := tabq[tail := QueueElt(child, q, v, vals[b])];
      assert EltOk(layout, tabq, hashMax, tail, vals, mapped);
      QueueGrows(layout, tabq0, tabq, hashMax, tail, root, vals, mapped);
    }

    /** One round of the inner loop: val v for the b of queue entry q. */
    method TryVal(q: nat, v: nat, tail: nat, root: nat, highWater: nat, ghost mapped: set<nat>)
      returns (tail': nat, done: bool)
      requires Searching(tail, root, highWater, mapped) && q < tail && v < |layout.scramble|
      modifies this`tabh, this`vals, this`tabq, this`water
      ensures Valid()
      ensures forall b :: 0 <= b < |water| ==> water[b] == old(water)[b] || water[b] == highWater
      ensures !done ==>
              tail <= tail' && Searching(tail', root, highWater, mapped) && vals == old(vals) && tabh == old(tabh)
      ensures done ==> Consistent(layout, vals, tabh, mapped + {root})
      ensures done ==> forall b :: 0 <= b < |vals| && b !in mapped && b != root ==> vals[b] == old(vals)[b]
      ensures !done && q == 0 ==> !FreeVal(layout, root, v, tabh)
    {
      QueueFits(tail, root, highWater, mapped);
      assert q > 0 ==> tabq[q].b in mapped;
      var b := tabq[q].b;
      var usable, child := Probe(b, v, highWater, mapped);
      if !usable {
        return tail, false;
      }
      Enqueue(q, v, b, child, tail, root, mapped);
      if child != EMPTY {
        water := water[child := highWater];
        assert Marked(highWater) == old(Marked(highWater)) + {child};
        return tail + 1, false;
      }
      done := Apply(tail + 1, root, mapped);
      if !done {
        QueueShrinks(layout, tabq, hashMax, tail, root, vals, mapped);
      }
      return tail, done;
    }

    /** Map b_root, moving other b's if that is what it takes.  Either it is mapped along with
        all that were, or nothing has changed.  It does not fail when some val sends all keys of
        b_root to empty places. */
    method Augment(root: nat, highWater: nat, ghost mapped: set<nat>) returns (ok: bool)
      requires Valid() && root < |layout.lists| && root !in mapped
      requires forall b :: b in mapped ==> b < |layout.lists|
      requires Consistent(layout, vals, tabh, mapped) && Fits(layout, root, vals[root], hashMax)
      requires forall b :: 0 <= b < |water| ==> water[b] != highWater
      modifies this`tabh, this`vals, this`tabq, this`water
      ensures Valid()
      ensures ok ==> Consistent(layout, vals, tabh, mapped + {root})
      ensures ok ==> forall b :: 0 <= b < |vals| && b !in mapped && b != root ==> vals[b] == old(vals)[b]
      ensures !ok ==> vals == old(vals) && tabh == old(tabh)
      ensures !ok ==> forall v :: 0 <= v < vLimit ==> !FreeVal(layout, root, v, tabh)
      ensures forall b :: 0 <= b < |water| ==> water[b] == old(water)[b] || water[b] == highWater
    {
      tabq := tabq[0 := tabq[0].(b := root)];
      var tail := 1;
      var q := 0;
      assert Marked(highWater) == {};
      while q < tail
        invariant 0 <= q <= tail && 1 <= tail && Searching(tail, root, highWater, mapped)
        invariant vals == old(vals) && tabh == old(tabh)
        invariant q > 0 ==> forall v :: 0 <= v < vLimit ==> !FreeVal(layout, root, v, tabh)
        invariant forall b :: 0 <= b < |water| ==> water[b] == old(water)[b] || water[b] == highWater
        decreases |layout.lists| - q
      {
        QueueFits(tail, root, highWater, mapped);
        if fast && !minimal && q == 1 {
          break;
        }
        var v := 0;
        while v < vLimit
          invariant 0 <= v <= vLimit && q < tail && Searching(tail, root, highWater, mapped)
          invariant vals == old(vals) && tabh == old(tabh)
          invariant forall u :: 0 <= u < (if q > 0 then vLimit else v) ==> !FreeVal(layout, root, u, tabh)
          invariant forall b :: 0 <= b < |water| ==> water[b] == old(water)[b] || water[b] == highWater
        {
          var done;
          tail, done := TryVal(q, v, tail, root, highWater, mapped);
          if done {
            return true;
          }
          v := v + 1;
        }
        q := q + 1;
      }
      return false;
    }

    function NumKeys(b: nat): int {
      if b < |layout.lists| then |layout.lists[b]| else 0
    }

    /** tabb_sort: all b's, those with many keys first. */
    method SortBs() returns (order: seq<nat>)
      ensures |order| == |layout.lists|
      ensures forall b: nat :: b in order <==> b < |layout.lists|
      ensures forall i, j :: 0 <= i < j < |order| ==> order[i] != order[j] && NumKeys(order[i]) >= NumKeys(order[j])
    {
      var n := |layout.lists|;
      var a := new nat[n](i => i);
      var cmp := (x: nat, y: nat) => NumKeys(y) - NumKeys(x);
      IdentityCounts(a[..]);
      Qsort.Sort(a, cmp);
      order := a[..];
      forall b: nat ensures b in order <==> b < n {
        assert b in order <==> b in multiset(order);
      }
      OnceEach(order);
    }

    /** Map all b's, largest first. */
    method Perfect() returns (ok: bool)
      requires Valid()
      requires forall b :: 0 <= b < |vals| ==> Fits(layout, b, vals[b], hashMax) && water[b] == 0
      modifies this`tabh, this`vals, this`tabq, this`water
      ensures Valid()
      ensures ok ==> PerfectHash(layout, vals, hashMax)
      ensures !ok ==> Blocked(layout, hashMax, vLimit)
    {
      tabh := seq(hashMax, _ => EMPTY);
      var order := SortBs();
      ghost var mapped: set<nat> := {};
      var i := 0;
      while i < |order|
        invariant 0 <= i <= |order| && Valid()
        invariant forall b: nat :: b in mapped <==> b in order[..i]
        invariant Consistent(layout, vals, tabh, mapped)
        invariant forall b :: 0 <= b < |vals| && b !in mapped ==> Fits(layout, b, vals[b], hashMax)
        invariant forall b :: 0 <= b < |water| ==> water[b] <= i
      {
        assert order[i] in order && order[i] !in order[..i];
        assert forall b: nat :: b in order[..i] ==> b in order;
        ok := Augment(order[i], i + 1, mapped);
        if !ok {
          assert BlockedAt(layout, hashMax, vLimit, vals, tabh, mapped, order[i]);
          return false;
        }
        mapped := mapped + {order[i]};
        i := i + 1;
      }
      assert order[..i] == order;
      ConsistentPerfect(layout, vals, tabh, mapped);
      return true;
    }
  }

  lemma {:induction false} IdentityCounts(s: seq<nat>)
    requires forall i :: 0 <= i < |s| ==> s[i] == i
    ensures forall b: nat :: multiset(s)[b] == if b < |s| then 1 else 0
  {
    if |s| > 0 {
      var t := s[..|s| - 1];
      IdentityCounts(t);
      assert s == t + [|s| - 1];
      assert multiset(s) == multiset(t) + multiset{|s| - 1};
    }
  }

  lemma OnceEach(s: seq<nat>)
    requires forall b: nat :: multiset(s)[b] <= 1
    ensures forall i, j :: 0 <= i < j < |s| ==> s[i] != s[j]
  {
    forall i, j | 0 <= i < j < |s| ensures s[i] != s[j] {
      var x := s[j];
      assert s == s[..j] + [x] + s[j + 1..];
      assert s[..j][i] in multiset(s[..j]);
      assert multiset(s)[x] == multiset(s[..j])[x] + 1 + multiset(s[j + 1..])[x];
    }
  }

  /** The hash of every key is in range, and no two keys share one. */
  ghost predicate PerfectHash(l: Layout, vals: seq<nat>, max: nat)
    requires Vals(l, vals)
  {
    && (forall k :: 0 <= k < |l.keys| ==> Hash(l, k, vals) < max)
    && (forall k, m :: 0 <= k < m < |l.keys| ==> Hash(l, k, vals) != Hash(l, m, vals))
  }

  /** Once every b is mapped the hash is perfect. */
  lemma ConsistentPerfect(l: Layout, vals: seq<nat>, tabh: seq<nat>, mapped: set<nat>)
    requires Vals(l, vals) && Consistent(l, vals, tabh, mapped)
    requires forall b :: 0 <= b < |l.lists| ==> b in mapped
    ensures PerfectHash(l, vals, |tabh|)
  {
    forall k | 0 <= k < |l.keys|
      ensures Hash(l, k, vals) < |tabh| && tabh[Hash(l, k, vals)] == k
    {
      assert Placed(l, l.keys[k].b, vals, tabh);
    }
  }

  // ---------- One attempt at a perfect hash ----------

  /** What an attempt depends on: the mixing function (seed and key to a word of wordBits
      bits, whatever key_seed and hash_mix compute) and how the word is cut into a and b. */
  datatype Params = Params(mix: nat -> nat, wordBits: nat, aBits: nat, bBits: nat, useScramble: bool)

  ghost predicate ParamsOk(p: Params) {
    p.aBits <= p.wordBits && p.bBits < 32 && forall key :: p.mix(key) < Pow2(p.wordBits)
  }

  /** init_keys: the pair (a, b) of one key. */
  function InitKey(p: Params, key: nat): Key
    requires p.aBits <= p.wordBits
  {
    var z := p.mix(key);
    Key(key, if p.aBits == 0 then 0 else Shr(z, p.wordBits - p.aBits), LowBits(z, p.bBits))
  }

  function InitKeys(p: Params, words: seq<nat>): seq<Key>
    requires p.aBits <= p.wordBits
  {
    seq(|words|, i requires 0 <= i < |words| => InitKey(p, words[i]))
  }

  /** phash_hash_slow.  When aBits is 0 it shifts by the whole word, of which C does not define the
      result: it is taken from wild. */
  function HashSlow(p: Params, wild: nat -> nat, tab: seq<nat>, scramble: seq<nat>, key: nat): nat
    requires p.aBits <= p.wordBits && |tab| == Pow2(p.bBits)
    requires p.useScramble ==> forall b :: 0 <= b < |tab| ==> tab[b] < |scramble|
  {
    var z := p.mix(key);
    var a := if p.aBits == 0 then wild(z) else Shr(z, p.wordBits - p.aBits);
    var v := tab[LowBits(z, p.bBits)];
    Xor(a, if p.useScramble then scramble[v] else v)
  }

  /** A table for phash_hash_slow. */
  ghost predicate TabOk(p: Params, tab: seq<nat>, scramble: seq<nat>) {
    && |tab| == Pow2(p.bBits)
    && (p.useScramble ==> forall b :: 0 <= b < |tab| ==> tab[b] < |scramble|)
  }

  /** With this table, phash_hash_slow sends the keys to different places below max. */
  ghost predicate Sound(p: Params, wild: nat -> nat, tab: seq<nat>, scramble: seq<nat>, words: seq<nat>, max: nat)
    requires p.aBits <= p.wordBits && TabOk(p, tab, scramble)
  {
    && (forall i :: 0 <= i < |words| ==> HashSlow(p, wild, tab, scramble, words[i]) < max)
    && (forall i, j :: 0 <= i < j < |words| ==>
          HashSlow(p, wild, tab, scramble, words[i]) != HashSlow(p, wild, tab, scramble, words[j]))
  }

  /** So it does whatever u32 the undefined shift gives. */
  ghost predicate AlwaysSound(p: Params, tab: seq<nat>, scramble: seq<nat>, words: seq<nat>, max: nat)
    requires p.aBits <= p.wordBits && TabOk(p, tab, scramble)
  {
    forall wild: nat -> nat :: (forall z: nat :: wild(z) < Pow2(32)) ==> Sound(p, wild, tab, scramble, words, max)
  }

  lemma {:induction false} XorTwice(x: nat, y: nat)
    ensures Xor(Xor(x, y), y) == x
    decreases x + y
  {
    XorParity(x, y);
    XorParity(Xor(x, y), y);
    if x + y > 0 {
      XorTwice(x / 2, y / 2);
    }
  }

  lemma {:induction false} XorBelow(x: nat, y: nat, k: nat)
    requires x < Pow2(k) && y < Pow2(k)
    ensures Xor(x, y) < Pow2(k)
  {
    XorParity(x, y);
    if k > 0 {
      XorBelow(x / 2, y / 2, k - 1);
    }
  }

  /** An undefined shift may give a value that leads out of range. */
  lemma WildValue(p: Params, tab: seq<nat>, scramble: seq<nat>, words: seq<nat>, max: nat)
    requires p.aBits == 0 && TabOk(p, tab, scramble) && |words| > 0 && max < Pow2(32)
    requires forall v :: 0 <= v < |scramble| ==> scramble[v] < Pow2(32)
    requires !p.useScramble ==> forall b :: 0 <= b < |tab| ==> tab[b] < Pow2(32)
    ensures !AlwaysSound(p, tab, scramble, words, max)
  {
    var v := tab[LowBits(p.mix(words[0]), p.bBits)];
    var s := if p.useScramble then scramble[v] else v;
    var a := Xor(max, s);
    XorBelow(max, s, 32);
    XorTwice(max, s);
    var wild: nat -> nat := z => a;
    assert HashSlow(p, wild, tab, scramble, words[0]) == max;
    assert !Sound(p, wild, tab, scramble, words, max);
  }

  /** One key, for which the search ends with aBits 0 and hash_max 1.  On a machine that takes the
      shift count modulo the word, its hash is the mixed word. */
  lemma OneKeyUnsound(key: nat, z: nat)
    requires 0 < z < Pow2(32)
    ensures var p := Params(k => z, 32, 0, 0, false);
            ParamsOk(p) && TabOk(p, [0], [0]) && !Sound(p, w => w, [0], [0], [key], 1)
  {
    var p := Params(k => z, 32, 0, 0, false);
    XorZero(z);
    assert HashSlow(p, w => w, [0], [0], [key][0]) == z;
  }

  /** init_tabb: sort the keys into lists by b, giving up when two keys share (a, b). */
  method InitTabb(keys: seq<Key>, nb: nat, scramble: seq<nat>) returns (ok: bool, lists: seq<seq<nat>>)
    requires |keys| < EMPTY && nb < EMPTY && forall k :: 0 <= k < |keys| ==> keys[k].b < nb
    ensures ok <==> Distinct(keys, |keys|)
    ensures ok ==> |lists| == nb && KeyListsOk(KeyLists(keys, lists, scramble))
  {
    lists := seq(nb, _ => []);
    var k := 0;
    while k < |keys|
      invariant 0 <= k <= |keys| && |lists| == nb
      invariant ListsOfFirst(keys, lists, k) && Distinct(keys, k)
    {
      var clash := SharesA(keys, lists[keys[k].b], keys[k].a);
      OneMoreKey(keys, lists, k, clash);
      if clash {
        return false, lists;
      }
      ListsGrow(keys, lists, k);
      lists := lists[keys[k].b := lists[keys[k].b] + [k]];
      k := k + 1;
    }
    return true, lists;
  }

  /** No two of the first n keys share (a, b). */
  ghost predicate Distinct(keys: seq<Key>, n: nat)
    requires n <= |keys|
  {
    forall l, m :: 0 <= l < m < n && keys[l].b == keys[m].b ==> keys[l].a != keys[m].a
  }

  lemma OneMoreKey(keys: seq<Key>, lists: seq<seq<nat>>, k: nat, clash: bool)
    requires k < |keys| && keys[k].b < |lists| && ListsOfFirst(keys, lists, k) && Distinct(keys, k)
    requires clash <==> exists i :: 0 <= i < |lists[keys[k].b]| && keys[lists[keys[k].b][i]].a == keys[k].a
    ensures clash ==> !Distinct(keys, |keys|)
    ensures !clash ==> Distinct(keys, k + 1)
  {
    var list := lists[keys[k].b];
    if clash {
      var i :| 0 <= i < |list| && keys[list[i]].a == keys[k].a;
      assert lists[keys[k].b][i] < k;
    } else {
      forall l | 0 <= l < k && keys[l].b == keys[k].b ensures keys[l].a != keys[k].a {
        assert l in list;
      }
    }
  }

  /** The scan of one list: does one of its keys have this a? */
  method SharesA(keys: seq<Key>, ki: seq<nat>, a: nat) returns (shares: bool)
    requires forall i :: 0 <= i < |ki| ==> ki[i] < |keys|
    ensures shares <==> exists i :: 0 <= i < |ki| && keys[ki[i]].a == a
  {
    var i := 0;
    while i < |ki|
      invariant 0 <= i <= |ki|
      invariant forall j :: 0 <= j < i ==> keys[ki[j]].a != a
    {
      if keys[ki[i]].a == a {
        return true;
      }
      i := i + 1;
    }
    return false;
  }

  /** The lists hold exactly the first n keys, each once and in the list of its b. */
  ghost predicate ListsOfFirst(keys: seq<Key>, lists: seq<seq<nat>>, n: nat)
    requires n <= |keys|
  {
    && (forall b, i {:trigger lists[b][i]} :: 0 <= b < |lists| && 0 <= i < |lists[b]| ==>
        lists[b][i] < n && keys[lists[b][i]].b == b)
    && (forall b, i, j :: 0 <= b < |lists| && 0 <= i < j < |lists[b]| ==> lists[b][i] != lists[b][j])
    && (forall k :: 0 <= k < n ==> keys[k].b < |lists| && k in lists[keys[k].b])
  }

  lemma ListsGrow(keys: seq<Key>, lists: seq<seq<nat>>, k: nat)
    requires k < |keys| && keys[k].b < |lists| && ListsOfFirst(keys, lists, k)
    ensures ListsOfFirst(keys, lists[keys[k].b := lists[keys[k].b] + [k]], k + 1)
    ensures forall l :: 0 <= l < k && keys[l].b == keys[k].b ==>
            exists i :: 0 <= i < |lists[keys[k].b]| && lists[keys[k].b][i] == l
  {
    var b := keys[k].b;
    var lists' := lists[b := lists[b] + [k]];
    forall l | 0 <= l < k + 1 ensures keys[l].b < |lists'| && l in lists'[keys[l].b] {
      if l == k {
        assert lists'[b][|lists[b]|] == k;
      } else {
        var i :| 0 <= i < |lists[keys[l].b]| && lists[keys[l].b][i] == l;
        assert lists'[keys[l].b][i] == l;
      }
    }
  }

  datatype Option<T> = None | Some(value: T)

  /** The lookup table: val_b, with the scramble applied now unless it is kept for later. */
  method BuildTab(p: Params, l: Layout, vals: seq<nat>) returns (tab: seq<nat>)
    requires Vals(l, vals)
    ensures TabOf(p, l, vals, tab)
  {
    tab := [];
    var b := 0;
    while b < |vals|
      invariant 0 <= b <= |vals| && |tab| == b
      invariant forall c :: 0 <= c < b ==> tab[c] == if p.useScramble then vals[c] else l.scramble[vals[c]]
    {
      var v := vals[b];
      if !p.useScramble {
        v := l.scramble[v];
      }
      tab := tab + [v];
      b := b + 1;
    }
  }

  /** One round of phash_find_perfect_hash for a given seed and given sizes.  When it yields a
      table, phash_hash_slow with that table is sure to send the keys to different places below
      hash_max if and only if some bits went to a, or there are no keys. */
  method TryPerfectHash(words: seq<nat>, p: Params, scramble: seq<nat>, hashMax: nat, vLimit: nat, fast: bool,
                        minimal: bool)
    returns (r: Option<seq<nat>>)
    requires ParamsOk(p) && |words| < EMPTY && Pow2(p.bBits) < EMPTY
    requires 0 < vLimit <= |scramble| && scramble[0] == 0 && Pow2(p.aBits) <= hashMax < Pow2(32)
    requires forall v :: 0 <= v < |scramble| ==> scramble[v] < Pow2(32)
    ensures r.Some? ==> TabOk(p, r.value, scramble)
    ensures r.Some? ==> (AlwaysSound(p, r.value, scramble, words, hashMax) <==> 0 < p.aBits || words == [])
    ensures r.None? ==>
              || !Distinct(InitKeys(p, words), |words|)
              || exists l: Layout :: l.scramble == scramble && KeysOf(p, words, l) && Blocked(l, hashMax, vLimit)
  {
    ghost var l, vals;
    r, l, vals := SearchTab(words, p, scramble, hashMax, vLimit, fast, minimal);
    if r.Some? {
      if 0 < p.aBits || words == [] {
        TableSound(p, words, l, vals, r.value, hashMax);
      } else {
        WildValue(p, r.value, scramble, words, hashMax);
      }
    }
  }

  /** The search itself: the layout of the keys, the val of every b, and the table built from them. */
  method SearchTab(words: seq<nat>, p: Params, scramble: seq<nat>, hashMax: nat, vLimit: nat, fast: bool, minimal: bool)
    returns (r: Option<seq<nat>>, ghost l: Layout, ghost vals: seq<nat>)
    requires ParamsOk(p) && |words| < EMPTY && Pow2(p.bBits) < EMPTY
    requires 0 < vLimit <= |scramble| && scramble[0] == 0 && Pow2(p.aBits) <= hashMax
    ensures r.Some? ==> l.scramble == scramble && KeysOf(p, words, l) && TabOk(p, r.value, scramble)
    ensures r.Some? ==> Vals(l, vals) && PerfectHash(l, vals, hashMax) && TabOf(p, l, vals, r.value)
    ensures r.None? ==>
              || !Distinct(InitKeys(p, words), |words|)
              || (l.scramble == scramble && KeysOf(p, words, l) && Blocked(l, hashMax, vLimit))
  {
    l, vals := KeyLists([], [], []), [];
    var keys := InitKeys(p, words);
    var ok, lists := InitTabb(keys, Pow2(p.bBits), scramble);
    if !ok {
      return None, l, vals;
    }
    var layout: Layout := KeyLists(keys, lists, scramble);
    var t := new Tables(layout, hashMax, vLimit, fast, minimal);
    l := layout;
    FirstValsFit(p, words, l, hashMax);
    if p.bBits > 0 {
      ok := t.Perfect();
      if !ok {
        return None, l, vals;
      }
    } else {
      SingleBPerfect(l, t.vals, hashMax);
    }
    vals := t.vals;
    var tab := BuildTab(p, layout, t.vals);
    return Some(tab), l, vals;
  }

  ghost predicate KeysOf(p: Params, words: seq<nat>, l: Layout)
    requires p.aBits <= p.wordBits
  {
    |l.keys| == |words| && forall i :: 0 <= i < |words| ==> l.keys[i] == InitKey(p, words[i])
  }

  ghost predicate TabOf(p: Params, l: Layout, vals: seq<nat>, tab: seq<nat>)
    requires Vals(l, vals)
  {
    |tab| == |vals| && forall b :: 0 <= b < |vals| ==> tab[b] == if p.useScramble then vals[b] else l.scramble[vals[b]]
  }

  lemma TableSound(p: Params, words: seq<nat>, l: Layout, vals: seq<nat>, tab: seq<nat>, max: nat)
    requires ParamsOk(p) && (0 < p.aBits || words == []) && KeysOf(p, words, l)
    requires Vals(l, vals) && PerfectHash(l, vals, max) && TabOk(p, tab, l.scramble) && TabOf(p, l, vals, tab)
    ensures AlwaysSound(p, tab, l.scramble, words, max)
  {
    forall wild: nat -> nat, i | 0 <= i < |words|
      ensures HashSlow(p, wild, tab, l.scramble, words[i]) == Hash(l, i, vals)
    {
      assert l.keys[i] == InitKey(p, words[i]);
    }
  }

  /** a is below hash_max, so val 0, which scrambles to 0, suits every b. */
  lemma FirstValsFit(p: Params, words: seq<nat>, l: Layout, max: nat)
    requires ParamsOk(p) && KeysOf(p, words, l) && 0 < |l.scramble| && l.scramble[0] == 0 && Pow2(p.aBits) <= max
    ensures forall b :: 0 <= b < |l.lists| ==> Fits(l, b, 0, max)
  {
    forall k | 0 <= k < |l.keys| ensures HashWith(l, k, 0) < max {
      XorZero(l.keys[k].a);
      if p.aBits > 0 {
        HighBits(p.mix(words[k]), p.aBits, p.wordBits - p.aBits);
      }
    }
  }

  /** With a single b distinct (a, b) pairs are distinct hashes already. */
  lemma SingleBPerfect(l: Layout, vals: seq<nat>, max: nat)
    requires |l.lists| == 1 && Vals(l, vals) && Fits(l, 0, vals[0], max)
    ensures PerfectHash(l, vals, max)
  {
    forall k, m | 0 <= k < m < |l.keys| ensures Hash(l, k, vals) != Hash(l, m, vals) {
      HashesDiffer(l, k, m, vals[0]);
    }
  }
}
