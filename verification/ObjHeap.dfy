/** The object heap of clib/heap.c: elements in a vector, chained by relative indices in the order
    of their offsets, free ones also on a list for their size.
 */
module ObjHeap {
  import opened Words

  /** An element.  In the source the free flag is the top bit of the offset; next and prev are
      relative to the element's own index, zero at the ends of the chain. */
  datatype Elt = Elt(offset: nat, free: bool, next: int, prev: int)

  // ---------- Bins ----------

  const SMALL_BINS: nat := 32
  const N_BINS: nat := 64

  /** Offsets have 31 bits. */
  const MAX_LEN: nat := 0x8000_0000

  function SizeToBin(size: nat): nat
    requires size > 0
  {
    if size <= SMALL_BINS then size - 1
    else
      LargeSize(size);
      var bin := SMALL_BINS + MaxLog2(size) - 6;
      if bin >= N_BINS then N_BINS - 1 else bin
  }

  lemma LargeSize(size: nat)
    requires size > SMALL_BINS
    ensures MaxLog2(size) >= 6
  {
    assert Pow2(5) == 32;
    MaxLog2Least(size, 5);
  }

  /** Up to 32 each size has a bin of its own; above, a bin has the sizes from one power of two to
      the next, and the last bin those that are left. */
  lemma BinMeans(size: nat, k: nat)
    requires size > 0
    ensures size <= 32 ==> SizeToBin(size) == size - 1
    ensures size > 32 && size <= Pow2(k) < 2 * size ==>
            SizeToBin(size) == if 26 + k < N_BINS then 26 + k else N_BINS - 1
  {
    if size > 32 {
      MaxLog2Below(size, k);
    }
  }

  lemma HighestBin(size: nat)
    requires 0 < size < MAX_LEN
    ensures SizeToBin(size) < N_BINS - 1
    ensures size > SMALL_BINS ==> SizeToBin(size) == SMALL_BINS + MaxLog2(size) - 6
  {
    if size > SMALL_BINS {
      LargeSize(size);
      Pow2Add(16, 15);
      Pow2Add(8, 8);
      Pow2Add(8, 7);
      assert Pow2(8) == 256 && Pow2(7) == 128;
      assert Pow2(31) == MAX_LEN;
      MaxLog2Least(size, 31);
    }
  }

  /** Two blocks of the same bin do not fit into one block of that bin: when blocks are merged, at
      most one of them was in the bin of the result. */
  lemma AtMostOneInBin(s: nat, t: nat, total: nat)
    requires s > 0 && t > 0 && s + t <= total < MAX_LEN && SizeToBin(s) == SizeToBin(t)
    ensures SizeToBin(total) != SizeToBin(s)
  {
    HighestBin(s);
    HighestBin(t);
    HighestBin(total);
    if total > SMALL_BINS {
      LargeSize(total);
    }
    if s > SMALL_BINS {
      if t > SMALL_BINS {
        var k := MaxLog2(s);
        LargeSize(s);
        MaxLog2Least(s, k - 1);
        MaxLog2Least(t, k - 1);
        MaxLog2Least(total, k);
        assert Pow2(k) == 2 * Pow2(k - 1);
      } else {
        LargeSize(s);
      }
    } else if t > SMALL_BINS {
      LargeSize(t);
    }
  }

  lemma BinMono(s: nat, t: nat)
    requires 0 < s <= t
    ensures SizeToBin(s) <= SizeToBin(t)
  {
    if t > SMALL_BINS {
      LargeSize(t);
      if s > SMALL_BINS {
        MaxLog2Least(t, MaxLog2(t));
        MaxLog2Least(s, MaxLog2(t));
      }
    }
  }

  // ---------- The free lists ----------

  /** Where a free element is: at pos on the list of bin. */
  datatype Slot = Slot(bin: nat, pos: nat)

  /** The lists hold exactly the listed elements, each at its slot. */
  ghost predicate ListsOk(lists: seq<seq<nat>>, slots: map<nat, Slot>) {
    && (forall u :: u in slots ==> SlotOk(lists, slots, u))
    && forall b, i {:trigger lists[b][i]} :: 0 <= b < |lists| && 0 <= i < |lists[b]| ==>
        lists[b][i] in slots && slots[lists[b][i]] == Slot(b, i)
  }

  ghost predicate SlotOk(lists: seq<seq<nat>>, slots: map<nat, Slot>, u: nat)
    requires u in slots
  {
    var s := slots[u];
    s.bin < |lists| && s.pos < |lists[s.bin]| && lists[s.bin][s.pos] == u
  }

  /** vec_validate: the lists up to bin b exist. */
  function WithBin(lists: seq<seq<nat>>, b: nat): (r: seq<seq<nat>>)
    ensures b < |r| && |lists| <= |r|
  {
    if b < |lists| then lists else lists + seq(b + 1 - |lists|, _ => [])
  }

  lemma WithBinOk(lists: seq<seq<nat>>, b: nat, slots: map<nat, Slot>)
    requires ListsOk(lists, slots)
    ensures ListsOk(WithBin(lists, b), slots)
  {
    var r := WithBin(lists, b);
    forall u | u in slots ensures SlotOk(r, slots, u) {
      assert SlotOk(lists, slots, u);
    }
    forall c, i | 0 <= c < |r| && 0 <= i < |r[c]| ensures r[c][i] in slots && slots[r[c][i]] == Slot(c, i) {
      assert c < |lists| && r[c] == lists[c];
    }
  }

  /** Adding an element at the end of a list. */
  lemma AddedOk(lists: seq<seq<nat>>, b: nat, u: nat, slots: map<nat, Slot>)
    requires ListsOk(lists, slots) && b < |lists| && u !in slots
    ensures ListsOk(lists[b := lists[b] + [u]], slots[u := Slot(b, |lists[b]|)])
  {
    var r, s := lists[b := lists[b] + [u]], slots[u := Slot(b, |lists[b]|)];
    forall x | x in s ensures SlotOk(r, s, x) {
      if x != u {
        assert SlotOk(lists, slots, x);
      }
    }
    forall c, i | 0 <= c < |r| && 0 <= i < |r[c]| ensures r[c][i] in s && s[r[c][i]] == Slot(c, i) {
      if c != b {
        assert r[c][i] == lists[c][i];
      } else if i < |lists[b]| {
        assert r[c][i] == lists[b][i];
      }
    }
  }

  /** The slots once the last element of the list has taken the place of u. */
  ghost function Moved(lists: seq<seq<nat>>, slots: map<nat, Slot>, u: nat): map<nat, Slot>
    requires ListsOk(lists, slots) && u in slots
  {
    assert SlotOk(lists, slots, u);
    var s := slots[u];
    var t := lists[s.bin][|lists[s.bin]| - 1];
    if t == u then slots - {u} else (slots - {u})[t := s]
  }

  lemma RemovedOk(lists: seq<seq<nat>>, slots: map<nat, Slot>, u: nat)
    requires ListsOk(lists, slots) && u in slots
    ensures slots[u].bin < |lists| && slots[u].pos < |lists[slots[u].bin]|
    ensures var s := slots[u]; var l := lists[s.bin]; var n := |l| - 1;
            ListsOk(lists[s.bin := l[s.pos := l[n]][..n]], Moved(lists, slots, u))
  {
    assert SlotOk(lists, slots, u);
    var s := slots[u];
    var l := lists[s.bin];
    var n := |l| - 1;
    var t := l[n];
    var r, m := lists[s.bin := l[s.pos := t][..n]], Moved(lists, slots, u);
    assert t == lists[s.bin][n];
    forall x | x in m ensures SlotOk(r, m, x) {
      if x != t || t == u {
        assert SlotOk(lists, slots, x);
      }
    }
    forall c, i | 0 <= c < |r| && 0 <= i < |r[c]| ensures r[c][i] in m && m[r[c][i]] == Slot(c, i) {
      if c != s.bin || i != s.pos {
        assert r[c][i] == lists[c][i];
      }
    }
  }

  // ---------- The chain ----------

  ghost predicate NoDup(s: seq<nat>) {
    forall i, j :: 0 <= i < j < |s| ==> s[i] != s[j]
  }

  function Relative(from: nat, to: nat): int {
    to - from
  }

  /** The i-th element of the chain is linked with those around it. */
  ghost predicate LinkAt(elts: seq<Elt>, c: seq<nat>, i: nat)
    requires i < |c|
  {
    && c[i] < |elts|
    && elts[c[i]].next == (if i + 1 < |c| then Relative(c[i], c[i + 1]) else 0)
    && elts[c[i]].prev == (if i > 0 then Relative(c[i], c[i - 1]) else 0)
  }

  ghost predicate Chain(elts: seq<Elt>, c: seq<nat>, head: nat, tail: nat) {
    && c != [] && NoDup(c) && head == c[0] && tail == c[|c| - 1]
    && forall i {:trigger LinkAt(elts, c, i)} :: 0 <= i < |c| ==> LinkAt(elts, c, i)
  }

  function Next(elts: seq<Elt>, e: nat): int
    requires e < |elts|
  {
    e + elts[e].next
  }

  function Prev(elts: seq<Elt>, e: nat): int
    requires e < |elts|
  {
    e + elts[e].prev
  }

  function Without(s: seq<nat>, k: nat): seq<nat>
    requires k < |s|
  {
    s[..k] + s[k + 1..]
  }

  lemma WithoutElements(s: seq<nat>, k: nat)
    requires k < |s| && NoDup(s)
    ensures NoDup(Without(s, k)) && forall x :: x in Without(s, k) <==> x in s && x != s[k]
  {
    assert s == s[..k] + [s[k]] + s[k + 1..];
  }

  function Inserted(s: seq<nat>, k: nat, x: nat): seq<nat>
    requires k <= |s|
  {
    s[..k] + [x] + s[k..]
  }

  lemma InsertedElements(s: seq<nat>, k: nat, x: nat)
    requires k <= |s| && NoDup(s) && x !in s
    ensures NoDup(Inserted(s, k, x)) && forall y :: y in Inserted(s, k, x) <==> y in s || y == x
  {
    assert s == s[..k] + s[k..];
  }

  /** Only links differ. */
  ghost predicate SameButLinks(elts: seq<Elt>, elts': seq<Elt>) {
    |elts'| == |elts| && forall k :: 0 <= k < |elts| ==>
        elts'[k].offset == elts[k].offset && elts'[k].free == elts[k].free
  }

  /** Linking around the k-th element takes it out of the chain. */
  lemma ChainWithout(elts: seq<Elt>, elts': seq<Elt>, c: seq<nat>, k: nat, head: nat, tail: nat, head': nat, tail': nat)
    requires Chain(elts, c, head, tail) && k < |c| && |c| > 1 && |elts'| == |elts|
    requires forall i :: 0 <= i < |c| && c[i] < |elts| && i != k ==>
               && elts'[c[i]].next == (if i + 1 == k then (if k + 1 < |c| then c[k + 1] - c[i] else 0)
                   else elts[c[i]].next)
               && elts'[c[i]].prev == (if i == k + 1 then (if k > 0 then c[k - 1] - c[i] else 0) else elts[c[i]].prev)
    requires head' == (if k == 0 then c[1] else head) && tail' == (if k + 1 == |c| then c[k - 1] else tail)
    ensures Chain(elts', Without(c, k), head', tail')
  {
    var d := Without(c, k);
    WithoutElements(c, k);
    forall i | 0 <= i < |d| ensures LinkAt(elts', d, i) {
      var j := if i < k then i else i + 1;
      assert LinkAt(elts, c, j) && d[i] == c[j];
      assert i + 1 < |d| ==> d[i + 1] == if i + 1 < k then c[i + 1] else c[i + 2];
      assert i > 0 ==> d[i - 1] == if i - 1 < k then c[i - 1] else c[i];
    }
  }

  /** Linking x in front of the k-th element, or after the last. */
  lemma ChainInserted(elts: seq<Elt>, elts': seq<Elt>, c: seq<nat>, k: nat, x: nat, head: nat, tail: nat, head': nat,
                      tail': nat)
    requires Chain(elts, c, head, tail) && k <= |c| && x !in c && x < |elts'| == |elts|
    requires forall i :: 0 <= i < |c| && c[i] < |elts| ==>
               && elts'[c[i]].next == (if i + 1 == k then x - c[i] else elts[c[i]].next)
               && elts'[c[i]].prev == (if i == k then x - c[i] else elts[c[i]].prev)
    requires elts'[x].next == (if k < |c| then c[k] - x else 0) && elts'[x].prev == (if k > 0 then c[k - 1] - x else 0)
    requires head' == (if k == 0 then x else head) && tail' == (if k == |c| then x else tail)
    ensures Chain(elts', Inserted(c, k, x), head', tail')
  {
    var d := Inserted(c, k, x);
    InsertedElements(c, k, x);
    forall i | 0 <= i < |d| ensures LinkAt(elts', d, i) {
      if i != k {
        var j := if i < k then i else i - 1;
        assert LinkAt(elts, c, j) && d[i] == c[j];
        assert i + 1 < |d| && i + 1 != k ==> d[i + 1] == if i + 1 < k then c[i + 1] else c[i];
        assert i > 0 && i - 1 != k ==> d[i - 1] == if i - 1 < k then c[i - 1] else c[i - 2];
      }
    }
  }

  /** The same, said of the whole vector. */
  lemma LinkedIn(elts: seq<Elt>, elts': seq<Elt>, c: seq<nat>, k: nat, x: nat, head: nat, tail: nat, head': nat,
                 tail': nat)
    requires Chain(elts, c, head, tail) && k <= |c| && x !in c && x < |elts'| == |elts|
    requires forall u :: 0 <= u < |elts| && u != x ==>
               && elts'[u].next == (if k > 0 && u == c[k - 1] then x - u else elts[u].next)
               && elts'[u].prev == (if k < |c| && u == c[k] then x - u else elts[u].prev)
    requires elts'[x].next == (if k < |c| then c[k] - x else 0) && elts'[x].prev == (if k > 0 then c[k - 1] - x else 0)
    requires head' == (if k == 0 then x else head) && tail' == (if k == |c| then x else tail)
    ensures Chain(elts', Inserted(c, k, x), head', tail')
  {
    forall i | 0 <= i < |c| && c[i] < |elts|
      ensures elts'[c[i]].next == (if i + 1 == k then x - c[i] else elts[c[i]].next)
      ensures elts'[c[i]].prev == (if i == k then x - c[i] else elts[c[i]].prev)
    {
      assert c[i] in c;
    }
    ChainInserted(elts, elts', c, k, x, head, tail, head', tail');
  }

  lemma ChainKept(elts: seq<Elt>, elts': seq<Elt>, c: seq<nat>, head: nat, tail: nat)
    requires Chain(elts, c, head, tail)
    requires forall i :: 0 <= i < |c| && c[i] < |elts| ==>
             c[i] < |elts'| && elts'[c[i]].next == elts[c[i]].next && elts'[c[i]].prev == elts[c[i]].prev
    ensures Chain(elts', c, head, tail)
  {
    forall i | 0 <= i < |c| ensures LinkAt(elts', c, i) {
      assert LinkAt(elts, c, i);
    }
  }

  /** The elements around the k-th one, found by its links. */
  lemma Around(elts: seq<Elt>, c: seq<nat>, head: nat, tail: nat, k: nat)
    requires Chain(elts, c, head, tail) && k < |c|
    ensures c[k] < |elts|
    ensures Next(elts, c[k]) == if k + 1 < |c| then c[k + 1] else c[k]
    ensures Prev(elts, c[k]) == if k > 0 then c[k - 1] else c[k]
    ensures k + 1 < |c| ==> c[k + 1] < |elts| && c[k + 1] != c[k]
    ensures k > 0 ==> c[k - 1] < |elts| && c[k - 1] != c[k]
  {
    assert LinkAt(elts, c, k);
    assert k + 1 < |c| ==> LinkAt(elts, c, k + 1);
    assert k > 0 ==> LinkAt(elts, c, k - 1);
  }

  /** Every index of the vector is in the chain, or waits to be used again, or is in hand; none is
      two of these. */
  ghost predicate Parted(n: nat, c: seq<nat>, recycled: seq<nat>, hand: set<nat>) {
    && NoDup(recycled)
    && (forall k :: k in c ==> k < n) && (forall k :: k in recycled ==> k < n && k !in c && k !in hand)
    && (forall k :: k in hand ==> k < n && k !in c)
    && forall k :: 0 <= k < n ==> k in c || k in recycled || k in hand
  }

  lemma PartedWithout(n: nat, c: seq<nat>, recycled: seq<nat>, k: nat)
    requires Parted(n, c, recycled, {}) && NoDup(c) && k < |c|
    ensures Parted(n, Without(c, k), recycled, {c[k]})
  {
    WithoutElements(c, k);
    assert c[k] in c;
  }

  lemma TakenParted(n: nat, c: seq<nat>, recycled: seq<nat>, e: nat)
    requires Parted(n, c, recycled + [e], {})
    ensures Parted(n, c, recycled, {e})
  {
    var r := recycled + [e];
    assert r[|recycled|] == e && e in r;
    forall k | k in recycled
      ensures k < n && k !in c && k != e
    {
      var i :| 0 <= i < |recycled| && recycled[i] == k;
      assert r[i] == k && k in r;
    }
    forall i, j | 0 <= i < j < |recycled|
      ensures recycled[i] != recycled[j]
    {
      assert r[i] == recycled[i] && r[j] == recycled[j];
    }
    forall k | 0 <= k < n
      ensures k in c || k in recycled || k == e
    {
      assert k in c || k in r;
    }
  }

  lemma PartedInserted(n: nat, c: seq<nat>, recycled: seq<nat>, k: nat, x: nat)
    requires Parted(n, c, recycled, {x}) && NoDup(c) && k <= |c|
    ensures Parted(n, Inserted(c, k, x), recycled, {})
  {
    InsertedElements(c, k, x);
  }

  // ---------- Where the list position of a free element is stored ----------

  /** In its own memory, or beside it when objects are too small. */
  ghost predicate StoredAt(elts: seq<Elt>, data: seq<nat>, small: seq<nat>, wide: bool, u: nat, pos: nat) {
    && u < |elts| && elts[u].free
    && if wide then elts[u].offset < |data| && data[elts[u].offset] == pos else u < |small| && small[u] == pos
  }

  ghost predicate Stored(elts: seq<Elt>, data: seq<nat>, small: seq<nat>, wide: bool, slots: map<nat, Slot>,
                         except: set<nat>) {
    forall u {:trigger slots[u]} :: u in slots && u !in except ==> StoredAt(elts, data, small, wide, u, slots[u].pos)
  }

  ghost predicate OffsetsDiffer(elts: seq<Elt>, slots: map<nat, Slot>, except: set<nat>) {
    forall u, v {:trigger slots[u], slots[v]} :: (u in slots && v in slots && u !in except && v !in except && u != v
      && u < |elts| && v < |elts|) ==> elts[u].offset != elts[v].offset
  }

  /** A place in memory that belongs to a free element. */
  ghost predicate FreePlace(elts: seq<Elt>, slots: map<nat, Slot>, except: set<nat>, x: nat) {
    exists u :: u in slots && u !in except && u < |elts| && elts[u].offset == x
  }

  /** Storing pos for t touches the memory of t only. */
  ghost predicate Stores(elts: seq<Elt>, data: seq<nat>, small: seq<nat>, data': seq<nat>, small': seq<nat>, wide: bool,
                         t: nat, pos: nat) {
    && StoredAt(elts, data', small', wide, t, pos) && t < |elts|
    && if wide then elts[t].offset < |data| && data' == data[elts[t].offset := pos]
       else |small'| >= |small| && forall k :: 0 <= k < |small| && k != t ==> small'[k] == small[k]
  }

  /** When the last element of the list has moved to the place of u and its new place is stored,
      all is well. */
  lemma MovedStored(elts: seq<Elt>, data: seq<nat>, small: seq<nat>, data': seq<nat>, small': seq<nat>, wide: bool,
                    lists: seq<seq<nat>>, slots: map<nat, Slot>, u: nat, except: set<nat>)
    requires ListsOk(lists, slots) && u in slots && Stored(elts, data, small, wide, slots, except) &&
             OffsetsDiffer(elts, slots, except)
    requires forall x :: x in except && x in slots ==> slots[x].bin != slots[u].bin
    requires slots[u].bin < |lists| && 0 < |lists[slots[u].bin]|
    requires var t := lists[slots[u].bin][|lists[slots[u].bin]| - 1];
             if t == u then data' == data && small' == small
                 else Stores(elts, data, small, data', small', wide, t, slots[u].pos)
    ensures Stored(elts, data', small', wide, Moved(lists, slots, u), except)
    ensures OffsetsDiffer(elts, Moved(lists, slots, u), except)
  {
    var m := Moved(lists, slots, u);
    var t := lists[slots[u].bin][|lists[slots[u].bin]| - 1];
    assert t in slots && slots[t].bin == slots[u].bin;
    forall v | v in m && v !in except ensures StoredAt(elts, data', small', wide, v, m[v].pos) {
      assert v in slots && slots[v] == slots[v];
      if v != t {
        assert m[v] == slots[v];
        assert StoredAt(elts, data, small, wide, v, slots[v].pos);
      }
    }
    forall v, w | v in m && w in m && v !in except && w !in except && v != w && v < |elts| && w < |elts|
      ensures elts[v].offset != elts[w].offset
    {
      assert slots[v] == slots[v] && slots[w] == slots[w];
    }
  }

  // ---------- Offsets and sizes ----------

  /** Where the i-th element of the chain ends. */
  function EndAt(elts: seq<Elt>, c: seq<nat>, len: nat, i: nat): nat
    requires i < |c|
  {
    if i + 1 < |c| && c[i + 1] < |elts| then elts[c[i + 1]].offset else len
  }

  function OffsetAt(elts: seq<Elt>, c: seq<nat>, i: nat): nat
    requires i < |c|
  {
    if c[i] < |elts| then elts[c[i]].offset else 0
  }

  function SizeAt(elts: seq<Elt>, c: seq<nat>, len: nat, i: nat): int
    requires i < |c|
  {
    EndAt(elts, c, len, i) - OffsetAt(elts, c, i)
  }

  ghost predicate FreeAt(elts: seq<Elt>, c: seq<nat>, i: nat)
    requires i < |c|
  {
    c[i] < |elts| && elts[c[i]].free
  }

  /** The i-th element has a size and, if it is free, is in the bin of that size. */
  ghost predicate EltOk(elts: seq<Elt>, c: seq<nat>, len: nat, slots: map<nat, Slot>, i: nat)
    requires i < |c|
  {
    && c[i] < |elts| && SizeAt(elts, c, len, i) > 0
    && (FreeAt(elts, c, i) <==> c[i] in slots)
    && (FreeAt(elts, c, i) ==> slots[c[i]].bin == SizeToBin(SizeAt(elts, c, len, i)))
  }

  /** The chain tiles the vector, and exactly its free elements are listed. */
  ghost predicate Tiles(elts: seq<Elt>, c: seq<nat>, len: nat, slots: map<nat, Slot>) {
    && c != [] && OffsetAt(elts, c, 0) == 0 && len < MAX_LEN
    && (forall i {:trigger EltOk(elts, c, len, slots, i)} :: 0 <= i < |c| ==> EltOk(elts, c, len, slots, i))
    && forall u {:trigger slots[u]} {:trigger u in slots} :: u in slots ==> u in c
  }

  lemma InVector(elts: seq<Elt>, c: seq<nat>, len: nat, slots: map<nat, Slot>)
    requires Tiles(elts, c, len, slots)
    ensures forall u :: u in c ==> u < |elts|
  {
    forall u | u in c ensures u < |elts| {
      var i :| 0 <= i < |c| && c[i] == u;
      assert EltOk(elts, c, len, slots, i);
    }
  }

  ghost predicate NotBothFree(elts: seq<Elt>, c: seq<nat>, i: nat) {
    i + 1 < |c| ==> !(FreeAt(elts, c, i) && FreeAt(elts, c, i + 1))
  }

  ghost predicate NoTwoFree(elts: seq<Elt>, c: seq<nat>) {
    forall i {:trigger NotBothFree(elts, c, i)} :: 0 <= i < |c| ==> NotBothFree(elts, c, i)
  }

  lemma {:induction false} OffsetsGrow(elts: seq<Elt>, c: seq<nat>, len: nat, slots: map<nat, Slot>, i: nat, j: nat)
    requires Tiles(elts, c, len, slots) && i < j <= |c|
    ensures OffsetAt(elts, c, i) < (if j < |c| then OffsetAt(elts, c, j) else len)
    ensures j < |c| ==> OffsetAt(elts, c, j) < len
    decreases |c| - i
  {
    assert EltOk(elts, c, len, slots, i);
    if i + 1 < |c| {
      assert EltOk(elts, c, len, slots, i + 1);
      OffsetsGrow(elts, c, len, slots, i + 1, |c|);
      if i + 1 < j {
        OffsetsGrow(elts, c, len, slots, i + 1, j);
        if j < |c| {
          OffsetsGrow(elts, c, len, slots, j, |c|);
        }
      }
    }
  }

  // ---------- What is allocated ----------

  datatype Obj = Obj(handle: nat, offset: nat, size: int)

  ghost function ObjAt(elts: seq<Elt>, c: seq<nat>, len: nat, i: nat): Obj
    requires i < |c|
  {
    Obj(c[i], OffsetAt(elts, c, i), SizeAt(elts, c, len, i))
  }

  ghost function Live(elts: seq<Elt>, c: seq<nat>, len: nat): set<Obj> {
    set i | 0 <= i < |c| && !FreeAt(elts, c, i) :: ObjAt(elts, c, len, i)
  }

  /** The memory of these objects has not changed. */
  ghost predicate Untouched(data: seq<nat>, data': seq<nat>, live: set<Obj>) {
    |data'| == |data| && forall o :: o in live ==> SameOver(data, data', o)
  }

  ghost predicate SameOver(data: seq<nat>, data': seq<nat>, o: Obj)
    requires |data'| == |data|
  {
    forall x: nat :: o.offset <= x < o.offset + o.size && x < |data| ==> data'[x] == data[x]
  }

  lemma UntouchedChain(a: seq<nat>, b: seq<nat>, d: seq<nat>, live: set<Obj>)
    requires Untouched(a, b, live) && Untouched(b, d, live)
    ensures Untouched(a, d, live)
  {
    forall o | o in live ensures SameOver(a, d, o) {
      assert SameOver(a, b, o) && SameOver(b, d, o);
    }
  }

  lemma FreeNotLive(elts: seq<Elt>, c: seq<nat>, len: nat, k: nat)
    requires NoDup(c) && k < |c| && FreeAt(elts, c, k)
    ensures ObjAt(elts, c, len, k) !in Live(elts, c, len)
  {
  }

  /** The place of a free element is in no live object. */
  lemma FreePlaceNotLive(elts: seq<Elt>, c: seq<nat>, len: nat, slots: map<nat, Slot>, x: nat, o: Obj)
    requires Tiles(elts, c, len, slots) && FreePlace(elts, slots, {}, x) && o in Live(elts, c, len)
    ensures x < len && !(o.offset <= x < o.offset + o.size)
  {
    var u :| u in slots && u < |elts| && elts[u].offset == x;
    assert slots[u] == slots[u];
    var i :| 0 <= i < |c| && c[i] == u;
    var k :| 0 <= k < |c| && !FreeAt(elts, c, k) && o == ObjAt(elts, c, len, k);
    assert EltOk(elts, c, len, slots, i) && EltOk(elts, c, len, slots, k);
    OffsetsGrow(elts, c, len, slots, i, |c|);
    assert k + 1 < |c| ==> EltOk(elts, c, len, slots, k + 1);
    if i < k {
      OffsetsGrow(elts, c, len, slots, i, k);
    } else if k + 1 < i {
      OffsetsGrow(elts, c, len, slots, k + 1, i);
    }
  }

  lemma OneObject(elts: seq<Elt>, c: seq<nat>, len: nat)
    requires c == [0] && |elts| == 1 && !elts[0].free && elts[0].offset == 0
    ensures Live(elts, c, len) == {Obj(0, 0, len)} && |Live(elts, c, len)| == 1
  {
    assert ObjAt(elts, c, len, 0) == Obj(0, 0, len) && !FreeAt(elts, c, 0);
    assert Live(elts, c, len) == {Obj(0, 0, len)};
  }

  // ---------- Merging ----------

  /** The chain while blocks f of it, between p and s, are being deleted one by one, all but the
      j-th: g stands for that one, or (j == -1) for a new one in front. */
  function Middle(p: seq<nat>, f: seq<nat>, s: seq<nat>, g: nat, j: int, i: nat): seq<nat>
    requires i <= |f|
  {
    p + (if i > j then [g] else []) + f[i..] + s
  }

  lemma MiddleNext(p: seq<nat>, f: seq<nat>, s: seq<nat>, g: nat, j: int, i: nat)
    requires i < |f| && -1 <= j < |f| && (j >= 0 ==> f[j] == g)
    ensures i == j ==> Middle(p, f, s, g, j, i + 1) == Middle(p, f, s, g, j, i)
    ensures i != j ==>
              var k := |p| + if i > j then 1 else 0; var m := Middle(p, f, s, g, j, i);
              && k < |m| && m[k] == f[i] && Without(m, k) == Middle(p, f, s, g, j, i + 1)
              && (if k + 1 < |m| then m[k + 1] == (if i + 1 < |f| then f[i + 1] else s[0]) else i + 1 == |f| && s == [])
  {
    assert f[i..] == [f[i]] + f[i + 1..];
  }

  /** Blocks i0 up to i1 of the chain have become one free block g. */
  lemma Merged(elts: seq<Elt>, elts': seq<Elt>, c: seq<nat>, len: nat, slots: map<nat, Slot>, slots': map<nat, Slot>,
               i0: nat, i1: nat, g: nat)
    requires Tiles(elts, c, len, slots) && i0 < i1 < |c|
    requires var c' := c[..i0] + [g] + c[i1 + 1..];
             forall u :: u in c' && u != g ==>
                 u < |elts'| && u < |elts| && elts'[u].offset == elts[u].offset && elts'[u].free == elts[u].free
    requires g !in c[..i0] && g !in c[i1 + 1..]
    requires g < |elts'| && elts'[g].free && elts'[g].offset == OffsetAt(elts, c, i0)
    requires EndAt(elts, c, len, i1) > OffsetAt(elts, c, i0)
    requires g in slots' && slots'[g].bin == SizeToBin(EndAt(elts, c, len, i1) - OffsetAt(elts, c, i0))
    requires forall u :: u in slots' && u != g ==>
             u in slots && slots'[u].bin == slots[u].bin && (u in c[..i0] || u in c[i1 + 1..])
    requires forall u :: u in slots && (u in c[..i0] || u in c[i1 + 1..]) ==> u in slots'
    ensures Tiles(elts', c[..i0] + [g] + c[i1 + 1..], len, slots')
  {
    var c' := c[..i0] + [g] + c[i1 + 1..];
    forall i | 0 <= i < |c'| ensures EltOk(elts', c', len, slots', i) {
      if i < i0 {
        assert EltOk(elts, c, len, slots, i) && c'[i] == c[i] && c[i] in c[..i0];
        assert EltOk(elts, c, len, slots, i + 1);
        assert i + 1 < i0 ==> c'[i + 1] == c[i + 1] && c[i + 1] in c[..i0];
      } else if i > i0 {
        var o := i - i0 + i1;
        assert EltOk(elts, c, len, slots, o) && c'[i] == c[o] && c[o] in c[i1 + 1..];
        assert i + 1 < |c'| ==> c'[i + 1] == c[o + 1] && c[o + 1] in c[i1 + 1..] && EltOk(elts, c, len, slots, o + 1);
      } else {
        assert i + 1 < |c'| ==> c'[i + 1] == c[i1 + 1] && c[i1 + 1] in c[i1 + 1..];
        if i1 + 1 < |c| {
          assert EltOk(elts, c, len, slots, i1 + 1);
        }
      }
    }
    forall u | u in slots' ensures u in c' {
    }
  }
  /** The index in the new chain of one outside the merged blocks. */
  function NewIndex(t: nat, i0: nat, i1: nat): int {
    if t < i0 then t else t - i1 + i0
  }

  /** Nothing changes for elements outside the merged blocks. */
  lemma MergedSame(elts: seq<Elt>, elts': seq<Elt>, c: seq<nat>, len: nat, slots: map<nat, Slot>, i0: nat, i1: nat,
                   g: nat, t: nat)
    requires Tiles(elts, c, len, slots) && i0 < i1 < |c| && t < |c| && (t < i0 || t > i1)
    requires var c' := c[..i0] + [g] + c[i1 + 1..];
             forall u :: u in c' && u != g ==>
                 u < |elts'| && u < |elts| && elts'[u].offset == elts[u].offset && elts'[u].free == elts[u].free
    requires g !in c[..i0] && g !in c[i1 + 1..] && g < |elts'| && elts'[g].offset == OffsetAt(elts, c, i0)
    ensures var c' := c[..i0] + [g] + c[i1 + 1..]; var n := NewIndex(t, i0, i1);
            && 0 <= n < |c'| && c'[n] == c[t] && ObjAt(elts', c', len, n) == ObjAt(elts, c, len, t)
            && (FreeAt(elts', c', n) <==> FreeAt(elts, c, t))
  {
    var c' := c[..i0] + [g] + c[i1 + 1..];
    var n := NewIndex(t, i0, i1);
    assert EltOk(elts, c, len, slots, t);
    assert c'[n] == c[t] && (if t < i0 then c[t] in c[..i0] else c[t] in c[i1 + 1..]);
    if t + 1 < |c| {
      assert EltOk(elts, c, len, slots, t + 1);
      if t + 1 == i0 {
        assert c'[n + 1] == g;
      } else {
        assert c'[n + 1] == c[t + 1] && (if t < i0 then c[t + 1] in c[..i0] else c[t + 1] in c[i1 + 1..]);
      }
    }
  }

  lemma MergedLive(elts: seq<Elt>, elts': seq<Elt>, c: seq<nat>, len: nat, slots: map<nat, Slot>, i0: nat, i1: nat,
                   g: nat)
    requires Tiles(elts, c, len, slots) && i0 < i1 < |c|
    requires var c' := c[..i0] + [g] + c[i1 + 1..];
             forall u :: u in c' && u != g ==>
                 u < |elts'| && u < |elts| && elts'[u].offset == elts[u].offset && elts'[u].free == elts[u].free
    requires g !in c[..i0] && g !in c[i1 + 1..] && g < |elts'| && elts'[g].offset == OffsetAt(elts, c, i0) &&
             elts'[g].free
    requires forall t :: i0 <= t <= i1 ==> FreeAt(elts, c, t)
    ensures Live(elts', c[..i0] + [g] + c[i1 + 1..], len) == Live(elts, c, len)
  {
    var c' := c[..i0] + [g] + c[i1 + 1..];
    forall o | o in Live(elts, c, len) ensures o in Live(elts', c', len) {
      var t :| 0 <= t < |c| && !FreeAt(elts, c, t) && o == ObjAt(elts, c, len, t);
      MergedSame(elts, elts', c, len, slots, i0, i1, g, t);
      var n := NewIndex(t, i0, i1);
      assert !FreeAt(elts', c', n);
    }
    forall o | o in Live(elts', c', len) ensures o in Live(elts, c, len) {
      var n :| 0 <= n < |c'| && !FreeAt(elts', c', n) && o == ObjAt(elts', c', len, n);
      if n != i0 {
        MergedSame(elts, elts', c, len, slots, i0, i1, g, if n < i0 then n else n - i0 + i1);
      }
    }
  }

  lemma MergedApart(elts: seq<Elt>, elts': seq<Elt>, c: seq<nat>, len: nat, slots: map<nat, Slot>, i0: nat, i1: nat,
                    g: nat)
    requires Tiles(elts, c, len, slots) && i0 < i1 < |c|
    requires var c' := c[..i0] + [g] + c[i1 + 1..];
             forall u :: u in c' && u != g ==>
                 u < |elts'| && u < |elts| && elts'[u].offset == elts[u].offset && elts'[u].free == elts[u].free
    requires g !in c[..i0] && g !in c[i1 + 1..] && g < |elts'| && elts'[g].offset == OffsetAt(elts, c, i0)
    requires forall t :: 0 <= t < |c| && (t + 1 < i0 || t > i1) ==> NotBothFree(elts, c, t)
    requires i0 > 0 ==> !FreeAt(elts, c, i0 - 1)
    requires i1 + 1 < |c| ==> !FreeAt(elts, c, i1 + 1)
    ensures NoTwoFree(elts', c[..i0] + [g] + c[i1 + 1..])
  {
    var c' := c[..i0] + [g] + c[i1 + 1..];
    forall n | 0 <= n < |c'| ensures NotBothFree(elts', c', n) {
      var t := if n < i0 then n else n - i0 + i1;
      if n != i0 {
        MergedSame(elts, elts', c, len, slots, i0, i1, g, t);
      }
      if n + 1 < |c'| && n + 1 != i0 {
        MergedSame(elts, elts', c, len, slots, i0, i1, g, t + 1);
      }
      if n + 1 != i0 && n != i0 {
        assert NotBothFree(elts, c, t);
      }
    }
  }

  lemma ListedKept(elts: seq<Elt>, elts': seq<Elt>, data: seq<nat>, small: seq<nat>, wide: bool, slots: map<nat, Slot>,
                   except: set<nat>)
    requires Stored(elts, data, small, wide, slots, except) && OffsetsDiffer(elts, slots, except)
    requires forall u :: u in slots && u !in except ==>
             u < |elts'| && u < |elts| && elts'[u].offset == elts[u].offset && elts'[u].free == elts[u].free
    ensures Stored(elts', data, small, wide, slots, except) && OffsetsDiffer(elts', slots, except)
  {
    forall u | u in slots && u !in except ensures StoredAt(elts', data, small, wide, u, slots[u].pos) {
      assert StoredAt(elts, data, small, wide, u, slots[u].pos);
    }
  }

  /** u is off the lists, the others are in the bins where they were. */
  ghost predicate OneOff(slots: map<nat, Slot>, slots': map<nat, Slot>, u: nat) {
    && (forall x {:trigger slots'[x]} {:trigger x in slots'} :: x in slots' <==> x in slots && x != u)
    && (forall x {:trigger slots'[x]} :: x in slots' ==> slots'[x].bin == slots[x].bin)
    && (u in slots ==> forall x {:trigger slots'[x]} :: x in slots' && slots[x].bin != slots[u].bin ==>
        slots'[x] == slots[x])
  }

  /** The same are listed, but u is in bin b. */
  ghost predicate Rebinned(slots: map<nat, Slot>, slots': map<nat, Slot>, u: nat, b: nat) {
    && u in slots' && slots'[u].bin == b
    && (forall x {:trigger slots'[x]} {:trigger x in slots'} {:trigger x in slots} :: x in slots' <==> x in slots)
    && (forall x {:trigger slots'[x]} :: x in slots' && x != u ==> slots'[x].bin == slots[x].bin)
  }

  lemma MovedOff(lists: seq<seq<nat>>, slots: map<nat, Slot>, u: nat)
    requires ListsOk(lists, slots) && u in slots
    ensures OneOff(slots, Moved(lists, slots, u), u)
  {
    assert SlotOk(lists, slots, u);
    var b := slots[u].bin;
    assert lists[b][|lists[b]| - 1] in slots;
  }

  /** Listed are g and those of the original blocks that are left. */
  ghost predicate Remaining(slots: map<nat, Slot>, slots0: map<nat, Slot>, c: seq<nat>, g: nat) {
    && (forall u {:trigger slots[u]} {:trigger u in slots} :: u in slots ==>
        u in c && (u != g ==> u in slots0 && slots[u].bin == slots0[u].bin))
    && (forall u {:trigger u in slots0} :: u in slots0 && u in c ==> u in slots)
  }

  lemma RemainingLess(slots: map<nat, Slot>, slots': map<nat, Slot>, slots0: map<nat, Slot>, c: seq<nat>, k: nat,
                      g: nat)
    requires Remaining(slots, slots0, c, g) && k < |c| && NoDup(c) && OneOff(slots, slots', c[k])
    ensures Remaining(slots', slots0, Without(c, k), g)
  {
    WithoutElements(c, k);
  }

  ghost predicate SameElt(elts0: seq<Elt>, elts: seq<Elt>, u: nat) {
    u < |elts0| && u < |elts| && elts[u].offset == elts0[u].offset && elts[u].free == elts0[u].free
  }

  ghost predicate AllSame(elts0: seq<Elt>, elts: seq<Elt>, c: seq<nat>, except: set<nat>) {
    forall u {:trigger SameElt(elts0, elts, u)} :: u in c && u !in except ==> SameElt(elts0, elts, u)
  }

  lemma AllSameLess(elts0: seq<Elt>, elts: seq<Elt>, elts': seq<Elt>, c: seq<nat>, k: nat, except: set<nat>)
    requires AllSame(elts0, elts, c, except) && k < |c| && NoDup(c)
    requires forall u :: u in Without(c, k) ==> SameElt(elts, elts', u)
    ensures AllSame(elts0, elts', Without(c, k), except)
  {
    WithoutElements(c, k);
    forall u | u in Without(c, k) && u !in except ensures SameElt(elts0, elts', u) {
      assert SameElt(elts0, elts, u) && SameElt(elts, elts', u);
    }
  }

  /** A free place now was a free place to begin with. */
  lemma PlaceBefore(elts0: seq<Elt>, elts: seq<Elt>, c: seq<nat>, slots0: map<nat, Slot>, slots: map<nat, Slot>, g: nat,
                    except: set<nat>, x: nat)
    requires AllSame(elts0, elts, c, except) && Remaining(slots, slots0, c, g) && FreePlace(elts, slots, except, x)
    requires g in except || g in slots0
    ensures FreePlace(elts0, slots0, {}, x)
  {
    var u :| u in slots && u !in except && u < |elts| && elts[u].offset == x;
    assert SameElt(elts0, elts, u);
  }

  /** What combine_free_blocks notes about one of the blocks. */
  datatype Found = Found(index: nat, bin: nat, binIndex: nat)

  // ---------- Marking an element free ----------

  lemma MarkedTiles(elts: seq<Elt>, elts': seq<Elt>, c: seq<nat>, len: nat, slots: map<nat, Slot>,
                    slots': map<nat, Slot>, k: nat)
    requires Tiles(elts, c, len, slots) && NoDup(c) && k < |c| && c[k] < |elts| && !elts[c[k]].free
    requires elts' == elts[c[k] := elts[c[k]].(free := true)]
    requires SizeAt(elts, c, len, k) > 0 && c[k] in slots' && slots'[c[k]].bin == SizeToBin(SizeAt(elts, c, len, k))
    requires forall u :: u in slots' <==> u in slots || u == c[k]
    requires forall u :: u in slots ==> slots'[u] == slots[u]
    ensures Tiles(elts', c, len, slots')
    ensures forall i :: 0 <= i < |c| ==> ObjAt(elts', c, len, i) == ObjAt(elts, c, len, i)
    ensures forall i :: 0 <= i < |c| ==> (FreeAt(elts', c, i) <==> FreeAt(elts, c, i) || i == k)
  {
    forall i | 0 <= i < |c|
      ensures EltOk(elts', c, len, slots', i) && ObjAt(elts', c, len, i) == ObjAt(elts, c, len, i)
      ensures FreeAt(elts', c, i) <==> FreeAt(elts, c, i) || i == k
    {
      assert EltOk(elts, c, len, slots, i);
      assert i != k ==> c[i] != c[k];
    }
  }

  lemma MarkedLive(elts: seq<Elt>, elts': seq<Elt>, c: seq<nat>, len: nat, k: nat)
    requires NoDup(c) && k < |c| && !FreeAt(elts, c, k)
    requires forall i :: 0 <= i < |c| ==> ObjAt(elts', c, len, i) == ObjAt(elts, c, len, i)
    requires forall i :: 0 <= i < |c| ==> (FreeAt(elts', c, i) <==> FreeAt(elts, c, i) || i == k)
    ensures Live(elts', c, len) == Live(elts, c, len) - {ObjAt(elts, c, len, k)}
    ensures ObjAt(elts, c, len, k) in Live(elts, c, len)
  {
    forall o | o in Live(elts, c, len) && o != ObjAt(elts, c, len, k) ensures o in Live(elts', c, len) {
      var i :| 0 <= i < |c| && !FreeAt(elts, c, i) && o == ObjAt(elts, c, len, i);
      assert !FreeAt(elts', c, i);
    }
    forall o | o in Live(elts', c, len) ensures o in Live(elts, c, len) && o != ObjAt(elts, c, len, k) {
      var i :| 0 <= i < |c| && !FreeAt(elts', c, i) && o == ObjAt(elts', c, len, i);
      assert i != k && !FreeAt(elts, c, i) && c[i] != c[k];
    }
  }

  /** No listed element starts where one that is not listed does. */
  lemma OffsetNotListed(elts: seq<Elt>, c: seq<nat>, len: nat, slots: map<nat, Slot>, k: nat, u: nat)
    requires Tiles(elts, c, len, slots) && k < |c| && u in slots && c[k] !in slots
    ensures c[k] < |elts| && u < |elts| && elts[u].offset != elts[c[k]].offset && u != c[k]
  {
    assert u in c;
    var i :| 0 <= i < |c| && c[i] == u;
    assert EltOk(elts, c, len, slots, i) && EltOk(elts, c, len, slots, k);
    if i < k {
      OffsetsGrow(elts, c, len, slots, i, k);
    } else {
      OffsetsGrow(elts, c, len, slots, k, i);
    }
  }

  // ---------- Cutting an element in two ----------

  /** The chain d has two elements where c has its k-th, the first of size m; the others are as
      they were. */
  ghost predicate CutInTwo(elts0: seq<Elt>, elts: seq<Elt>, c: seq<nat>, d: seq<nat>, k: nat, m: nat) {
    && k < |c| && |d| == |c| + 1 && c[k] < |elts0| && d[k] < |elts| && d[k + 1] < |elts|
    && (forall i :: 0 <= i < k ==> d[i] == c[i] && SameElt(elts0, elts, c[i]))
    && (forall i :: k < i < |c| ==> d[i + 1] == c[i] && SameElt(elts0, elts, c[i]))
    && elts[d[k]].offset == elts0[c[k]].offset && elts[d[k + 1]].offset == elts0[c[k]].offset + m
    && (c[k] == d[k] || c[k] == d[k + 1])
  }

  /** Index i of c in d. */
  function AfterCut(i: nat, k: nat): nat {
    if i <= k then i else i + 1
  }

  /** What is left of the k-th element, and x before or after it. */
  lemma IsCut(elts0: seq<Elt>, elts: seq<Elt>, c: seq<nat>, k: nat, q: nat, x: nat, m: nat)
    requires NoDup(c) && k < |c| && (q == k || q == k + 1) && x !in c && x < |elts|
    requires forall i :: 0 <= i < |c| ==> c[i] < |elts0|
    requires forall i :: 0 <= i < |c| && i != k ==> SameElt(elts0, elts, c[i])
    requires c[k] < |elts| && elts[c[k]].offset == elts0[c[k]].offset + if q == k then m else 0
    requires elts[x].offset == elts0[c[k]].offset + if q == k then 0 else m
    ensures CutInTwo(elts0, elts, c, Inserted(c, q, x), k, m)
  {
    InsertedAt(c, q, x);
  }

  /** A free element cut in two; its index f stays with the first part, u is that of the other. */
  ghost predicate CutOnly(elts0: seq<Elt>, c0: seq<nat>, elts: seq<Elt>, c: seq<nat>, f: nat, u: nat, s: nat, k: nat) {
    forall o {:trigger Open(o)} :: Open(o) ==>
      && CutInTwo(elts0, elts, c0, c, k, s) && c[k] == c0[k] == f && c[k + 1] == u && u !in c0
      && FreeAt(elts0, c0, k) && FreeAt(elts, c, k) && !FreeAt(elts, c, k + 1)
  }

  lemma CutPieces(elts0: seq<Elt>, elts: seq<Elt>, c: seq<nat>, d: seq<nat>, len: nat, k: nat, m: nat)
    requires CutInTwo(elts0, elts, c, d, k, m)
    ensures ObjAt(elts, d, len, k) == Obj(d[k], OffsetAt(elts0, c, k), m)
    ensures ObjAt(elts, d, len, k + 1) == Obj(d[k + 1], OffsetAt(elts0, c, k) + m, SizeAt(elts0, c, len, k) - m)
  {
    assert k + 1 < |c| ==> d[k + 2] == c[k + 1] && SameElt(elts0, elts, c[k + 1]);
  }

  lemma CutOther(elts0: seq<Elt>, elts: seq<Elt>, c: seq<nat>, d: seq<nat>, len: nat, k: nat, m: nat, i: nat)
    requires CutInTwo(elts0, elts, c, d, k, m) && i < |c| && i != k
    ensures AfterCut(i, k) < |d| && d[AfterCut(i, k)] == c[i]
    ensures ObjAt(elts, d, len, AfterCut(i, k)) == ObjAt(elts0, c, len, i)
    ensures FreeAt(elts, d, AfterCut(i, k)) <==> FreeAt(elts0, c, i)
  {
    assert SameElt(elts0, elts, c[i]);
    assert i + 1 < |c| && i + 1 != k ==> SameElt(elts0, elts, c[i + 1]);
  }

  /** When the listed elements are in the bins of their sizes, the cut chain tiles the vector. */
  lemma CutTiles(elts0: seq<Elt>, elts: seq<Elt>, c: seq<nat>, d: seq<nat>, len: nat, k: nat, m: nat,
                 slots0: map<nat, Slot>, slots: map<nat, Slot>)
    requires CutInTwo(elts0, elts, c, d, k, m) && Tiles(elts0, c, len, slots0) && NoDup(d)
    requires 0 < m < SizeAt(elts0, c, len, k)
    requires !FreeAt(elts, d, k + 1) && d[k + 1] !in slots
    requires FreeAt(elts, d, k) <==> d[k] in slots
    requires d[k] in slots ==> slots[d[k]].bin == SizeToBin(m)
    requires forall u :: u in slots && u != d[k] ==> u in slots0
    requires forall i :: 0 <= i < |c| && i != k ==> (c[i] in slots <==> c[i] in slots0)
    requires forall i :: 0 <= i < |c| && i != k && c[i] in slots ==> slots[c[i]].bin == slots0[c[i]].bin
    ensures Tiles(elts, d, len, slots)
  {
    CutPieces(elts0, elts, c, d, len, k, m);
    forall i | 0 <= i < |d| ensures EltOk(elts, d, len, slots, i) {
      if i < k || i > k + 1 {
        var j := if i < k then i else i - 1;
        CutOther(elts0, elts, c, d, len, k, m, j);
        assert EltOk(elts0, c, len, slots0, j);
      }
    }
    assert k > 0 ==> d[0] == c[0] && SameElt(elts0, elts, c[0]);
    forall u | u in slots ensures u in d {
      if u != d[k] {
        assert slots0[u] == slots0[u] && u in c;
        var i :| 0 <= i < |c| && c[i] == u;
        if i != k {
          CutOther(elts0, elts, c, d, len, k, m, i);
        }
      }
    }
  }

  /** Of what is live only the k-th object has changed. */
  lemma CutLive(elts0: seq<Elt>, elts: seq<Elt>, c: seq<nat>, d: seq<nat>, len: nat, k: nat, m: nat)
    requires CutInTwo(elts0, elts, c, d, k, m) && NoDup(c)
    requires !FreeAt(elts, d, k + 1) && (FreeAt(elts, d, k) <==> FreeAt(elts0, c, k))
    ensures Live(elts, d, len) == Live(elts0, c, len) - {ObjAt(elts0, c, len, k)}
              + (if FreeAt(elts0, c, k) then {} else {ObjAt(elts, d, len, k)}) + {ObjAt(elts, d, len, k + 1)}
  {
    var live, live' := Live(elts0, c, len), Live(elts, d, len);
    forall o | o in live && o != ObjAt(elts0, c, len, k) ensures o in live' {
      var i :| 0 <= i < |c| && !FreeAt(elts0, c, i) && o == ObjAt(elts0, c, len, i);
      CutOther(elts0, elts, c, d, len, k, m, i);
    }
    forall o | o in live' && o != ObjAt(elts, d, len, k + 1) && o != ObjAt(elts, d, len, k)
      ensures o in live && o != ObjAt(elts0, c, len, k)
    {
      var i :| 0 <= i < |d| && !FreeAt(elts, d, i) && o == ObjAt(elts, d, len, i);
      var j := if i < k then i else i - 1;
      CutOther(elts0, elts, c, d, len, k, m, j);
      assert c[j] != c[k];
    }
    assert !FreeAt(elts, d, k) ==> ObjAt(elts, d, len, k) in live';
  }

  lemma CutNoTwoFree(elts0: seq<Elt>, elts: seq<Elt>, c: seq<nat>, d: seq<nat>, len: nat, k: nat, m: nat)
    requires CutInTwo(elts0, elts, c, d, k, m) && NoTwoFree(elts0, c)
    requires !FreeAt(elts, d, k + 1) && (FreeAt(elts, d, k) <==> FreeAt(elts0, c, k))
    ensures NoTwoFree(elts, d)
  {
    forall i | 0 <= i < |d| ensures NotBothFree(elts, d, i) {
      if i + 1 < |d| && i != k && i != k + 1 {
        var j := if i < k then i else i - 1;
        assert NotBothFree(elts0, c, j);
        CutOther(elts0, elts, c, d, len, k, m, j);
        if j + 1 != k {
          CutOther(elts0, elts, c, d, len, k, m, j + 1);
        }
      }
    }
  }

  // ---------- Marking an element used ----------

  lemma UsedTiles(elts: seq<Elt>, elts': seq<Elt>, c: seq<nat>, len: nat, slots: map<nat, Slot>, slots': map<nat, Slot>,
                  k: nat)
    requires Tiles(elts, c, len, slots) && NoDup(c) && k < |c| && c[k] < |elts|
    requires elts' == elts[c[k] := elts[c[k]].(free := false)] && OneOff(slots, slots', c[k])
    ensures Tiles(elts', c, len, slots')
    ensures forall i :: 0 <= i < |c| ==> ObjAt(elts', c, len, i) == ObjAt(elts, c, len, i)
    ensures forall i :: 0 <= i < |c| ==> (FreeAt(elts', c, i) <==> FreeAt(elts, c, i) && i != k)
  {
    forall i | 0 <= i < |c|
      ensures EltOk(elts', c, len, slots', i) && ObjAt(elts', c, len, i) == ObjAt(elts, c, len, i)
      ensures FreeAt(elts', c, i) <==> FreeAt(elts, c, i) && i != k
    {
      assert EltOk(elts, c, len, slots, i);
      assert i != k ==> c[i] != c[k];
    }
    forall u | u in slots' ensures u in c {
      assert u in slots && slots[u] == slots[u];
    }
  }

  lemma UsedLive(elts: seq<Elt>, elts': seq<Elt>, c: seq<nat>, len: nat, k: nat)
    requires NoDup(c) && k < |c| && FreeAt(elts, c, k) && NoTwoFree(elts, c)
    requires forall i :: 0 <= i < |c| ==> ObjAt(elts', c, len, i) == ObjAt(elts, c, len, i)
    requires forall i :: 0 <= i < |c| ==> (FreeAt(elts', c, i) <==> FreeAt(elts, c, i) && i != k)
    ensures Live(elts', c, len) == Live(elts, c, len) + {ObjAt(elts, c, len, k)}
    ensures forall o :: o in Live(elts, c, len) ==> o.handle != c[k]
    ensures NoTwoFree(elts', c)
  {
    forall o | o in Live(elts', c, len) && o != ObjAt(elts, c, len, k) ensures o in Live(elts, c, len) {
      var i :| 0 <= i < |c| && !FreeAt(elts', c, i) && o == ObjAt(elts', c, len, i);
      assert !FreeAt(elts, c, i);
    }
    forall o | o in Live(elts, c, len) ensures o in Live(elts', c, len) && o.handle != c[k] {
      var i :| 0 <= i < |c| && !FreeAt(elts, c, i) && o == ObjAt(elts, c, len, i);
      assert i != k && !FreeAt(elts', c, i) && c[i] != c[k];
    }
    assert !FreeAt(elts', c, k);
    forall i | 0 <= i < |c| ensures NotBothFree(elts', c, i) {
      assert NotBothFree(elts, c, i);
    }
  }

  // ---------- Growing the vector ----------

  lemma AppendedAt(elts0: seq<Elt>, elts: seq<Elt>, c: seq<nat>, len: nat, e: nat, size: nat, i: nat)
    requires forall j :: 0 <= j < |c| ==> SameElt(elts0, elts, c[j])
    requires e < |elts| && elts[e].offset == len && !elts[e].free && i <= |c|
    ensures ObjAt(elts, c + [e], len + size, i) == if i < |c| then ObjAt(elts0, c, len, i) else Obj(e, len, size)
    ensures FreeAt(elts, c + [e], i) <==> i < |c| && FreeAt(elts0, c, i)
  {
    if i < |c| {
      assert SameElt(elts0, elts, c[i]);
      assert i + 1 < |c| ==> SameElt(elts0, elts, c[i + 1]);
    }
  }

  lemma AppendedTiles(elts0: seq<Elt>, elts: seq<Elt>, c: seq<nat>, len: nat, slots: map<nat, Slot>, e: nat, size: nat)
    requires Tiles(elts0, c, len, slots) && NoTwoFree(elts0, c) && forall j :: 0 <= j < |c| ==>
             SameElt(elts0, elts, c[j])
    requires e < |elts| && elts[e].offset == len && !elts[e].free && e !in c && 0 < size && len + size < MAX_LEN
    ensures Tiles(elts, c + [e], len + size, slots) && NoTwoFree(elts, c + [e])
  {
    var d, total := c + [e], len + size;
    assert e !in slots;
    AppendedAt(elts0, elts, c, len, e, size, 0);
    forall i | 0 <= i < |d| ensures EltOk(elts, d, total, slots, i) {
      AppendedAt(elts0, elts, c, len, e, size, i);
      if i < |c| {
        assert SameElt(elts0, elts, c[i]) && EltOk(elts0, c, len, slots, i);
      }
    }
    forall i | 0 <= i < |d| ensures NotBothFree(elts, d, i) {
      AppendedAt(elts0, elts, c, len, e, size, i);
      if i < |c| {
        AppendedAt(elts0, elts, c, len, e, size, i + 1);
        assert NotBothFree(elts0, c, i);
      }
    }
    forall u | u in slots ensures u in d {
      assert slots[u] == slots[u] && u in c;
    }
    assert OffsetAt(elts, d, 0) == OffsetAt(elts0, c, 0);
  }

  lemma AppendedLive(elts0: seq<Elt>, elts: seq<Elt>, c: seq<nat>, len: nat, slots: map<nat, Slot>, e: nat, size: nat)
    requires forall j :: 0 <= j < |c| ==> SameElt(elts0, elts, c[j])
    requires e < |elts| && elts[e].offset == len && !elts[e].free && e !in c
    ensures Live(elts, c + [e], len + size) == Live(elts0, c, len) + {Obj(e, len, size)}
    ensures forall o :: o in Live(elts0, c, len) ==> o.handle != e
  {
    var d := c + [e];
    AppendedAt(elts0, elts, c, len, e, size, |c|);
    forall o | o in Live(elts0, c, len) ensures o in Live(elts, d, len + size) && o.handle != e {
      var i :| 0 <= i < |c| && !FreeAt(elts0, c, i) && o == ObjAt(elts0, c, len, i);
      AppendedAt(elts0, elts, c, len, e, size, i);
      assert c[i] in c;
    }
    forall o | o in Live(elts, d, len + size) && o != Obj(e, len, size) ensures o in Live(elts0, c, len) {
      var i :| 0 <= i < |d| && !FreeAt(elts, d, i) && o == ObjAt(elts, d, len + size, i);
      AppendedAt(elts0, elts, c, len, e, size, i);
    }
  }

  lemma PieceGone(before: set<Obj>, after: set<Obj>, o: Obj, rest: Obj, piece: Obj)
    requires piece !in before && piece != rest && after == before - {o} + {piece} + {rest} - {piece}
    ensures after == before - {o} + {rest}
  {
  }

  // ---------- Allocation sizes ----------

  /** What heap_alloc returns; Undefined when the search has read before the start of a list. */
  datatype Result = Failed | Undefined | Allocated(handle: nat, offset: nat)

  /** The alignment is rounded up to a power of two, and there is none below two. */
  function AlignBits(align: nat): nat {
    if align <= 1 then 0 else MaxLog2(align)
  }

  /** In so much there is room for an aligned object, wherever it is. */
  function AlignSize(size: nat, align: nat): nat {
    size + Pow2(AlignBits(align)) - 1
  }

  /** The room taken is the size and, if there is an alignment, one less than 2^k, the least power
      of two that is not less. */
  lemma RoomTaken(size: nat, align: nat) returns (k: nat)
    ensures align <= 1 ==> AlignSize(size, align) == size
    ensures align > 1 ==> align <= Pow2(k) < 2 * align && AlignSize(size, align) == size + Pow2(k) - 1
  {
    k := AlignBits(align);
    if align > 1 {
      MaxLog2Below(align, k);
    }
  }

  /** For every power of two up to the alignment, rounded up, the offset is a multiple of it. */
  ghost predicate AlignedTo(offset: nat, align: nat) {
    forall k {:trigger Pow2(k)} :: Pow2(k) < 2 * align ==> offset % Pow2(k) == 0
  }

  lemma AlignedMeans(offset: nat, align: nat)
    requires LowBits(offset, AlignBits(align)) == 0
    ensures AlignedTo(offset, align)
  {
    forall k {:trigger Pow2(k)} | Pow2(k) < 2 * align ensures offset % Pow2(k) == 0 {
      if align > 1 {
        MaxLog2Below(align, k);
        LowerBitsZero(offset, k, AlignBits(align));
      } else {
        assert Pow2(k) == 1;
      }
    }
  }

  /** Memory may have been added; that of these objects has not changed. */
  ghost predicate Kept(data: seq<nat>, data': seq<nat>, live: set<Obj>) {
    |data| <= |data'| && Untouched(data, data'[..|data|], live)
  }

  lemma KeptAll(data: seq<nat>, data': seq<nat>, live: set<Obj>)
    requires Untouched(data, data', live)
    ensures Kept(data, data', live)
  {
    assert data'[..|data|] == data';
  }

  lemma KeptThen(a: seq<nat>, b: seq<nat>, d: seq<nat>, live: set<Obj>, live': set<Obj>)
    requires Kept(a, b, live) && live <= live' && Untouched(b, d, live')
    ensures Kept(a, d, live)
  {
    forall o | o in live ensures SameOver(a, d[..|a|], o) {
      assert SameOver(a, b[..|a|], o) && SameOver(b, d, o);
    }
  }

  // ---------- Operations ----------

  /** What the search of the free lists finds; OutOfRange when it reads before the start of a list. */
  datatype Search = Nothing | Fitting(handle: nat) | OutOfRange

  class ObjectHeap {
    const wide: bool          // elt_bytes >= sizeof (u32)
    const maxLen: nat         // of the vector, if not zero
    var elts: seq<Elt>
    var recycled: seq<nat>
    var freeLists: seq<seq<nat>>
    var head: nat
    var tail: nat
    var usedCount: nat
    var len: nat
    var data: seq<nat>        // the first word of every object of memory
    var small: seq<nat>
    ghost var c: seq<nat>
    ghost var slots: map<nat, Slot>

    /** A heap as the first allocation leaves it: one object of the given size. */
    constructor (size: nat, wideObjects: bool, limit: nat)
      requires 0 < size < MAX_LEN && limit < MAX_LEN && (limit > 0 ==> size <= limit)
      ensures Valid() && fresh(this) && wide == wideObjects && maxLen == limit && len == size
      ensures c == [0] && Live(elts, c, len) == {Obj(0, 0, size)}
    {
      wide, maxLen := wideObjects, limit;
      elts, recycled, freeLists, small := [Elt(0, false, 0, 0)], [], [], [];
      head, tail, usedCount, len := 0, 0, 1, size;
      data := seq(size, _ => 0);
      c, slots := [0], map[];
      new;
      assert LinkAt(elts, c, 0) && EltOk(elts, c, len, slots, 0);
      OneObject(elts, c, len);
    }

    ghost predicate ChainOk(hand: set<nat>)
      reads this`elts, this`recycled, this`head, this`tail, this`c
    {
      Chain(elts, c, head, tail) && Parted(|elts|, c, recycled, hand)
    }

    /** elt_delete. */
    method EltDelete(e: nat, ghost k: nat)
      requires ChainOk({}) && k < |c| && c[k] == e && |c| > 1
      modifies this`elts, this`recycled, this`head, this`tail, this`c
      ensures ChainOk({}) && c == Without(old(c), k) && |elts| <= |old(elts)|
      ensures forall u :: u in c ==> SameElt(old(elts), elts, u)
    {
      Unlink(e, k);
      PartedWithout(|elts|, c, recycled, k);
      c := Without(c, k);
      Recycle(e);
    }

    /** The first half of elt_delete: link the elements around e to each other. */
    method Unlink(e: nat, ghost k: nat)
      requires Chain(elts, c, head, tail) && k < |c| && c[k] == e && |c| > 1
      modifies this`elts, this`head, this`tail
      ensures Chain(elts, Without(c, k), head, tail) && SameButLinks(old(elts), elts)
    {
      Around(elts, c, head, tail, k);
      var p, n := Prev(elts, e), Next(elts, e);
      if p == e {
        elts := elts[n := elts[n].(prev := 0)];
        head := n;
      } else if n == e {
        elts := elts[p := elts[p].(next := 0)];
        tail := p;
      } else {
        elts := elts[p := elts[p].(next := n - p)];
        elts := elts[n := elts[n].(prev := p - n)];
      }
      ChainWithout(old(elts), elts, c, k, old(head), old(tail), head, tail);
    }

    /** The second half of elt_delete: keep the index for later, or shorten the vector. */
    method Recycle(e: nat)
      requires ChainOk({e}) && e < |elts|
      modifies this`elts, this`recycled
      ensures ChainOk({}) && |elts| <= |old(elts)| && forall u :: u in c ==> u < |elts| && elts[u] == old(elts)[u]
    {
      if e < |elts| - 1 {
        recycled := recycled + [e];
      } else {
        elts := elts[..|elts| - 1];
        forall u | u in c ensures u < |elts| && elts[u] == old(elts)[u] {
          assert u != e;
        }
        ChainKept(old(elts), elts, c, head, tail);
      }
    }

    /** elt_new: an index to use, whose element may hold anything. */
    method EltNew() returns (e: nat)
      requires ChainOk({})
      modifies this`elts, this`recycled
      ensures ChainOk({e}) && e < |elts| && |old(elts)| <= |elts|
      ensures forall u :: 0 <= u < |old(elts)| ==> elts[u] == old(elts)[u]
    {
      if |recycled| > 0 {
        e := recycled[|recycled| - 1];
        recycled := recycled[..|recycled| - 1];
        assert old(recycled) == recycled + [e];
        TakenParted(|elts|, c, recycled, e);
      } else {
        e := |elts|;
        elts := elts + [Elt(0, false, 0, 0)];
        ChainKept(old(elts), elts, c, head, tail);
        assert Parted(|elts|, c, recycled, {e});
      }
    }

    /** elt_insert_before. */
    method EltInsertBefore(e: nat, x: nat, ghost k: nat)
      requires ChainOk({x}) && k < |c| && c[k] == e && x < |elts|
      modifies this`elts, this`head, this`c
      ensures ChainOk({}) && c == Inserted(old(c), k, x) && SameButLinks(old(elts), elts)
    {
      LinkBefore(e, x, k);
      PartedInserted(|elts|, c, recycled, k, x);
      c := Inserted(c, k, x);
    }

    method LinkBefore(e: nat, x: nat, ghost k: nat)
      requires Chain(elts, c, head, tail) && k < |c| && c[k] == e && x < |elts| && x !in c
      modifies this`elts, this`head
      ensures Chain(elts, Inserted(c, k, x), head, tail) && SameButLinks(old(elts), elts)
    {
      Around(elts, c, head, tail, k);
      var p := Prev(elts, e);
      if p == e {
        elts := elts[x := elts[x].(prev := 0)];
        elts := elts[x := elts[x].(next := e - x)];
        elts := elts[p := elts[p].(prev := x - p)];
        head := x;
      } else {
        elts := elts[x := elts[x].(prev := p - x)];
        elts := elts[x := elts[x].(next := e - x)];
        elts := elts[e := elts[e].(prev := x - e)];
        elts := elts[p := elts[p].(next := x - p)];
      }
      LinkedIn(old(elts), elts, c, k, x, old(head), tail, head, tail);
    }

    /** elt_insert_after. */
    method EltInsertAfter(e: nat, x: nat, ghost k: nat)
      requires ChainOk({x}) && k < |c| && c[k] == e && x < |elts|
      modifies this`elts, this`tail, this`c
      ensures ChainOk({}) && c == Inserted(old(c), k + 1, x) && SameButLinks(old(elts), elts)
    {
      LinkAfter(e, x, k);
      PartedInserted(|elts|, c, recycled, k + 1, x);
      c := Inserted(c, k + 1, x);
    }

    method LinkAfter(e: nat, x: nat, ghost k: nat)
      requires Chain(elts, c, head, tail) && k < |c| && c[k] == e && x < |elts| && x !in c
      modifies this`elts, this`tail
      ensures Chain(elts, Inserted(c, k + 1, x), head, tail) && SameButLinks(old(elts), elts)
    {
      Around(elts, c, head, tail, k);
      var n := Next(elts, e);
      if n == e {
        elts := elts[x := elts[x].(next := 0)];
        elts := elts[x := elts[x].(prev := e - x)];
        elts := elts[e := elts[e].(next := x - e)];
        tail := x;
      } else {
        elts := elts[x := elts[x].(prev := e - x)];
        elts := elts[x := elts[x].(next := n - x)];
        elts := elts[e := elts[e].(next := x - e)];
        elts := elts[n := elts[n].(prev := x - n)];
      }
      LinkedIn(old(elts), elts, c, k + 1, x, head, old(tail), head, tail);
    }

    /** set_free_elt. */
    method SetFreeElt(e: nat, pos: nat)
      requires e < |elts| && (wide ==> elts[e].offset < |data|)
      modifies this`elts, this`data, this`small
      ensures elts == old(elts)[e := old(elts)[e].(free := true)]
      ensures StoredAt(elts, data, small, wide, e, pos)
      ensures if wide then small == old(small) && data == old(data)[elts[e].offset := pos]
              else data == old(data) && |small| >= |old(small)| && forall k :: 0 <= k < |old(small)| && k != e ==>
                  small[k] == old(small)[k]
    {
      elts := elts[e := elts[e].(free := true)];
      if wide {
        data := data[elts[e].offset := pos];
      } else {
        if e >= |small| {
          small := small + seq(e + 1 - |small|, _ => 0);
        }
        small := small[e := pos];
      }
    }

    ghost predicate ListedOk(except: set<nat>)
      reads this`elts, this`freeLists, this`data, this`small, this`slots
    {
      && ListsOk(freeLists, slots) && Stored(elts, data, small, wide, slots, except) &&
          OffsetsDiffer(elts, slots, except)
    }

    /** remove_free_block. */
    method RemoveFreeBlock(b: nat, i: nat, ghost u: nat, ghost except: set<nat>)
      requires ListedOk(except) && u in slots && slots[u] == Slot(b, i)
      requires forall x :: x in except && x in slots ==> slots[x].bin != b
      modifies this`elts, this`freeLists, this`data, this`small, this`slots
      ensures ListedOk(except) && OneOff(old(slots), slots, u) && elts == old(elts)
      ensures |data| == |old(data)|
      ensures forall x :: 0 <= x < |data| && data[x] != old(data)[x] ==> FreePlace(elts, old(slots), except, x)
    {
      RemovedOk(freeLists, slots, u);
      MovedOff(freeLists, slots, u);
      var l := |freeLists[b]|;
      ghost var lists, n := freeLists, l - 1;
      ghost var lists' := lists[b := lists[b][i := lists[b][n]][..n]];
      assert ListsOk(lists', Moved(lists, slots, u));
      StoreMoved(b, i, u, except);
      if i < l - 1 {
        var t := freeLists[b][l - 1];
        freeLists := freeLists[b := freeLists[b][i := t]];
      }
      freeLists := freeLists[b := freeLists[b][..l - 1]];
      assert freeLists == lists';
      slots := Moved(lists, slots, u);
    }

    /** If u is not the last of its list, store for the last that it moves to u's place. */
    method StoreMoved(b: nat, i: nat, ghost u: nat, ghost except: set<nat>)
      requires ListedOk(except) && u in slots && slots[u] == Slot(b, i) && b < |freeLists| && i < |freeLists[b]|
      requires forall x :: x in except && x in slots ==> slots[x].bin != b
      modifies this`elts, this`data, this`small
      ensures elts == old(elts) && |data| == |old(data)|
      ensures Stored(elts, data, small, wide, Moved(freeLists, slots, u), except) &&
              OffsetsDiffer(elts, Moved(freeLists, slots, u), except)
      ensures forall x :: 0 <= x < |data| && data[x] != old(data)[x] ==> FreePlace(elts, slots, except, x)
    {
      var l := |freeLists[b]|;
      assert freeLists[b][l - 1] in slots && slots[freeLists[b][l - 1]] == Slot(b, l - 1);
      assert SlotOk(freeLists, slots, u);
      if i < l - 1 {
        var t := freeLists[b][l - 1];
        assert StoredAt(elts, data, small, wide, t, slots[t].pos);
        SetFreeElt(t, i);
        assert elts == old(elts);
      }
      MovedStored(elts, old(data), old(small), data, small, wide, freeLists, slots, u, except);
    }

    ghost predicate Sound()
      reads this`elts, this`recycled, this`freeLists, this`head, this`tail, this`len, this`data, this`small, this`c,
            this`slots
    {
      ChainOk({}) && Tiles(elts, c, len, slots) && ListedOk({}) && (wide ==> |data| == len)
    }

    /** The invariant that heap_validate spells out. */
    ghost predicate Valid()
      reads this
    {
      Sound() && NoTwoFree(elts, c) && usedCount == |Live(elts, c, len)| && maxLen < MAX_LEN
    }

    /** heap_elt_size. */
    method EltSize(e: nat, ghost k: nat) returns (size: int)
      requires Chain(elts, c, head, tail) && k < |c| && c[k] == e
      ensures size == SizeAt(elts, c, len, k) && e < |elts|
    {
      Around(elts, c, head, tail, k);
      var n := Next(elts, e);
      var nextOffset := if n != e then elts[n].offset else len;
      size := nextOffset - elts[e].offset;
    }

    /** get_free_elt. */
    method GetFreeElt(e: nat, ghost k: nat) returns (fi: nat, bin: nat)
      requires Chain(elts, c, head, tail) && k < |c| && c[k] == e && SizeAt(elts, c, len, k) > 0
      requires e in slots && StoredAt(elts, data, small, wide, e, slots[e].pos)
      ensures fi == slots[e].pos && bin == SizeToBin(SizeAt(elts, c, len, k))
    {
      var size := EltSize(e, k);
      bin := SizeToBin(size);
      fi := if wide then data[elts[e].offset] else small[e];
    }

    /** f describes the elements of the chain from the i0-th on. */
    ghost predicate AllFound(f: seq<Found>, i0: nat)
      requires i0 + |f| <= |c|
      reads this`c, this`slots
    {
      forall t {:trigger f[t]} :: 0 <= t < |f| ==> IsFound(f[t], c[i0 + t])
    }

    ghost predicate IsFound(x: Found, u: nat)
      reads this`slots
    {
      u in slots && x == Found(u, slots[u].bin, slots[u].pos)
    }

    /** The first loop of combine_free_blocks. */
    method Collect(e0: nat, e1: nat, ghost i0: nat, ghost i1: nat) returns (f: seq<Found>, total: nat)
      requires Sound() && i0 <= i1 < |c| && c[i0] == e0 && c[i1] == e1
      requires forall t :: i0 <= t <= i1 ==> FreeAt(elts, c, t)
      ensures |f| == i1 - i0 + 1 && total == EndAt(elts, c, len, i1) - OffsetAt(elts, c, i0)
      ensures AllFound(f, i0)
    {
      f, total := [], 0;
      var e := e0;
      while true
        invariant |f| <= i1 - i0 && e == c[i0 + |f|] && total == OffsetAt(elts, c, i0 + |f|) - OffsetAt(elts, c, i0)
        invariant AllFound(f, i0)
        decreases i1 - i0 - |f|
      {
        ghost var k := i0 + |f|;
        var x, size := CollectOne(e, k);
        f := f + [x];
        total := total + size;
        if e == e1 {
          break;
        }
        Around(elts, c, head, tail, k);
        e := Next(elts, e);
      }
    }

    method CollectOne(e: nat, ghost k: nat) returns (x: Found, size: nat)
      requires Sound() && k < |c| && c[k] == e && FreeAt(elts, c, k)
      ensures IsFound(x, e) && size == EndAt(elts, c, len, k) - OffsetAt(elts, c, k)
      ensures k + 1 < |c| ==> EndAt(elts, c, len, k) == OffsetAt(elts, c, k + 1)
    {
      assert EltOk(elts, c, len, slots, k) && slots[e] == slots[e];
      assert k + 1 < |c| ==> EltOk(elts, c, len, slots, k + 1);
      var ti, tb := GetFreeElt(e, k);
      assert SlotOk(freeLists, slots, e);
      x := Found(freeLists[tb][ti], tb, ti);
      size := EltSize(e, k);
    }

    /** While blocks f, between p and s, are deleted, all but the j-th: i of them have been looked
        at. */
    ghost predicate Mid(elts0: seq<Elt>, p: seq<nat>, f: seq<nat>, s: seq<nat>, slots0: map<nat, Slot>, data0: seq<nat>,
                        g: nat, gs: Slot, j: int, i: nat)
      requires i <= |f|
      reads this`elts, this`recycled, this`freeLists, this`head, this`tail, this`data, this`small, this`c, this`slots
    {
      forall k {:trigger Open(k)} :: Open(k) ==> Midway(elts0, p, f, s, slots0, data0, g, gs, j, i)
    }

    ghost predicate Midway(elts0: seq<Elt>, p: seq<nat>, f: seq<nat>, s: seq<nat>, slots0: map<nat, Slot>,
                           data0: seq<nat>, g: nat, gs: Slot, j: int, i: nat)
      requires i <= |f|
      reads this`elts, this`recycled, this`freeLists, this`head, this`tail, this`data, this`small, this`c, this`slots
    {
      && ChainOk({}) && c == Middle(p, f, s, g, j, i)
      && AllSame(elts0, elts, c, if j < 0 then {g} else {})
      && g in slots && slots[g] == gs
      && Remaining(slots, slots0, c, g)
      && ListedOk(if j < 0 then {g} else {})
      && |data| == |data0| && forall x :: 0 <= x < |data| && data[x] != data0[x] ==> FreePlace(elts0, slots0, {}, x)
    }

    /** The blocks to be merged, with what they were before. */
    ghost predicate ToMerge(elts0: seq<Elt>, p: seq<nat>, f: seq<nat>, s: seq<nat>, slots0: map<nat, Slot>, g: nat,
                            j: int)
      reads this`len
    {
      && Tiles(elts0, p + f + s, len, slots0) && NoDup(p + f + s) && |f| > 1
      && -1 <= j < |f| && (j >= 0 ==> f[j] == g && g in slots0) && (j < 0 ==> g !in p + f + s)
    }

    /** Delete one of the blocks. */
    method DeleteOne(e: nat, ghost elts0: seq<Elt>, ghost p: seq<nat>, ghost f: seq<nat>, ghost s: seq<nat>,
                     ghost slots0: map<nat, Slot>,
                     ghost data0: seq<nat>, ghost g: nat, ghost gs: Slot, ghost j: int, ghost i: nat)
      requires ToMerge(elts0, p, f, s, slots0, g, j) && i < |f| && j != i && e == f[i] && e != g
      requires Mid(elts0, p, f, s, slots0, data0, g, gs, j, i) && e in slots0 && slots0[e].bin != gs.bin
      modifies this`elts, this`recycled, this`freeLists, this`head, this`tail, this`data, this`small, this`c, this`slots
      ensures Mid(elts0, p, f, s, slots0, data0, g, gs, j, i + 1)
    {
      ghost var k := |p| + if i > j then 1 else 0;
      ghost var except := if j < 0 then {g} else {};
      AtPosition(elts0, p, f, s, slots0, data0, g, gs, j, i, k);
      SameSize(elts0, p, f, s, slots0, data0, g, gs, j, i, k);
      SoFar(elts0, p, f, s, slots0, data0, g, gs, j, i);
      MiddleNext(p, f, s, g, j, i);
      Drop(e, elts0, slots0, data0, g, gs, except, k);
      Assemble(elts0, p, f, s, slots0, data0, g, gs, j, i + 1);
    }

    /** Off its list, and out of the chain. */
    method Drop(e: nat, ghost elts0: seq<Elt>, ghost slots0: map<nat, Slot>, ghost data0: seq<nat>, ghost g: nat,
                ghost gs: Slot, ghost except: set<nat>, ghost k: nat)
      requires ChainOk({}) && k < |c| && c[k] == e && |c| > 1 && SizeAt(elts, c, len, k) > 0 && ListedOk(except) &&
               except <= {g}
      requires e in slots && slots[e].bin == SizeToBin(SizeAt(elts, c, len, k)) &&
               StoredAt(elts, data, small, wide, e, slots[e].pos)
      requires g in slots && slots[g] == gs && g != e && gs.bin != slots[e].bin
      requires AllSame(elts0, elts, c, except) && Remaining(slots, slots0, c, g) && (g in except || g in slots0)
      requires |data| == |data0| && forall x :: 0 <= x < |data| && data[x] != data0[x] ==>
               FreePlace(elts0, slots0, {}, x)
      modifies this`elts, this`recycled, this`freeLists, this`head, this`tail, this`data, this`small, this`c, this`slots
      ensures ChainOk({}) && c == Without(old(c), k) && AllSame(elts0, elts, c, except) && ListedOk(except) &&
              Remaining(slots, slots0, c, g)
      ensures g in slots && slots[g] == gs
      ensures |data| == |data0| && forall x :: 0 <= x < |data| && data[x] != data0[x] ==>
              FreePlace(elts0, slots0, {}, x)
    {
      ghost var slots1 := slots;
      DropFromList(e, elts0, slots0, data0, g, except, k);
      OthersStay(slots1, e, g, gs);
      DropFromChain(e, elts0, slots1, slots0, g, except, k);
    }

    lemma SoFar(elts0: seq<Elt>, p: seq<nat>, f: seq<nat>, s: seq<nat>, slots0: map<nat, Slot>, data0: seq<nat>, g: nat,
                gs: Slot, j: int, i: nat)
      requires i <= |f| && Mid(elts0, p, f, s, slots0, data0, g, gs, j, i)
      ensures ChainOk({}) && c == Middle(p, f, s, g, j, i) && AllSame(elts0, elts, c, if j < 0 then {g} else {})
      ensures g in slots && slots[g] == gs && Remaining(slots, slots0, c, g) && ListedOk(if j < 0 then {g} else {})
      ensures |data| == |data0| && forall x :: 0 <= x < |data| && data[x] != data0[x] ==>
              FreePlace(elts0, slots0, {}, x)
    {
      assert Open(0);
    }

    lemma Assemble(elts0: seq<Elt>, p: seq<nat>, f: seq<nat>, s: seq<nat>, slots0: map<nat, Slot>, data0: seq<nat>,
                   g: nat, gs: Slot, j: int, i: nat)
      requires i <= |f| && ChainOk({}) && c == Middle(p, f, s, g, j, i) &&
               AllSame(elts0, elts, c, if j < 0 then {g} else {})
      requires g in slots && slots[g] == gs && Remaining(slots, slots0, c, g) && ListedOk(if j < 0 then {g} else {})
      requires |data| == |data0| && forall x :: 0 <= x < |data| && data[x] != data0[x] ==>
               FreePlace(elts0, slots0, {}, x)
      ensures Mid(elts0, p, f, s, slots0, data0, g, gs, j, i)
    {
    }

    lemma OthersStay(slots1: map<nat, Slot>, e: nat, g: nat, gs: Slot)
      requires OneOff(slots1, slots, e) && e in slots1 && g in slots1 && slots1[g] == gs && g != e &&
               slots1[e].bin != gs.bin
      ensures g in slots && slots[g] == gs
    {
    }

    /** The remove_free_block of that, and what it keeps. */
    method DropFromList(e: nat, ghost elts0: seq<Elt>, ghost slots0: map<nat, Slot>, ghost data0: seq<nat>,
                        ghost g: nat, ghost except: set<nat>, ghost k: nat)
      requires ChainOk({}) && k < |c| && c[k] == e && SizeAt(elts, c, len, k) > 0 && ListedOk(except)
      requires e in slots && slots[e].bin == SizeToBin(SizeAt(elts, c, len, k)) &&
               StoredAt(elts, data, small, wide, e, slots[e].pos)
      requires forall x :: x in except && x in slots ==> slots[x].bin != slots[e].bin
      requires AllSame(elts0, elts, c, except) && Remaining(slots, slots0, c, g) && (g in except || g in slots0)
      requires |data| == |data0| && forall x :: 0 <= x < |data| && data[x] != data0[x] ==>
               FreePlace(elts0, slots0, {}, x)
      modifies this`elts, this`freeLists, this`data, this`small, this`slots
      ensures ListedOk(except) && OneOff(old(slots), slots, e) && elts == old(elts)
      ensures |data| == |data0| && forall x :: 0 <= x < |data| && data[x] != data0[x] ==>
              FreePlace(elts0, slots0, {}, x)
    {
      var ti, tb := GetFreeElt(e, k);
      RemoveFreeBlock(tb, ti, e, except);
      forall x | 0 <= x < |data| && data[x] != data0[x] ensures FreePlace(elts0, slots0, {}, x) {
        if data[x] != old(data)[x] {
          PlaceBefore(elts0, elts, c, slots0, old(slots), g, except, x);
        }
      }
    }

    /** The elt_delete of that, and what it keeps. */
    method DropFromChain(e: nat, ghost elts0: seq<Elt>, ghost slots1: map<nat, Slot>, ghost slots0: map<nat, Slot>,
                         ghost g: nat, ghost except: set<nat>, ghost k: nat)
      requires ChainOk({}) && k < |c| && c[k] == e && |c| > 1 && AllSame(elts0, elts, c, except) && ListedOk(except)
      requires Remaining(slots1, slots0, c, g) && OneOff(slots1, slots, e)
      modifies this`elts, this`recycled, this`head, this`tail, this`c
      ensures ChainOk({}) && c == Without(old(c), k) && AllSame(elts0, elts, c, except) && ListedOk(except) &&
              Remaining(slots, slots0, c, g)
    {
      RemainingLess(slots1, slots, slots0, c, k, g);
      WithoutElements(c, k);
      EltDelete(e, k);
      AllSameLess(elts0, old(elts), elts, old(c), k, except);
      forall u | u in slots ensures u < |elts| && u < |old(elts)| && elts[u].offset == old(elts)[u].offset &&
          elts[u].free == old(elts)[u].free {
        assert SameElt(old(elts), elts, u);
      }
      ListedKept(old(elts), elts, data, small, wide, slots, except);
    }

    /** Where the next block to be deleted is in the chain. */
    lemma AtPosition(elts0: seq<Elt>, p: seq<nat>, f: seq<nat>, s: seq<nat>, slots0: map<nat, Slot>, data0: seq<nat>,
                     g: nat, gs: Slot, j: int, i: nat, k: nat)
      requires ToMerge(elts0, p, f, s, slots0, g, j) && i < |f| && j != i && f[i] != g
      requires Mid(elts0, p, f, s, slots0, data0, g, gs, j, i)
      requires k == |p| + if i > j then 1 else 0
      ensures k < |c| && |c| > 1 && c[k] == f[i]
      ensures if k + 1 < |c| then |p| + i + 1 < |p + f + s| && c[k + 1] == (p + f + s)[|p| + i + 1]
              else |p| + i + 1 == |p + f + s|
      ensures (p + f + s)[|p| + i] == f[i]
    {
      assert Open(0);
      MiddleNext(p, f, s, g, j, i);
      PartAt(p, f, s, i);
    }

    /** The size of a block to be deleted is still what it was. */
    lemma SameSize(elts0: seq<Elt>, p: seq<nat>, f: seq<nat>, s: seq<nat>, slots0: map<nat, Slot>, data0: seq<nat>,
                   g: nat, gs: Slot, j: int, i: nat, k: nat)
      requires ToMerge(elts0, p, f, s, slots0, g, j) && i < |f| && j != i && f[i] != g
      requires Mid(elts0, p, f, s, slots0, data0, g, gs, j, i) && f[i] in slots0
      requires k == |p| + if i > j then 1 else 0
      ensures k < |c| && c[k] == f[i] && c[k] in slots && slots[c[k]].bin == slots0[c[k]].bin
      ensures SizeAt(elts, c, len, k) > 0 && slots[c[k]].bin == SizeToBin(SizeAt(elts, c, len, k))
      ensures StoredAt(elts, data, small, wide, c[k], slots[c[k]].pos)
    {
      assert Open(0);
      var e := f[i];
      var c0 := p + f + s;
      AtPosition(elts0, p, f, s, slots0, data0, g, gs, j, i, k);
      assert EltOk(elts0, c0, len, slots0, |p| + i);
      assert SameElt(elts0, elts, e);
      if k + 1 < |c| {
        assert EltOk(elts0, c0, len, slots0, |p| + i + 1);
        assert SameElt(elts0, elts, c[k + 1]);
      }
      assert slots[e] == slots[e];
    }

    /** The t-th block was on a list and, unless it is to stay, not on the one of the result. */
    ghost predicate Deletable(fs: seq<Found>, f: seq<nat>, slots0: map<nat, Slot>, g: nat, bin: nat, j: int, t: nat)
      requires t < |f| == |fs|
    {
      fs[t].index == f[t] && f[t] in slots0 && (t != j ==> slots0[f[t]].bin != bin && f[t] != g)
    }

    ghost predicate AllDeletable(fs: seq<Found>, f: seq<nat>, slots0: map<nat, Slot>, g: nat, bin: nat, j: int) {
      |fs| == |f| && forall t {:trigger Deletable(fs, f, slots0, g, bin, j, t)} :: 0 <= t < |f| ==>
        Deletable(fs, f, slots0, g, bin, j, t)
    }

    /** The second loop of combine_free_blocks. */
    method DeleteOthers(fs: seq<Found>, g: nat, ghost elts0: seq<Elt>, ghost p: seq<nat>, ghost f: seq<nat>,
                        ghost s: seq<nat>,
                        ghost slots0: map<nat, Slot>, ghost data0: seq<nat>, ghost gs: Slot, ghost j: int)
      requires ToMerge(elts0, p, f, s, slots0, g, j) && Mid(elts0, p, f, s, slots0, data0, g, gs, j, 0) && |fs| == |f|
      requires AllDeletable(fs, f, slots0, g, gs.bin, j)
      modifies this`elts, this`recycled, this`freeLists, this`head, this`tail, this`data, this`small, this`c, this`slots
      ensures Mid(elts0, p, f, s, slots0, data0, g, gs, j, |f|)
    {
      var i := 0;
      while i < |fs|
        invariant i <= |fs| && Mid(elts0, p, f, s, slots0, data0, g, gs, j, i)
      {
        assert Deletable(fs, f, slots0, g, gs.bin, j, i);
        if g != fs[i].index {
          DeleteOne(fs[i].index, elts0, p, f, s, slots0, data0, g, gs, j, i);
        } else {
          Skip(elts0, p, f, s, slots0, data0, g, gs, j, i);
        }
        i := i + 1;
      }
    }

    lemma Skip(elts0: seq<Elt>, p: seq<nat>, f: seq<nat>, s: seq<nat>, slots0: map<nat, Slot>, data0: seq<nat>, g: nat,
               gs: Slot, j: int, i: nat)
      requires i < |f| && i == j && f[i] == g && Mid(elts0, p, f, s, slots0, data0, g, gs, j, i)
      ensures Mid(elts0, p, f, s, slots0, data0, g, gs, j, i + 1)
    {
      assert Open(0);
      MiddleNext(p, f, s, g, j, i);
    }

    /** When none of the blocks is in the bin of the result: a new element, linked in front. */
    method NewBlock(first: nat, b: nat, ghost p: seq<nat>, ghost f: seq<nat>, ghost s: seq<nat>)
      returns (g: nat, pos: nat)
      requires Sound() && c == p + f + s && f != [] && f[0] == first
      modifies this`elts, this`recycled, this`freeLists, this`head, this`c, this`slots
      ensures g !in p + f + s && Mid(old(elts), p, f, s, old(slots), old(data), g, Slot(b, pos), -1, 0)
      ensures f[0] < |elts| && f[0] < |old(elts)| && elts[f[0]].offset == old(elts)[f[0]].offset
    {
      g := LinkNew(first, |p|);
      assert g !in slots;
      pos := AddToList(g, b);
      NewBlockMid(old(elts), p, f, s, old(slots), g, Slot(b, pos));
      StillFirst(old(elts), p, f, s, old(slots), old(data), g, Slot(b, pos));
    }

    /** A new element in front of the k-th of the chain. */
    method LinkNew(first: nat, ghost k: nat) returns (g: nat)
      requires ChainOk({}) && k < |c| && c[k] == first
      modifies this`elts, this`recycled, this`head, this`c
      ensures ChainOk({}) && g !in old(c) && c == Inserted(old(c), k, g) && |old(elts)| <= |elts|
      ensures forall u :: 0 <= u < |old(elts)| && u != g ==>
              elts[u].offset == old(elts)[u].offset && elts[u].free == old(elts)[u].free
    {
      g := EltNew();
      EltInsertBefore(first, g, k);
    }

    /** Put an element at the end of the list of a bin. */
    method AddToList(g: nat, b: nat) returns (pos: nat)
      requires ListsOk(freeLists, slots) && g !in slots
      modifies this`freeLists, this`slots
      ensures ListsOk(freeLists, slots) && slots == old(slots)[g := Slot(b, pos)]
    {
      freeLists := WithBin(freeLists, b);
      WithBinOk(old(freeLists), b, slots);
      pos := |freeLists[b]|;
      AddedOk(freeLists, b, g, slots);
      freeLists := freeLists[b := freeLists[b] + [g]];
      slots := slots[g := Slot(b, pos)];
    }

    lemma NewBlockMid(elts0: seq<Elt>, p: seq<nat>, f: seq<nat>, s: seq<nat>, slots0: map<nat, Slot>, g: nat, gs: Slot)
      requires ChainOk({}) && c == Inserted(p + f + s, |p|, g) && g !in p + f + s && f != []
      requires Tiles(elts0, p + f + s, len, slots0) && slots == slots0[g := gs] && ListsOk(freeLists, slots)
      requires |elts0| <= |elts| && forall u :: 0 <= u < |elts0| && u != g ==>
               elts[u].offset == elts0[u].offset && elts[u].free == elts0[u].free
      requires Stored(elts0, data, small, wide, slots0, {}) && OffsetsDiffer(elts0, slots0, {})
      ensures Mid(elts0, p, f, s, slots0, data, g, gs, -1, 0)
    {
      assert c == Middle(p, f, s, g, -1, 0);
      InVector(elts0, p + f + s, len, slots0);
      forall u | u in c && u != g ensures SameElt(elts0, elts, u) {
        assert u in p + f + s;
      }
      forall u | u in slots && u != g ensures StoredAt(elts, data, small, wide, u, slots[u].pos) {
        assert StoredAt(elts0, data, small, wide, u, slots0[u].pos);
      }
      Assemble(elts0, p, f, s, slots0, data, g, gs, -1, 0);
    }

    /** Give the remaining block the space of all of them. */
    method Finish(g: nat, pos: nat, offset: nat, ghost elts0: seq<Elt>, ghost p: seq<nat>, ghost f: seq<nat>,
                  ghost s: seq<nat>,
                  ghost slots0: map<nat, Slot>, ghost data0: seq<nat>, ghost gs: Slot, ghost j: int)
      requires ToMerge(elts0, p, f, s, slots0, g, j) && Mid(elts0, p, f, s, slots0, data0, g, gs, j, |f|)
      requires offset == OffsetAt(elts0, p + f + s, |p|) < EndAt(elts0, p + f + s, len, |p| + |f| - 1) && f[0] in slots0
      requires gs == Slot(SizeToBin(EndAt(elts0, p + f + s, len, |p| + |f| - 1) - offset), pos)
      requires wide ==> |data0| == len
      modifies this`elts, this`data, this`small
      ensures Sound() && c == p + [g] + s && AllSame(elts0, elts, c, {g}) && g !in p && g !in s
      ensures g < |elts| && elts[g].free && elts[g].offset == offset
      ensures |data| == |data0| && forall x :: 0 <= x < |data| && data[x] != data0[x] ==>
              FreePlace(elts0, slots0, {}, x)
    {
      AllDeleted(elts0, p, f, s, slots0, data0, g, gs, j);
      FirstInside(elts0, p, f, s, slots0);
      GiveSpace(g, pos, offset, elts0, p, f, s, slots0, j);
      FinishTiles(elts0, p, f, s, slots0, g, j);
      forall x | 0 <= x < |data| && data[x] != data0[x] ensures FreePlace(elts0, slots0, {}, x) {
        if x == offset {
          assert f[0] in slots0 && f[0] < |elts0| && elts0[f[0]].offset == x;
        }
      }
    }

    lemma AllDeleted(elts0: seq<Elt>, p: seq<nat>, f: seq<nat>, s: seq<nat>, slots0: map<nat, Slot>, data0: seq<nat>,
                     g: nat, gs: Slot, j: int)
      requires ToMerge(elts0, p, f, s, slots0, g, j) && Mid(elts0, p, f, s, slots0, data0, g, gs, j, |f|)
      ensures ChainOk({}) && c == p + [g] + s && g !in p && g !in s && AllSame(elts0, elts, c, {g})
      ensures g in slots && slots[g] == gs && Remaining(slots, slots0, c, g) && ListedOk({g})
      ensures |data| == |data0| && forall x :: 0 <= x < |data| && data[x] != data0[x] ==>
              FreePlace(elts0, slots0, {}, x)
    {
      SoFar(elts0, p, f, s, slots0, data0, g, gs, j, |f|);
      FinishFacts(p, f, s, g, j);
    }

    method GiveSpace(g: nat, pos: nat, offset: nat, ghost elts0: seq<Elt>, ghost p: seq<nat>, ghost f: seq<nat>,
                     ghost s: seq<nat>,
                     ghost slots0: map<nat, Slot>, ghost j: int)
      requires ToMerge(elts0, p, f, s, slots0, g, j) && ChainOk({}) && c == p + [g] + s && AllSame(elts0, elts, c, {g})
      requires g in slots && slots[g].pos == pos && Remaining(slots, slots0, c, g) && ListedOk({g})
      requires offset == OffsetAt(elts0, p + f + s, |p|) < len && (wide ==> |data| == len)
      modifies this`elts, this`data, this`small
      ensures ChainOk({}) && ListedOk({}) && AllSame(elts0, elts, c, {g})
      ensures g < |elts| && elts[g].free && elts[g].offset == offset
      ensures |data| == |old(data)| && forall x :: 0 <= x < |data| && x != offset ==> data[x] == old(data)[x]
    {
      assert g in c;
      elts := elts[g := elts[g].(offset := offset)];
      SetFreeElt(g, pos);
      ChainKept(old(elts), elts, c, head, tail);
      FinishListed(old(elts), old(data), old(small), elts0, p, f, s, slots0, g, j, offset);
      forall u | u in c && u != g ensures SameElt(elts0, elts, u) {
        assert SameElt(elts0, old(elts), u);
      }
    }

    lemma FinishListed(elts1: seq<Elt>, data1: seq<nat>, small1: seq<nat>, elts0: seq<Elt>, p: seq<nat>, f: seq<nat>,
                       s: seq<nat>,
                       slots0: map<nat, Slot>, g: nat, j: int, offset: nat)
      requires ToMerge(elts0, p, f, s, slots0, g, j) && c == p + [g] + s && g in slots && g < |elts1| == |elts|
      requires Remaining(slots, slots0, c, g) && ListsOk(freeLists, slots) && AllSame(elts0, elts1, c, {g})
      requires Stored(elts1, data1, small1, wide, slots, {g}) && OffsetsDiffer(elts1, slots, {g})
      requires offset == OffsetAt(elts0, p + f + s, |p|) && elts == elts1[g := elts[g]] && elts[g].offset == offset
      requires StoredAt(elts, data, small, wide, g, slots[g].pos)
      requires if wide then small == small1 && offset < |data1| && data == data1[offset := slots[g].pos]
               else data == data1 && |small| >= |small1| && forall k :: 0 <= k < |small1| && k != g ==>
                   small[k] == small1[k]
      ensures ListedOk({})
    {
      forall u | u in slots && u != g ensures u < |elts| && elts[u] == elts1[u] && elts[u].offset != offset &&
          StoredAt(elts, data, small, wide, u, slots[u].pos) {
        assert SameElt(elts0, elts1, u);
        OtherOffset(elts0, p, f, s, slots0, g, u);
        assert StoredAt(elts1, data1, small1, wide, u, slots[u].pos);
      }
    }

    /** No other block of the chain starts where the merged ones do. */
    lemma OtherOffset(elts0: seq<Elt>, p: seq<nat>, f: seq<nat>, s: seq<nat>, slots0: map<nat, Slot>, g: nat, u: nat)
      requires Tiles(elts0, p + f + s, len, slots0) && f != [] && (u in p || u in s)
      ensures u < |elts0| && elts0[u].offset != OffsetAt(elts0, p + f + s, |p|)
    {
      var c0 := p + f + s;
      var i := if u in p then IndexOf(p, u) else |p| + |f| + IndexOf(s, u);
      assert c0[i] == u && EltOk(elts0, c0, len, slots0, i);
      if i < |p| {
        OffsetsGrow(elts0, c0, len, slots0, i, |p|);
      } else {
        OffsetsGrow(elts0, c0, len, slots0, |p|, i);
      }
    }

    lemma FirstInside(elts0: seq<Elt>, p: seq<nat>, f: seq<nat>, s: seq<nat>, slots0: map<nat, Slot>)
      requires Tiles(elts0, p + f + s, len, slots0) && f != []
      ensures f[0] < |elts0| && elts0[f[0]].offset == OffsetAt(elts0, p + f + s, |p|) < len
    {
      assert EltOk(elts0, p + f + s, len, slots0, |p|);
      OffsetsGrow(elts0, p + f + s, len, slots0, |p|, |p + f + s|);
    }

    lemma FinishTiles(elts0: seq<Elt>, p: seq<nat>, f: seq<nat>, s: seq<nat>, slots0: map<nat, Slot>, g: nat, j: int)
      requires ToMerge(elts0, p, f, s, slots0, g, j) && c == p + [g] + s && g !in p && g !in s
      requires AllSame(elts0, elts, c, {g}) && Remaining(slots, slots0, c, g)
      requires g < |elts| && elts[g].free &&
               elts[g].offset == OffsetAt(elts0, p + f + s, |p|) < EndAt(elts0, p + f + s, len, |p| + |f| - 1)
      requires g in slots && slots[g].bin == SizeToBin(EndAt(elts0, p + f + s, len, |p| + |f| - 1) - elts[g].offset)
      ensures Tiles(elts, c, len, slots)
    {
      var c0 := p + f + s;
      var i1 := |p| + |f| - 1;
      assert c0[..|p|] == p && c0[i1 + 1..] == s;
      forall u | u in c && u != g ensures u < |elts| && u < |elts0| && elts[u].offset == elts0[u].offset &&
          elts[u].free == elts0[u].free {
        assert SameElt(elts0, elts, u);
      }
      Merged(elts0, elts, c0, len, slots0, slots, |p|, i1, g);
    }

    /** Blocks f of the chain, between p and s, are free and no blocks next to them are. */
    ghost predicate Mergeable(p: seq<nat>, f: seq<nat>, s: seq<nat>)
      reads this`elts, this`recycled, this`freeLists, this`head, this`tail, this`len, this`data, this`small, this`c,
            this`slots
    {
      && Sound() && c == p + f + s && |f| > 1
      && (forall t {:trigger FreeAt(elts, c, t)} :: |p| <= t < |p| + |f| ==> FreeAt(elts, c, t))
      && (|p| > 0 ==> !FreeAt(elts, c, |p| - 1)) && (s != [] ==> !FreeAt(elts, c, |p| + |f|))
      && forall t {:trigger NotBothFree(elts, c, t)} :: 0 <= t < |c| && (t + 1 < |p| || t > |p| + |f| - 1) ==>
          NotBothFree(elts, c, t)
    }

    /** combine_free_blocks. */
    method Combine(e0: nat, e1: nat, ghost p: seq<nat>, ghost f: seq<nat>, ghost s: seq<nat>)
      requires Mergeable(p, f, s) && f[0] == e0 && f[|f| - 1] == e1
      modifies this`elts, this`recycled, this`freeLists, this`head, this`tail, this`data, this`small, this`c, this`slots
      ensures Sound() && NoTwoFree(elts, c) && Live(elts, c, len) == old(Live(elts, c, len))
      ensures Untouched(old(data), data, Live(elts, c, len))
    {
      ghost var i1 := |p| + |f| - 1;
      ghost var elts0, c0, slots0, data0 := elts, c, slots, data;
      FirstAndLast(p, f, s);
      var fs, total := Collect(e0, e1, |p|, i1);
      var g, pos, offset;
      ghost var j;
      var b := SizeToBin(total);
      assert ResultBin(b, p, f);
      g, pos, offset, j := Choose(fs, b, p, f, s);
      ghost var gs := Slot(b, pos);
      DeleteOthers(fs, g, elts0, p, f, s, slots0, data0, gs, j);
      Finish(g, pos, offset, elts0, p, f, s, slots0, data0, gs, j);
      Combined(elts0, p, f, s, slots0, g);
      OnlyFreePlaces(elts0, c0, slots0, data0);
    }

    lemma FirstAndLast(p: seq<nat>, f: seq<nat>, s: seq<nat>)
      requires Mergeable(p, f, s)
      ensures c[|p|] == f[0] && c[|p| + |f| - 1] == f[|f| - 1] && f[0] in slots
      ensures EndAt(elts, c, len, |p| + |f| - 1) > OffsetAt(elts, c, |p|)
    {
      TotalPositive(p, f, s);
      assert FreeAt(elts, c, |p|) && EltOk(elts, c, len, slots, |p|);
    }

    lemma OnlyFreePlaces(elts0: seq<Elt>, c0: seq<nat>, slots0: map<nat, Slot>, data0: seq<nat>)
      requires Tiles(elts0, c0, len, slots0) && |data| == |data0|
      requires forall x :: 0 <= x < |data| && data[x] != data0[x] ==> FreePlace(elts0, slots0, {}, x)
      ensures Untouched(data0, data, Live(elts0, c0, len))
    {
      forall o | o in Live(elts0, c0, len) ensures SameOver(data0, data, o) {
        forall x: nat | o.offset <= x < o.offset + o.size && x < |data0| ensures data[x] == data0[x] {
          if data[x] != data0[x] {
            FreePlaceNotLive(elts0, c0, len, slots0, x, o);
          }
        }
      }
    }

    lemma TotalPositive(p: seq<nat>, f: seq<nat>, s: seq<nat>)
      requires Tiles(elts, c, len, slots) && c == p + f + s && f != []
      ensures EndAt(elts, c, len, |p| + |f| - 1) > OffsetAt(elts, c, |p|)
      ensures f[0] < |elts| && f[0] == c[|p|]
    {
      var i1 := |p| + |f| - 1;
      assert EltOk(elts, c, len, slots, |p|) && EltOk(elts, c, len, slots, i1);
      if |p| < i1 {
        OffsetsGrow(elts, c, len, slots, |p|, i1);
      }
    }

    /** The bin of what the blocks f make together. */
    ghost predicate ResultBin(b: nat, p: seq<nat>, f: seq<nat>)
      reads this`elts, this`c, this`len
    {
      && f != [] && |p| + |f| <= |c|
      && EndAt(elts, c, len, |p| + |f| - 1) > OffsetAt(elts, c, |p|)
      && b == SizeToBin(EndAt(elts, c, len, |p| + |f| - 1) - OffsetAt(elts, c, |p|))
    }

    /** Which block stays, and where it is on its list: one that is in the bin of the result
        already, or a new one. */
    method Choose(fs: seq<Found>, b: nat, ghost p: seq<nat>, ghost f: seq<nat>, ghost s: seq<nat>)
      returns (g: nat, pos: nat, offset: nat, ghost j: int)
      requires Mergeable(p, f, s) && |fs| == |f| && AllFound(fs, |p|)
      requires ResultBin(b, p, f)
      modifies this`elts, this`recycled, this`freeLists, this`head, this`c, this`slots
      ensures ToMerge(old(elts), p, f, s, old(slots), g, j) &&
              Mid(old(elts), p, f, s, old(slots), data, g, Slot(b, pos), j, 0)
      ensures AllDeletable(fs, f, old(slots), g, b, j)
      ensures offset == OffsetAt(old(elts), p + f + s, |p|)
    {
      FoundAre(fs, p, f, s);
      var i := FirstInBin(fs, b);
      assert Mergeable(p, f, s) && ResultBin(b, p, f);
      if i < |fs| {
        g, pos, j := fs[i].index, fs[i].binIndex, i;
        UseExisting(fs, b, p, f, s, i, g, pos);
      } else {
        g, pos := ChooseNew(fs, b, p, f, s);
        j := -1;
      }
      offset := elts[fs[0].index].offset;
    }

    method ChooseNew(fs: seq<Found>, b: nat, ghost p: seq<nat>, ghost f: seq<nat>, ghost s: seq<nat>)
      returns (g: nat, pos: nat)
      requires Mergeable(p, f, s) && |fs| == |f| && forall t :: 0 <= t < |f| ==> IsFound(fs[t], f[t])
      requires forall t :: 0 <= t < |fs| ==> fs[t].bin != b
      modifies this`elts, this`recycled, this`freeLists, this`head, this`c, this`slots
      ensures ToMerge(old(elts), p, f, s, old(slots), g, -1)
      ensures Mid(old(elts), p, f, s, old(slots), data, g, Slot(b, pos), -1, 0)
      ensures AllDeletable(fs, f, old(slots), g, b, -1)
      ensures f[0] < |elts| && elts[f[0]].offset == OffsetAt(old(elts), p + f + s, |p|) && fs[0].index == f[0]
    {
      assert IsFound(fs[0], f[0]);
      ghost var slots0 := slots;
      g, pos := NewBlock(fs[0].index, b, p, f, s);
      AllToDelete(fs, b, f, slots0, g, p + f + s);
    }

    method FirstInBin(fs: seq<Found>, b: nat) returns (i: nat)
      ensures i <= |fs| && (forall t :: 0 <= t < i ==> fs[t].bin != b) && (i < |fs| ==> fs[i].bin == b)
    {
      i := 0;
      while i < |fs| && fs[i].bin != b
        invariant i <= |fs| && forall t :: 0 <= t < i ==> fs[t].bin != b
      {
        i := i + 1;
      }
    }

    /** No block is in the bin of the result. */
    lemma AllToDelete(fs: seq<Found>, b: nat, f: seq<nat>, slots0: map<nat, Slot>, g: nat, c0: seq<nat>)
      requires |fs| == |f| && (forall t :: 0 <= t < |fs| ==> fs[t].bin != b) && g !in c0
      requires forall t :: 0 <= t < |f| ==>
               f[t] in slots0 && fs[t] == Found(f[t], slots0[f[t]].bin, slots0[f[t]].pos) && f[t] in c0
      ensures AllDeletable(fs, f, slots0, g, b, -1)
    {
      forall t | 0 <= t < |f| ensures Deletable(fs, f, slots0, g, b, -1, t) {
        assert f[t] in c0;
      }
    }

    lemma FoundAre(fs: seq<Found>, p: seq<nat>, f: seq<nat>, s: seq<nat>)
      requires c == p + f + s && |fs| == |f| && AllFound(fs, |p|)
      ensures forall t :: 0 <= t < |f| ==> IsFound(fs[t], f[t])
    {
      forall t | 0 <= t < |f| ensures IsFound(fs[t], f[t]) {
        assert c[|p| + t] == f[t];
      }
    }

    lemma StillFirst(elts0: seq<Elt>, p: seq<nat>, f: seq<nat>, s: seq<nat>, slots0: map<nat, Slot>, data0: seq<nat>,
                     g: nat, gs: Slot)
      requires f != [] && g !in p + f + s && Mid(elts0, p, f, s, slots0, data0, g, gs, -1, 0)
      ensures f[0] < |elts| && f[0] < |elts0| && elts[f[0]].offset == elts0[f[0]].offset
    {
      assert Open(0);
      assert f[0] in f && f[0] in c;
      assert SameElt(elts0, elts, f[0]);
    }

    lemma StartExisting(p: seq<nat>, f: seq<nat>, s: seq<nat>, j: nat, gs: Slot)
      requires Mergeable(p, f, s) && j < |f| && f[j] in slots && slots[f[j]] == gs
      ensures ToMerge(elts, p, f, s, slots, f[j], j) && Mid(elts, p, f, s, slots, data, f[j], gs, j, 0)
    {
      assert Middle(p, f, s, f[j], j, 0) == p + f + s;
      InVector(elts, c, len, slots);
      Assemble(elts, p, f, s, slots, data, f[j], gs, j, 0);
    }

    /** The i-th block stays, if it is in the bin of the result. */
    lemma UseExisting(fs: seq<Found>, b: nat, p: seq<nat>, f: seq<nat>, s: seq<nat>, i: nat, g: nat, pos: nat)
      requires Mergeable(p, f, s) && c == p + f + s && |fs| == |f| && i < |f| && fs[i].bin == b
      requires g == fs[i].index && pos == fs[i].binIndex && forall t :: 0 <= t < |f| ==> IsFound(fs[t], f[t])
      requires ResultBin(b, p, f)
      ensures g == f[i] && ToMerge(elts, p, f, s, slots, g, i) && fs[0].index == f[0]
      ensures f[0] < |elts| && elts[f[0]].offset == OffsetAt(elts, p + f + s, |p|)
      ensures Mid(elts, p, f, s, slots, data, g, Slot(b, pos), i, 0)
      ensures AllDeletable(fs, f, slots, g, b, i)
    {
      assert IsFound(fs[i], f[i]) && IsFound(fs[0], f[0]);
      TotalPositive(p, f, s);
      NoneElse(fs, b, p, f, s, i);
      StartExisting(p, f, s, i, Slot(b, pos));
    }

    /** No other of the blocks is in the bin of the result. */
    lemma NoneElse(fs: seq<Found>, b: nat, p: seq<nat>, f: seq<nat>, s: seq<nat>, j: nat)
      requires Mergeable(p, f, s) && c == p + f + s && |fs| == |f| && j < |f| && fs[j].bin == b
      requires forall t :: 0 <= t < |f| ==> IsFound(fs[t], f[t])
      requires ResultBin(b, p, f)
      ensures AllDeletable(fs, f, slots, f[j], b, j)
    {
      forall t | 0 <= t < |f| ensures Deletable(fs, f, slots, f[j], b, j, t) {
        assert IsFound(fs[t], f[t]) && IsFound(fs[j], f[j]);
        if t != j {
          TwoBins(p, f, s, if t < j then t else j, if t < j then j else t);
        }
      }
    }

    lemma TwoBins(p: seq<nat>, f: seq<nat>, s: seq<nat>, t: nat, u: nat)
      requires Mergeable(p, f, s) && c == p + f + s && t < u < |f| && f[t] in slots && f[u] in slots
      requires EndAt(elts, c, len, |p| + |f| - 1) > OffsetAt(elts, c, |p|)
      ensures f[t] != f[u]
      ensures var b := SizeToBin(EndAt(elts, c, len, |p| + |f| - 1) - OffsetAt(elts, c, |p|));
              !(slots[f[t]].bin == b && slots[f[u]].bin == b)
    {
      var lo, hi := |p| + t, |p| + u;
      assert c[lo] == f[t] && c[hi] == f[u];
      TwoInside(lo, hi, |p|, |p| + |f| - 1);
      assert FreeAt(elts, c, lo) && FreeAt(elts, c, hi);
      if slots[f[t]].bin == slots[f[u]].bin {
        AtMostOneInBin(SizeAt(elts, c, len, lo), SizeAt(elts, c, len, hi),
            EndAt(elts, c, len, |p| + |f| - 1) - OffsetAt(elts, c, |p|));
      }
    }

    lemma TwoInside(lo: nat, hi: nat, i0: nat, i1: nat)
      requires Tiles(elts, c, len, slots) && i0 <= lo < hi <= i1 < |c|
      ensures SizeAt(elts, c, len, lo) > 0 && SizeAt(elts, c, len, hi) > 0
      ensures SizeAt(elts, c, len, lo) + SizeAt(elts, c, len, hi) <= EndAt(elts, c, len, i1) - OffsetAt(elts, c,
              i0) < MAX_LEN
      ensures FreeAt(elts, c, lo) ==> c[lo] in slots && slots[c[lo]].bin == SizeToBin(SizeAt(elts, c, len, lo))
      ensures FreeAt(elts, c, hi) ==> c[hi] in slots && slots[c[hi]].bin == SizeToBin(SizeAt(elts, c, len, hi))
    {
      assert EltOk(elts, c, len, slots, lo) && EltOk(elts, c, len, slots, hi) && EltOk(elts, c, len, slots, lo + 1) &&
          EltOk(elts, c, len, slots, i1);
      assert hi + 1 < |c| ==> EltOk(elts, c, len, slots, hi + 1);
      assert i1 + 1 < |c| ==> EltOk(elts, c, len, slots, i1 + 1);
      if i0 < lo {
        OffsetsGrow(elts, c, len, slots, i0, lo);
      }
      if lo + 1 < hi {
        OffsetsGrow(elts, c, len, slots, lo + 1, hi);
      }
      if hi + 1 < i1 + 1 {
        OffsetsGrow(elts, c, len, slots, hi + 1, i1 + 1);
      }
      if i1 + 1 < |c| {
        OffsetsGrow(elts, c, len, slots, i1 + 1, |c|);
      }
    }

    lemma Combined(elts0: seq<Elt>, p: seq<nat>, f: seq<nat>, s: seq<nat>, slots0: map<nat, Slot>, g: nat)
      requires Tiles(elts0, p + f + s, len, slots0) && |f| > 1 && c == p + [g] + s && g !in p && g !in s &&
               AllSame(elts0, elts, c, {g})
      requires g < |elts| && elts[g].free && elts[g].offset == OffsetAt(elts0, p + f + s, |p|)
      requires forall t {:trigger FreeAt(elts0, p + f + s, t)} :: |p| <= t < |p| + |f| ==> FreeAt(elts0, p + f + s, t)
      requires (|p| > 0 ==> !FreeAt(elts0, p + f + s, |p| - 1)) && (s != [] ==> !FreeAt(elts0, p + f + s, |p| + |f|))
      requires forall t {:trigger NotBothFree(elts0, p + f + s, t)} ::
                 0 <= t < |p + f + s| && (t + 1 < |p| || t > |p| + |f| - 1) ==> NotBothFree(elts0, p + f + s, t)
      ensures NoTwoFree(elts, c) && Live(elts, c, len) == Live(elts0, p + f + s, len)
    {
      var c0 := p + f + s;
      var i1 := |p| + |f| - 1;
      assert c0[..|p|] == p && c0[i1 + 1..] == s;
      forall u | u in c && u != g ensures u < |elts| && u < |elts0| && elts[u].offset == elts0[u].offset &&
          elts[u].free == elts0[u].free {
        assert SameElt(elts0, elts, u);
      }
      MergedLive(elts0, elts, c0, len, slots0, |p|, i1, g);
      MergedApart(elts0, elts, c0, len, slots0, |p|, i1, g);
    }

    /** The first part of dealloc_elt: the element is marked free and goes on a list. */
    method MarkFree(e: nat, ghost k: nat)
      requires Sound() && k < |c| && c[k] == e && !FreeAt(elts, c, k)
      modifies this`elts, this`freeLists, this`data, this`small, this`slots
      ensures Sound() && forall i :: 0 <= i < |c| ==> (FreeAt(elts, c, i) <==> FreeAt(old(elts), c, i) || i == k)
      ensures Live(elts, c, len) == old(Live(elts, c, len)) - {ObjAt(old(elts), c, len, k)}
      ensures ObjAt(old(elts), c, len, k) in old(Live(elts, c, len)) && Untouched(old(data), data, Live(elts, c, len))
    {
      assert EltOk(elts, c, len, slots, k);
      OffsetsGrow(elts, c, len, slots, k, |c|);
      var size := EltSize(e, k);
      var b := SizeToBin(size);
      ghost var slots0 := slots;
      var l := AddToList(e, b);
      SetFreeElt(e, l);
      MarkedTiles(old(elts), elts, c, len, slots0, slots, k);
      MarkedLive(old(elts), elts, c, len, k);
      MarkedListed(old(elts), old(data), old(small), slots0, k);
      ChainKept(old(elts), elts, c, head, tail);
      forall x | 0 <= x < |data| && data[x] != old(data)[x] ensures FreePlace(elts, slots, {}, x) {
        assert e in slots && elts[e].offset == x;
      }
      OnlyFreePlaces(elts, c, slots, old(data));
    }

    lemma MarkedListed(elts0: seq<Elt>, data0: seq<nat>, small0: seq<nat>, slots0: map<nat, Slot>, k: nat)
      requires k < |c| && Tiles(elts0, c, len, slots0) && c[k] < |elts0| && c[k] !in slots0 &&
               elts == elts0[c[k] := elts0[c[k]].(free := true)]
      requires Stored(elts0, data0, small0, wide, slots0, {}) && OffsetsDiffer(elts0, slots0, {})
      requires c[k] in slots && slots == slots0[c[k] := slots[c[k]]] && ListsOk(freeLists, slots)
      requires StoredAt(elts, data, small, wide, c[k], slots[c[k]].pos)
      requires if wide then elts0[c[k]].offset < |data0| && data == data0[elts0[c[k]].offset := slots[c[k]].pos]
               else data == data0 && |small| >= |small0| && forall i :: 0 <= i < |small0| && i != c[k] ==>
                   small[i] == small0[i]
      ensures ListedOk({})
    {
      forall u | u in slots0 ensures elts0[c[k]].offset != (if u < |elts0| then elts0[u].offset
          else elts0[c[k]].offset + 1) && StoredAt(elts, data, small, wide, u, slots[u].pos) {
        OffsetNotListed(elts0, c, len, slots0, k, u);
        assert StoredAt(elts0, data0, small0, wide, u, slots0[u].pos);
      }
    }

    /** dealloc_elt. */
    method DeallocElt(e: nat, ghost k: nat)
      requires Sound() && NoTwoFree(elts, c) && k < |c| && c[k] == e && !FreeAt(elts, c, k)
      modifies this`elts, this`recycled, this`freeLists, this`head, this`tail, this`data, this`small, this`c, this`slots
      ensures Sound() && NoTwoFree(elts, c)
      ensures Live(elts, c, len) == old(Live(elts, c, len)) - {old(ObjAt(elts, c, len, k))}
      ensures old(ObjAt(elts, c, len, k)) in old(Live(elts, c, len)) && Untouched(old(data), data, Live(elts, c, len))
    {
      MarkFree(e, k);
      ghost var data1 := data;
      MergeAround(e, k, old(elts));
      UntouchedChain(old(data), data1, data, Live(elts, c, len));
    }

    /** The second part: merge it with free blocks next to it. */
    method MergeAround(e: nat, ghost k: nat, ghost elts0: seq<Elt>)
      requires Sound() && k < |c| && c[k] == e && NoTwoFree(elts0, c)
      requires forall i :: 0 <= i < |c| ==> (FreeAt(elts, c, i) <==> FreeAt(elts0, c, i) || i == k)
      modifies this`elts, this`recycled, this`freeLists, this`head, this`tail, this`data, this`small, this`c, this`slots
      ensures Sound() && NoTwoFree(elts, c) && Live(elts, c, len) == old(Live(elts, c, len)) &&
              Untouched(old(data), data, Live(elts, c, len))
    {
      var p, n;
      ghost var i0, i1;
      p, n, i0, i1 := FreeNeighbours(e, k);
      Neighbourhood(elts0, k, i0, i1);
      if p != n {
        CombineFrom(p, n, i0, i1);
      }
    }

    method CombineFrom(e0: nat, e1: nat, ghost i0: nat, ghost i1: nat)
      requires Sound() && i0 < i1 < |c| && e0 == c[i0] && e1 == c[i1]
      requires forall t :: i0 <= t <= i1 ==> FreeAt(elts, c, t)
      requires (i0 > 0 ==> !FreeAt(elts, c, i0 - 1)) && (i1 + 1 < |c| ==> !FreeAt(elts, c, i1 + 1))
      requires forall t {:trigger NotBothFree(elts, c, t)} :: 0 <= t < |c| && (t + 1 < i0 || t > i1) ==>
               NotBothFree(elts, c, t)
      modifies this`elts, this`recycled, this`freeLists, this`head, this`tail, this`data, this`small, this`c, this`slots
      ensures Sound() && NoTwoFree(elts, c) && Live(elts, c, len) == old(Live(elts, c, len)) &&
              Untouched(old(data), data, Live(elts, c, len))
    {
      ghost var before, f, after := c[..i0], c[i0..i1 + 1], c[i1 + 1..];
      ThreeParts(c, i0, i1, before, f, after);
      Cut(i0, i1, before, f, after);
      Combine(e0, e1, before, f, after);
    }

    /** The first and the last of the free elements around e. */
    method FreeNeighbours(e: nat, ghost k: nat) returns (p: nat, n: nat, ghost i0: nat, ghost i1: nat)
      requires Chain(elts, c, head, tail) && k < |c| && c[k] == e
      ensures i0 == if k > 0 && FreeAt(elts, c, k - 1) then k - 1 else k
      ensures i1 == if k + 1 < |c| && FreeAt(elts, c, k + 1) then k + 1 else k
      ensures i0 <= i1 < |c| && p == c[i0] && n == c[i1] && (p == n <==> i0 == i1)
    {
      Around(elts, c, head, tail, k);
      i0 := if k > 0 && FreeAt(elts, c, k - 1) then k - 1 else k;
      i1 := if k + 1 < |c| && FreeAt(elts, c, k + 1) then k + 1 else k;
      p, n := Prev(elts, e), Next(elts, e);
      if !elts[p].free {
        p := e;
      }
      if !elts[n].free {
        n := e;
      }
    }

    /** After one element has been marked free, what is to be merged. */
    lemma Neighbourhood(elts0: seq<Elt>, k: nat, i0: nat, i1: nat)
      requires k < |c| && forall i :: 0 <= i < |c| ==> (FreeAt(elts, c, i) <==> FreeAt(elts0, c, i) || i == k)
      requires NoTwoFree(elts0, c)
      requires i0 == (if k > 0 && FreeAt(elts, c, k - 1) then k - 1 else k) && i1 == if k + 1 < |c| &&
               FreeAt(elts, c, k + 1) then k + 1 else k
      ensures (i0 > 0 ==> !FreeAt(elts, c, i0 - 1)) && (i1 + 1 < |c| ==> !FreeAt(elts, c, i1 + 1))
      ensures forall t :: i0 <= t <= i1 ==> FreeAt(elts, c, t)
      ensures forall t {:trigger NotBothFree(elts, c, t)} :: 0 <= t < |c| && (t + 1 < i0 || t > i1) ==>
              NotBothFree(elts, c, t)
      ensures i0 == i1 ==> NoTwoFree(elts, c)
    {
      forall t | 0 <= t < |c| ensures t + 1 < i0 || t > i1 || i0 == i1 ==> NotBothFree(elts, c, t) {
        assert NotBothFree(elts0, c, t);
      }
      if i0 > 0 && i0 < k {
        assert NotBothFree(elts0, c, i0 - 1);
      }
      if i1 + 1 < |c| && k < i1 {
        assert NotBothFree(elts0, c, i1);
      }
    }

    lemma Cut(i0: nat, i1: nat, p: seq<nat>, f: seq<nat>, s: seq<nat>)
      requires Sound() && i0 < i1 < |c| && c == p + f + s && |p| == i0 && |f| == i1 - i0 + 1
      requires forall t :: i0 <= t <= i1 ==> FreeAt(elts, c, t)
      requires (i0 > 0 ==> !FreeAt(elts, c, i0 - 1)) && (i1 + 1 < |c| ==> !FreeAt(elts, c, i1 + 1))
      requires forall t {:trigger NotBothFree(elts, c, t)} :: 0 <= t < |c| && (t + 1 < i0 || t > i1) ==>
               NotBothFree(elts, c, t)
      ensures Mergeable(p, f, s)
    {
    }

    // ---------- Allocation ----------

    /** A new element takes what the k-th has from m on. */
    method CutAfter(e: nat, m: nat, ghost k: nat) returns (x: nat)
      requires Sound() && k < |c| && c[k] == e && 0 < m < SizeAt(elts, c, len, k)
      modifies this`elts, this`recycled, this`tail, this`c
      ensures ChainOk({}) && ListedOk({}) && x !in old(c) && c == Inserted(old(c), k + 1, x)
      ensures CutInTwo(old(elts), elts, old(c), c, k, m)
      ensures !FreeAt(elts, c, k + 1) && (FreeAt(elts, c, k) <==> FreeAt(old(elts), old(c), k))
    {
      AllInVector();
      x := LinkAfterNew(e, elts[e].offset + m, k);
      forall i | 0 <= i < |old(c)| ensures SameElt(old(elts), elts, old(c)[i]) {
        assert old(c)[i] in old(c);
      }
      IsCut(old(elts), elts, old(c), k, k + 1, x, m);
      StillListed(old(elts), old(c), x);
    }

    method LinkAfterNew(e: nat, offset: nat, ghost k: nat) returns (x: nat)
      requires ChainOk({}) && k < |c| && c[k] == e
      modifies this`elts, this`recycled, this`tail, this`c
      ensures ChainOk({}) && x !in old(c) && c == Inserted(old(c), k + 1, x) && |old(elts)| <= |elts|
      ensures x < |elts| && elts[x].offset == offset && !elts[x].free
      ensures forall u :: 0 <= u < |old(elts)| && u != x ==> SameElt(old(elts), elts, u)
    {
      x := NewElt(offset);
      EltInsertAfter(e, x, k);
    }

    /** A new element takes the first m of what the k-th has, which is not free. */
    method CutBefore(e: nat, m: nat, ghost k: nat) returns (x: nat)
      requires Sound() && k < |c| && c[k] == e && 0 < m < SizeAt(elts, c, len, k) && !FreeAt(elts, c, k)
      modifies this`elts, this`recycled, this`head, this`c
      ensures ChainOk({}) && ListedOk({}) && x !in old(c) && c == Inserted(old(c), k, x)
      ensures CutInTwo(old(elts), elts, old(c), c, k, m)
      ensures !FreeAt(elts, c, k + 1) && !FreeAt(elts, c, k)
    {
      AllInVector();
      assert EltOk(elts, c, len, slots, k);
      assert e !in slots;
      x := TakeStart(e, m, k);
      IsCut(old(elts), elts, old(c), k, k, x, m);
      StillListed(old(elts), old(c), e);
    }

    method TakeStart(e: nat, m: nat, ghost k: nat) returns (x: nat)
      requires ChainOk({}) && k < |c| && c[k] == e && forall i :: 0 <= i < |c| ==> c[i] < |elts|
      modifies this`elts, this`recycled, this`head, this`c
      ensures ChainOk({}) && x !in old(c) && c == Inserted(old(c), k, x) && |old(elts)| <= |elts|
      ensures x < |elts| && elts[x].offset == old(elts)[e].offset && !elts[x].free
      ensures elts[e].offset == old(elts)[e].offset + m && elts[e].free == old(elts)[e].free
      ensures forall i :: 0 <= i < |old(c)| && i != k ==> SameElt(old(elts), elts, old(c)[i])
    {
      var offset := elts[e].offset;
      elts := elts[e := elts[e].(offset := offset + m)];
      ChainKept(old(elts), elts, c, head, tail);
      ghost var elts1 := elts;
      x := LinkBeforeNew(e, offset, k);
      forall i | 0 <= i < |old(c)|
        ensures SameElt(elts1, elts, old(c)[i]) && (i != k ==> SameElt(old(elts), elts, old(c)[i]))
      {
        assert old(c)[i] in old(c) && (i != k ==> old(c)[i] != e);
      }
    }

    method LinkBeforeNew(e: nat, offset: nat, ghost k: nat) returns (x: nat)
      requires ChainOk({}) && k < |c| && c[k] == e
      modifies this`elts, this`recycled, this`head, this`c
      ensures ChainOk({}) && x !in old(c) && c == Inserted(old(c), k, x) && |old(elts)| <= |elts|
      ensures x < |elts| && elts[x].offset == offset && !elts[x].free
      ensures forall u :: 0 <= u < |old(elts)| && u != x ==> SameElt(old(elts), elts, u)
    {
      x := NewElt(offset);
      EltInsertBefore(e, x, k);
    }

    lemma AllInVector()
      requires ChainOk({})
      ensures forall i :: 0 <= i < |c| ==> c[i] < |elts|
    {
      forall i | 0 <= i < |c| ensures c[i] < |elts| {
        assert LinkAt(elts, c, i);
      }
    }

    /** elt_new, and the offset of an element in use. */
    method NewElt(offset: nat) returns (x: nat)
      requires ChainOk({})
      modifies this`elts, this`recycled
      ensures ChainOk({x}) && x < |elts| && |old(elts)| <= |elts|
      ensures elts[x].offset == offset && !elts[x].free
      ensures forall u :: 0 <= u < |old(elts)| && u != x ==> elts[u] == old(elts)[u]
    {
      x := EltNew();
      ghost var before := elts;
      elts := elts[x := elts[x].(offset := offset, free := false)];
      ChainKept(before, elts, c, head, tail);
    }

    /** Listed elements other than x, which is not listed, are as they were. */
    lemma StillListed(elts0: seq<Elt>, c0: seq<nat>, x: nat)
      requires Tiles(elts0, c0, len, slots) && ListsOk(freeLists, slots) && x !in slots
      requires Stored(elts0, data, small, wide, slots, {}) && OffsetsDiffer(elts0, slots, {})
      requires forall i :: 0 <= i < |c0| && c0[i] != x ==> SameElt(elts0, elts, c0[i])
      ensures ListedOk({})
    {
      forall u | u in slots ensures SameElt(elts0, elts, u) {
        assert slots[u] == slots[u] && u in c0;
        var i :| 0 <= i < |c0| && c0[i] == u;
      }
      ListedKept(elts0, elts, data, small, wide, slots, {});
    }

    // ---------- Searching the free lists ----------

    /** What a listed element looks like. */
    ghost predicate ListedAt(f: nat, b: nat, l: nat, k: nat)
      reads this`elts, this`freeLists, this`c, this`slots
    {
      && b < |freeLists| && l < |freeLists[b]| && freeLists[b][l] == f
      && k < |c| && c[k] == f && f in slots && slots[f] == Slot(b, l) && FreeAt(elts, c, k)
    }

    /** An element on a list is free, and somewhere in the chain. */
    lemma OnList(b: nat, l: nat) returns (k: nat)
      requires Sound() && b < |freeLists| && l < |freeLists[b]|
      ensures ListedAt(freeLists[b][l], b, l, k) && SizeAt(elts, c, len, k) > 0 &&
              b == SizeToBin(SizeAt(elts, c, len, k))
    {
      var f := freeLists[b][l];
      assert slots[f] == Slot(b, l) && f in c;
      k :| 0 <= k < |c| && c[k] == f;
      assert EltOk(elts, c, len, slots, k);
    }

    /** The list of a bin has an element that is listed, free and of at least this size. */
    ghost predicate LargeEnough(b: nat, size: nat)
      reads this`elts, this`c, this`len, this`slots
    {
      exists k :: 0 <= k < |c| && c[k] in slots && slots[c[k]].bin == b && SizeAt(elts, c, len, k) >= size
    }

    ghost predicate NonEmpty(b: nat)
      reads this`freeLists
    {
      b < |freeLists| && freeLists[b] != []
    }

    /** The reverse scan of one list.  When no element is large enough it goes on past the first. */
    method ScanList(b: nat, size: nat) returns (found: bool, l: nat, ghost k: nat)
      requires Sound() && NonEmpty(b)
      ensures found ==> l < |freeLists[b]| && ListedAt(freeLists[b][l], b, l, k) && SizeAt(elts, c, len, k) >= size
      ensures found <==> LargeEnough(b, size)
    {
      l := |freeLists[b]|;
      found, k := false, 0;
      while true
        invariant l <= |freeLists[b]| && !found
        invariant forall i :: l <= i < |freeLists[b]| ==> TooSmall(freeLists[b][i], size)
        decreases l
      {
        if l == 0 {
          AllTooSmall(b, size);
          return;
        }
        l := l - 1;
        k := OnList(b, l);
        var f := freeLists[b][l];
        var fSize := EltSize(f, k);
        if fSize >= size {
          found := true;
          assert c[k] in slots && slots[c[k]].bin == b;
          return;
        }
        OnlySize(f, k, size);
      }
    }

    ghost predicate TooSmall(f: nat, size: nat)
      reads this`elts, this`c, this`len
    {
      forall k :: 0 <= k < |c| && c[k] == f ==> SizeAt(elts, c, len, k) < size
    }

    lemma AllTooSmall(b: nat, size: nat)
      requires Sound() && b < |freeLists| && forall i :: 0 <= i < |freeLists[b]| ==> TooSmall(freeLists[b][i], size)
      ensures !LargeEnough(b, size)
    {
      forall k | 0 <= k < |c| && c[k] in slots && slots[c[k]].bin == b ensures SizeAt(elts, c, len, k) < size {
        assert SlotOk(freeLists, slots, c[k]);
      }
    }

    lemma OnlySize(f: nat, k: nat, size: nat)
      requires ChainOk({}) && k < |c| && c[k] == f && SizeAt(elts, c, len, k) < size
      ensures TooSmall(f, size)
    {
    }

    /** An element of a higher bin is always large enough. */
    lemma HigherBin(b: nat, size: nat)
      requires Sound() && NonEmpty(b) && 0 < size && SizeToBin(size) < b
      ensures LargeEnough(b, size)
    {
      var k := OnList(b, 0);
      if SizeAt(elts, c, len, k) < size {
        BinMono(SizeAt(elts, c, len, k), size);
      }
      assert c[k] in slots && slots[c[k]].bin == b;
    }

    /** An element of a lower bin never is; so if all bins from its own on are empty, nothing is. */
    lemma NothingFits(size: nat)
      requires Sound() && 0 < size && forall b :: SizeToBin(size) <= b < |freeLists| ==> !NonEmpty(b)
      ensures forall k :: 0 <= k < |c| && FreeAt(elts, c, k) ==> SizeAt(elts, c, len, k) < size
    {
      forall k | 0 <= k < |c| && FreeAt(elts, c, k) ensures SizeAt(elts, c, len, k) < size {
        assert EltOk(elts, c, len, slots, k);
        assert SlotOk(freeLists, slots, c[k]);
        if SizeAt(elts, c, len, k) >= size {
          BinMono(size, SizeAt(elts, c, len, k));
          assert NonEmpty(slots[c[k]].bin);
        }
      }
    }

    /** What has been allocated: exactly this object is new, and no other has been touched. */
    twostate predicate Gained(o: Obj)
      reads this
    {
      && Sound() && NoTwoFree(elts, c) && len == old(len) && usedCount == old(usedCount)
      && (forall x :: x in old(Live(elts, c, len)) ==> x.handle != o.handle)
      && Live(elts, c, len) == old(Live(elts, c, len)) + {o}
      && Untouched(old(data), data, old(Live(elts, c, len)))
    }

    /** All of a free element is used. */
    method UseWhole(f: nat, b: nat, l: nat, ghost k: nat)
      requires Sound() && NoTwoFree(elts, c) && ListedAt(f, b, l, k)
      modifies this`elts, this`freeLists, this`data, this`small, this`slots
      ensures Gained(old(ObjAt(elts, c, len, k)))
    {
      ghost var elts0, slots0, data0 := elts, slots, data;
      RemoveFreeBlock(b, l, f, {});
      OnlyFreePlaces(elts0, c, slots0, data0);
      MarkUsed(f, k, slots0);
    }

    method MarkUsed(f: nat, ghost k: nat, ghost slots0: map<nat, Slot>)
      requires ChainOk({}) && Tiles(elts, c, len, slots0) && ListedOk({}) && OneOff(slots0, slots, f) &&
               NoTwoFree(elts, c)
      requires k < |c| && c[k] == f && FreeAt(elts, c, k)
      modifies this`elts
      ensures ChainOk({}) && Tiles(elts, c, len, slots) && ListedOk({}) && NoTwoFree(elts, c)
      ensures forall o :: o in old(Live(elts, c, len)) ==> o.handle != f
      ensures Live(elts, c, len) == old(Live(elts, c, len)) + {old(ObjAt(elts, c, len, k))}
    {
      ghost var elts0 := elts;
      elts := elts[f := elts[f].(free := false)];
      UsedTiles(elts0, elts, c, len, slots0, slots, k);
      UsedLive(elts0, elts, c, len, k);
      ChainKept(elts0, elts, c, head, tail);
      ListedKept(elts0, elts, data, small, wide, slots, {});
    }

    /** The first part of a free element stays free, perhaps in another bin; the rest is used.  The
        source puts the element on its new list before it takes it off the old one. */
    method Split(f: nat, b: nat, l: nat, s: nat, ghost k: nat) returns (u: nat)
      requires Sound() && NoTwoFree(elts, c) && ListedAt(f, b, l, k) && 0 < s < SizeAt(elts, c, len, k)
      modifies this`elts, this`recycled, this`freeLists, this`tail, this`data, this`small, this`c, this`slots
      ensures Gained(Obj(u, old(OffsetAt(elts, c, k)) + s, old(SizeAt(elts, c, len, k)) - s))
    {
      ghost var elts0, c0, slots0, data0 := elts, c, slots, data;
      u := CutAndRefile(f, b, l, s, k);
      SplitDone(elts0, c0, slots0, data0, u, s, k);
    }

    method CutAndRefile(f: nat, b: nat, l: nat, s: nat, ghost k: nat) returns (u: nat)
      requires Sound() && NoTwoFree(elts, c) && ListedAt(f, b, l, k) && 0 < s < SizeAt(elts, c, len, k)
      modifies this`elts, this`recycled, this`freeLists, this`tail, this`data, this`small, this`c, this`slots
      ensures HalfSplit(old(elts), old(c), old(slots), old(data), u, s, k)
    {
      ghost var elts0, c0, slots0, data0 := elts, c, slots, data;
      u := CutFree(f, s, k);
      ghost var elts1, c1 := elts, c;
      assert slots == slots0 && data == data0;
      Refile(f, b, l, SizeToBin(s));
      assert elts == elts1 && c == c1;
      HalfMade(elts0, c0, slots0, data0, f, u, s, k);
    }

    method CutFree(f: nat, s: nat, ghost k: nat) returns (u: nat)
      requires Sound() && k < |c| && c[k] == f && FreeAt(elts, c, k) && 0 < s < SizeAt(elts, c, len, k)
      modifies this`elts, this`recycled, this`tail, this`c
      ensures ChainOk({}) && ListedOk({}) && CutOnly(old(elts), old(c), elts, c, f, u, s, k)
    {
      ghost var c0 := c;
      u := CutAfter(f, s, k);
      InsertedAt(c0, k + 1, u);
    }

    lemma HalfMade(elts0: seq<Elt>, c0: seq<nat>, slots0: map<nat, Slot>, data0: seq<nat>, f: nat, u: nat, s: nat,
                   k: nat)
      requires Tiles(elts0, c0, len, slots0) && k < |c0| && |data| == |data0| && 0 < s
      requires ChainOk({}) && ListedOk({}) && CutOnly(elts0, c0, elts, c, f, u, s, k)
      requires Rebinned(slots0, slots, f, SizeToBin(s))
      requires forall x :: 0 <= x < |data| && data[x] != data0[x] ==> FreePlace(elts, slots0, {}, x)
      ensures HalfSplit(elts0, c0, slots0, data0, u, s, k)
    {
      assert Open(0);
      ChangesFree(elts0, c0, slots0, data0, s, k);
    }

    /** The chain has been cut and the lists are right again. */
    ghost predicate HalfSplit(elts0: seq<Elt>, c0: seq<nat>, slots0: map<nat, Slot>, data0: seq<nat>, u: nat, s: nat,
                              k: nat)
      reads this`elts, this`recycled, this`freeLists, this`head, this`tail, this`len, this`data, this`small, this`c,
            this`slots
    {
      k < |c0| && |data| == |data0| && 0 < s &&
      forall o {:trigger Open(o)} :: Open(o) ==>
        && ChainOk({}) && ListedOk({}) && u !in c0
        && CutInTwo(elts0, elts, c0, c, k, s) && c[k] == c0[k] && c[k + 1] == u
        && FreeAt(elts0, c0, k) && FreeAt(elts, c, k) && !FreeAt(elts, c, k + 1)
        && Rebinned(slots0, slots, c[k], SizeToBin(s))
        && forall x :: 0 <= x < |data| && data[x] != data0[x] ==> FreePlace(elts0, slots0, {}, x)
    }

    lemma ChangesFree(elts0: seq<Elt>, c0: seq<nat>, slots0: map<nat, Slot>, data0: seq<nat>, s: nat, k: nat)
      requires Tiles(elts0, c0, len, slots0) && CutInTwo(elts0, elts, c0, c, k, s) && c[k] == c0[k]
      requires FreeAt(elts, c, k) && FreeAt(elts0, c0, k) && |data| == |data0|
      requires forall x :: 0 <= x < |data| && data[x] != data0[x] ==> FreePlace(elts, slots0, {}, x)
      ensures forall x :: 0 <= x < |data| && data[x] != data0[x] ==> FreePlace(elts0, slots0, {}, x)
    {
      forall x | 0 <= x < |data| && data[x] != data0[x] ensures FreePlace(elts0, slots0, {}, x) {
        SameFreePlace(elts0, elts, c0, slots0, x);
      }
    }

    /** Onto the list of bin fb, unless it is there already. */
    method Refile(f: nat, b: nat, l: nat, fb: nat)
      requires ListedOk({}) && f in slots && slots[f] == Slot(b, l)
      modifies this`elts, this`freeLists, this`data, this`small, this`slots
      ensures ListedOk({}) && elts == old(elts) && |data| == |old(data)|
      ensures Rebinned(old(slots), slots, f, fb)
      ensures forall x :: 0 <= x < |data| && data[x] != old(data)[x] ==> FreePlace(elts, old(slots), {}, x)
    {
      if fb != b {
        Rebin(f, b, l, fb);
      }
    }

    lemma SameFreePlace(elts0: seq<Elt>, elts1: seq<Elt>, c0: seq<nat>, slots0: map<nat, Slot>, x: nat)
      requires Tiles(elts0, c0, len, slots0) && FreePlace(elts1, slots0, {}, x)
      requires forall i :: 0 <= i < |c0| ==> SameElt(elts0, elts1, c0[i])
      ensures FreePlace(elts0, slots0, {}, x)
    {
      var v :| v in slots0 && v < |elts1| && elts1[v].offset == x;
      assert slots0[v] == slots0[v] && v in c0;
      var i :| 0 <= i < |c0| && c0[i] == v;
      assert SameElt(elts0, elts1, c0[i]);
    }

    /** Off one list and onto another. */
    method Rebin(f: nat, b: nat, l: nat, fb: nat)
      requires ListedOk({}) && f in slots && slots[f] == Slot(b, l)
      modifies this`elts, this`freeLists, this`data, this`small, this`slots
      ensures ListedOk({}) && elts == old(elts) && |data| == |old(data)|
      ensures Rebinned(old(slots), slots, f, fb)
      ensures forall x :: 0 <= x < |data| && data[x] != old(data)[x] ==> FreePlace(elts, old(slots), {}, x)
    {
      assert StoredAt(elts, data, small, wide, f, slots[f].pos);
      RemoveFreeBlock(b, l, f, {});
      ListAgain(f, fb, old(slots));
    }

    method ListAgain(f: nat, fb: nat, ghost slots0: map<nat, Slot>)
      requires ListedOk({}) && f in slots0 && OffsetsDiffer(elts, slots0, {}) && OneOff(slots0, slots, f)
      requires f < |elts| && elts[f].free && (wide ==> elts[f].offset < |data|)
      modifies this`elts, this`freeLists, this`data, this`small, this`slots
      ensures ListedOk({}) && elts == old(elts) && f in slots && slots[f].bin == fb
      ensures slots == old(slots)[f := slots[f]]
      ensures if wide then data == old(data)[elts[f].offset := slots[f].pos] else data == old(data)
    {
      ghost var slots1, data1, small1 := slots, data, small;
      var i := AddToList(f, fb);
      SetFreeElt(f, i);
      assert elts == old(elts);
      RebinListed(slots0, slots1, data1, small1, f);
    }

    lemma RebinListed(slots0: map<nat, Slot>, slots1: map<nat, Slot>, data1: seq<nat>, small1: seq<nat>, f: nat)
      requires f in slots0 && OffsetsDiffer(elts, slots0, {}) && OneOff(slots0, slots1, f)
      requires Stored(elts, data1, small1, wide, slots1, {}) && OffsetsDiffer(elts, slots1, {})
      requires f in slots && slots == slots1[f := slots[f]] && ListsOk(freeLists, slots)
      requires StoredAt(elts, data, small, wide, f, slots[f].pos)
      requires if wide then elts[f].offset < |data1| && data == data1[elts[f].offset := slots[f].pos]
               else data == data1 && |small| >= |small1| && forall i :: 0 <= i < |small1| && i != f ==>
                   small[i] == small1[i]
      ensures ListedOk({})
    {
      forall u | u in slots1
        ensures StoredAt(elts, data, small, wide, u, slots[u].pos) && elts[u].offset != elts[f].offset
      {
        assert StoredAt(elts, data1, small1, wide, u, slots1[u].pos);
        assert slots0[u] == slots0[u] && slots0[f] == slots0[f];
      }
    }

    lemma SplitDone(elts0: seq<Elt>, c0: seq<nat>, slots0: map<nat, Slot>, data0: seq<nat>, u: nat, s: nat, k: nat)
      requires HalfSplit(elts0, c0, slots0, data0, u, s, k)
      requires Tiles(elts0, c0, len, slots0) && NoTwoFree(elts0, c0) && NoDup(c0) && 0 < s < SizeAt(elts0, c0, len, k)
      ensures ChainOk({}) && ListedOk({})
      ensures Tiles(elts, c, len, slots) && NoTwoFree(elts, c)
      ensures forall o :: o in Live(elts0, c0, len) ==> o.handle != u
      ensures Live(elts, c, len) == Live(elts0, c0, len) +
              {Obj(u, OffsetAt(elts0, c0, k) + s, SizeAt(elts0, c0, len, k) - s)}
      ensures Untouched(data0, data, Live(elts0, c0, len))
    {
      assert Open(0);
      assert u !in slots0;
      CutTiles(elts0, elts, c0, c, len, k, s, slots0, slots);
      CutPieces(elts0, elts, c0, c, len, k, s);
      CutLive(elts0, elts, c0, c, len, k, s);
      CutNoTwoFree(elts0, elts, c0, c, len, k, s);
      OnlyFreePlaces(elts0, c0, slots0, data0);
      FreeNotLive(elts0, c0, len, k);
      forall o | o in Live(elts0, c0, len) ensures o.handle != u {
        var i :| 0 <= i < |c0| && !FreeAt(elts0, c0, i) && o == ObjAt(elts0, c0, len, i);
        assert c0[i] in c0;
      }
    }

    /** search_free_list.  It reads before the start of a list if and only if the list of the bin of
        the size is not empty but has nothing large enough. */
    method SearchFreeList(size: nat) returns (r: Search, ghost offset: nat)
      requires Sound() && NoTwoFree(elts, c) && 0 < size
      modifies this`elts, this`recycled, this`freeLists, this`tail, this`data, this`small, this`c, this`slots
      ensures r.OutOfRange? <==> old(NonEmpty(SizeToBin(size)) && !LargeEnough(SizeToBin(size), size))
      ensures r.Nothing? ==> NothingFree(size)
      ensures r.Fitting? ==> !old(NothingFree(size))
      ensures !r.Fitting? ==> unchanged(this)
      ensures r.Fitting? ==> Gained(Obj(r.handle, offset, size))
    {
      var b := SizeToBin(size);
      offset := 0;
      while b < |freeLists|
        invariant SizeToBin(size) <= b && unchanged(this)
        invariant forall d :: SizeToBin(size) <= d < b ==> !NonEmpty(d)
      {
        if freeLists[b] != [] {
          if SizeToBin(size) < b {
            HigherBin(b, size);
          }
          ghost var k;
          var found, l;
          found, l, k := ScanList(b, size);
          if !found {
            return OutOfRange, 0;
          }
          var u;
          u, offset := UseElement(b, l, size, k);
          return Fitting(u), offset;
        }
        b := b + 1;
      }
      NothingFits(size);
      r := Nothing;
    }

    /** Use the end of a free element. */
    method UseElement(b: nat, l: nat, size: nat, ghost k: nat) returns (u: nat, ghost offset: nat)
      requires Sound() && NoTwoFree(elts, c) && b < |freeLists| && l < |freeLists[b]| &&
               ListedAt(freeLists[b][l], b, l, k)
      requires 0 < size <= SizeAt(elts, c, len, k)
      modifies this`elts, this`recycled, this`freeLists, this`tail, this`data, this`small, this`c, this`slots
      ensures Gained(Obj(u, offset, size))
    {
      var f := freeLists[b][l];
      var fSize := EltSize(f, k);
      var s: nat := fSize - size;
      offset := OffsetAt(elts, c, k) + s;
      if s == 0 {
        UseWhole(f, b, l, k);
        u := f;
      } else {
        u := Split(f, b, l, s, k);
      }
    }

    /** An object at the end of the vector, which grows. */
    method Append(size: nat, fill: nat) returns (e: nat)
      requires Sound() && NoTwoFree(elts, c) && 0 < size && len + size < MAX_LEN
      modifies this`elts, this`recycled, this`tail, this`len, this`data, this`c
      ensures Sound() && NoTwoFree(elts, c) && len == old(len) + size
      ensures forall o :: o in old(Live(elts, c, len)) ==> o.handle != e
      ensures Live(elts, c, len) == old(Live(elts, c, len)) + {Obj(e, old(len), size)}
      ensures data == old(data) + if wide then seq(size, _ => fill) else []
    {
      ghost var elts0, c0, data0 := elts, c, data;
      e := LinkLast();
      AppendedTiles(elts0, elts, c0, len, slots, e, size);
      AppendedLive(elts0, elts, c0, len, slots, e, size);
      len := len + size;
      if wide {
        data := data + seq(size, _ => fill);
        Extended(data0);
      }
    }

    method LinkLast() returns (e: nat)
      requires Sound()
      modifies this`elts, this`recycled, this`tail, this`c
      ensures ChainOk({}) && ListedOk({}) && e !in old(c) && c == old(c) + [e] && |old(elts)| <= |elts|
      ensures e < |elts| && elts[e].offset == len && !elts[e].free
      ensures forall i :: 0 <= i < |old(c)| ==> SameElt(old(elts), elts, old(c)[i])
    {
      AllInVector();
      e := LinkAfterNew(tail, len, |c| - 1);
      forall i | 0 <= i < |old(c)| ensures SameElt(old(elts), elts, old(c)[i]) {
        assert old(c)[i] in old(c);
      }
      StillListed(old(elts), old(c), e);
    }

    /** More memory does not matter to what is stored. */
    lemma Extended(data0: seq<nat>)
      requires ListsOk(freeLists, slots) && Stored(elts, data0, small, wide, slots, {}) &&
               OffsetsDiffer(elts, slots, {})
      requires |data0| <= |data| && data[..|data0|] == data0
      ensures ListedOk({})
    {
      forall u | u in slots ensures StoredAt(elts, data, small, wide, u, slots[u].pos) {
        assert StoredAt(elts, data0, small, wide, u, slots[u].pos);
        assert wide ==> data[..|data0|][elts[u].offset] == data0[elts[u].offset];
      }
    }

    // ---------- Fragments ----------

    /** In place of o only o' is live, and no object has been touched. */
    twostate predicate Trimmed(o: Obj, o': Obj)
      reads this
    {
      && Sound() && NoTwoFree(elts, c) && len == old(len) && usedCount == old(usedCount)
      && Live(elts, c, len) == old(Live(elts, c, len)) - {o} + {o'}
      && Untouched(old(data), data, Live(elts, c, len))
    }

    /** The first m of an object are freed. */
    method FreeStart(e: nat, m: nat, ghost k: nat)
      requires Sound() && NoTwoFree(elts, c) && k < |c| && c[k] == e && !FreeAt(elts, c, k) &&
               0 < m < SizeAt(elts, c, len, k)
      modifies this`elts, this`recycled, this`freeLists, this`head, this`tail, this`data, this`small, this`c, this`slots
      ensures Trimmed(old(ObjAt(elts, c, len, k)),
              Obj(e, old(OffsetAt(elts, c, k)) + m, old(SizeAt(elts, c, len, k)) - m))
    {
      ghost var o, live := ObjAt(elts, c, len, k), Live(elts, c, len);
      var x := CutStart(e, m, k);
      ghost var piece := ObjAt(elts, c, len, k);
      DeallocElt(x, k);
      PieceGone(live, Live(elts, c, len), o, Obj(e, o.offset + m, o.size - m), piece);
    }

    method CutStart(e: nat, m: nat, ghost k: nat) returns (x: nat)
      requires Sound() && NoTwoFree(elts, c) && k < |c| && c[k] == e && !FreeAt(elts, c, k) &&
               0 < m < SizeAt(elts, c, len, k)
      modifies this`elts, this`recycled, this`head, this`c
      ensures Sound() && NoTwoFree(elts, c) && k < |c| && c[k] == x && !FreeAt(elts, c, k)
      ensures var o, p := old(ObjAt(elts, c, len, k)), ObjAt(elts, c, len, k);
              p !in old(Live(elts, c, len)) &&
              Live(elts, c, len) == old(Live(elts, c, len)) - {o} + {p} + {Obj(e, o.offset + m, o.size - m)} &&
                  p.handle != e
    {
      ghost var elts0, c0, slots0 := elts, c, slots;
      x := CutBefore(e, m, k);
      InsertedAt(c0, k, x);
      assert slots == slots0;
      CutUsed(elts0, c0, m, k);
    }

    /** All of an object from m on is freed. */
    method FreeEnd(e: nat, m: nat, ghost k: nat)
      requires Sound() && NoTwoFree(elts, c) && k < |c| && c[k] == e && !FreeAt(elts, c, k) &&
               0 < m < SizeAt(elts, c, len, k)
      modifies this`elts, this`recycled, this`freeLists, this`head, this`tail, this`data, this`small, this`c, this`slots
      ensures Trimmed(old(ObjAt(elts, c, len, k)), Obj(e, old(OffsetAt(elts, c, k)), m))
    {
      ghost var o, live := ObjAt(elts, c, len, k), Live(elts, c, len);
      var x := CutEnd(e, m, k);
      ghost var piece := ObjAt(elts, c, len, k + 1);
      DeallocElt(x, k + 1);
      PieceGone(live, Live(elts, c, len), o, Obj(e, o.offset, m), piece);
    }

    method CutEnd(e: nat, m: nat, ghost k: nat) returns (x: nat)
      requires Sound() && NoTwoFree(elts, c) && k < |c| && c[k] == e && !FreeAt(elts, c, k) &&
               0 < m < SizeAt(elts, c, len, k)
      modifies this`elts, this`recycled, this`tail, this`c
      ensures Sound() && NoTwoFree(elts, c) && k + 1 < |c| && c[k + 1] == x && !FreeAt(elts, c, k + 1)
      ensures var o, p := old(ObjAt(elts, c, len, k)), ObjAt(elts, c, len, k + 1);
              p !in old(Live(elts, c, len)) &&
              Live(elts, c, len) == old(Live(elts, c, len)) - {o} + {p} + {Obj(e, o.offset, m)} && p.handle != e
    {
      ghost var elts0, c0, slots0 := elts, c, slots;
      x := CutAfter(e, m, k);
      InsertedAt(c0, k + 1, x);
      assert slots == slots0;
      CutUsed(elts0, c0, m, k);
    }

    /** An object in use cut into two in use. */
    lemma CutUsed(elts0: seq<Elt>, c0: seq<nat>, m: nat, k: nat)
      requires ChainOk({}) && CutInTwo(elts0, elts, c0, c, k, m) && Tiles(elts0, c0, len, slots) &&
               NoTwoFree(elts0, c0) && NoDup(c0)
      requires 0 < m < SizeAt(elts0, c0, len, k)
      requires !FreeAt(elts0, c0, k) && !FreeAt(elts, c, k) && !FreeAt(elts, c, k + 1)
      requires if c[k] == c0[k] then c[k + 1] !in c0 else c[k] !in c0
      ensures Tiles(elts, c, len, slots) && NoTwoFree(elts, c)
      ensures ObjAt(elts, c, len, k) == Obj(c[k], OffsetAt(elts0, c0, k), m)
      ensures ObjAt(elts, c, len, k + 1) == Obj(c[k + 1], OffsetAt(elts0, c0, k) + m, SizeAt(elts0, c0, len, k) - m)
      ensures Live(elts, c, len) == Live(elts0, c0, len) - {ObjAt(elts0, c0, len, k)} + {ObjAt(elts, c, len, k)} +
              {ObjAt(elts, c, len, k + 1)}
      ensures c[k] != c[k + 1]
      ensures forall o :: o in Live(elts0, c0, len) ==> o.handle != if c[k] == c0[k] then c[k + 1] else c[k]
    {
      assert EltOk(elts0, c0, len, slots, k);
      assert c[k] !in slots && c[k + 1] !in slots;
      CutTiles(elts0, elts, c0, c, len, k, m, slots, slots);
      CutPieces(elts0, elts, c0, c, len, k, m);
      CutLive(elts0, elts, c0, c, len, k, m);
      CutNoTwoFree(elts0, elts, c0, c, len, k, m);
      forall o | o in Live(elts0, c0, len) ensures o.handle in c0 {
        var i :| 0 <= i < |c0| && !FreeAt(elts0, c0, i) && o == ObjAt(elts0, c0, len, i);
        assert c0[i] in c0;
      }
    }

    // ---------- heap_alloc ----------

    /** The chain index of a live object. */
    lemma WhereLive(o: Obj) returns (k: nat)
      requires Sound() && o in Live(elts, c, len)
      ensures k < |c| && c[k] == o.handle && !FreeAt(elts, c, k) && ObjAt(elts, c, len, k) == o && o.handle < |elts|
    {
      k :| 0 <= k < |c| && !FreeAt(elts, c, k) && o == ObjAt(elts, c, len, k);
      assert EltOk(elts, c, len, slots, k);
    }

    /** Move an object up to the next multiple of 2^bits, and free what is around it. */
    method AlignElt(e: nat, size: nat, bits: nat, ghost o: Obj) returns (offset: nat)
      requires Sound() && NoTwoFree(elts, c) && 0 < size && o in Live(elts, c, len)
      requires o.handle == e && o.size == size + Pow2(bits) - 1
      modifies this`elts, this`recycled, this`freeLists, this`head, this`tail, this`data, this`small, this`c, this`slots
      ensures Trimmed(o, Obj(e, offset, size)) && LowBits(offset, bits) == 0
      ensures o.offset <= offset && offset + size <= o.offset + o.size
    {
      ghost var k := WhereLive(o);
      var old_offset := elts[e].offset;
      offset := RoundUp(old_offset, bits);
      if offset > old_offset {
        FreeStart(e, offset - old_offset, k);
      }
      ghost var data1, o1 := data, Obj(e, offset, o.size - (offset - old_offset));
      if offset + size < old_offset + size + Pow2(bits) - 1 {
        k := WhereLive(o1);
        FreeEnd(e, size, k);
        UntouchedChain(old(data), data1, data, Live(elts, c, len));
      }
    }

    method RoundUp(x: nat, bits: nat) returns (y: nat)
      ensures x <= y <= x + Pow2(bits) - 1 && LowBits(y, bits) == 0
    {
      y := x + Pow2(bits) - 1;
      LowBitsCleared(y, bits);
      y := y - LowBits(y, bits);
    }

    ghost predicate NothingFree(size: nat)
      reads this`elts, this`c, this`len
    {
      forall k :: 0 <= k < |c| && FreeAt(elts, c, k) ==> SizeAt(elts, c, len, k) < size
    }

    /** The list on which the search begins is not empty, but has nothing large enough. */
    ghost predicate ListTooSmall(size: nat)
      requires size > 0
      reads this`elts, this`freeLists, this`c, this`len, this`slots
    {
      NonEmpty(SizeToBin(size)) && !LargeEnough(SizeToBin(size), size)
    }

    /** Objects of up to 32 have bins of their own, in which everything is large enough. */
    lemma SmallNeverMissed(size: nat)
      requires Sound() && 0 < size <= SMALL_BINS
      ensures !ListTooSmall(size)
    {
      if NonEmpty(SizeToBin(size)) {
        var k := OnList(SizeToBin(size), 0);
        if SizeAt(elts, c, len, k) > SMALL_BINS {
          LargeSize(SizeAt(elts, c, len, k));
        }
        assert c[k] in slots && slots[c[k]].bin == SizeToBin(size);
      }
    }

    /** Where nothing is free no list can mislead. */
    lemma NoneFree(size: nat)
      requires Sound() && 0 < size && forall k :: 0 <= k < |c| ==> !FreeAt(elts, c, k)
      ensures !ListTooSmall(size) && NothingFree(size)
    {
      if NonEmpty(SizeToBin(size)) {
        var k := OnList(SizeToBin(size), 0);
      }
    }

    ghost predicate InLive(x: nat)
      reads this`elts, this`c, this`len
    {
      exists o :: o in Live(elts, c, len) && o.offset <= x < o.offset + o.size
    }

    /** Where live objects are everywhere nothing is free. */
    lemma Covered()
      requires Sound()
      requires forall x: nat :: x < len ==> InLive(x)
      ensures forall k :: 0 <= k < |c| ==> !FreeAt(elts, c, k)
    {
      forall k | 0 <= k < |c| ensures !FreeAt(elts, c, k) {
        if FreeAt(elts, c, k) {
          var x := elts[c[k]].offset;
          assert EltOk(elts, c, len, slots, k) && c[k] in slots;
          assert FreePlace(elts, slots, {}, x);
          OffsetsGrow(elts, c, len, slots, k, |c|);
          NotCovered(x);
        }
      }
    }

    lemma NotCovered(x: nat)
      requires Sound() && FreePlace(elts, slots, {}, x)
      ensures !InLive(x)
    {
      forall o | o in Live(elts, c, len) ensures !(o.offset <= x < o.offset + o.size) {
        FreePlaceNotLive(elts, c, len, slots, x, o);
      }
    }

    /** A single object in the middle has a free element on each side. */
    lemma FreeUsedFree(o: Obj)
      requires Sound() && NoTwoFree(elts, c) && Live(elts, c, len) == {o} && 0 < o.offset && o.offset + o.size < len
      ensures |c| == 3
    {
      var k := WhereLive(o);
      forall i | 0 <= i < |c| && i != k ensures FreeAt(elts, c, i) {
        assert FreeAt(elts, c, i) || ObjAt(elts, c, len, i) in Live(elts, c, len);
      }
      assert k > 1 ==> NotBothFree(elts, c, k - 2);
      assert k + 1 < |c| ==> NotBothFree(elts, c, k + 1);
    }

    /** When nothing is live, all is one free element. */
    lemma AllFree()
      requires Sound() && NoTwoFree(elts, c) && Live(elts, c, len) == {}
      ensures |c| == 1 && FreeAt(elts, c, 0) && SizeAt(elts, c, len, 0) == len
    {
      forall i | 0 <= i < |c| ensures FreeAt(elts, c, i) {
        assert ObjAt(elts, c, len, i) !in Live(elts, c, len);
      }
      assert NotBothFree(elts, c, 0);
    }

    /** The object o has been allocated, and no other has been touched. */
    twostate predicate NewObject(o: Obj)
      reads this
    {
      && Sound() && NoTwoFree(elts, c) && usedCount == old(usedCount)
      && (forall x :: x in old(Live(elts, c, len)) ==> x.handle != o.handle)
      && Live(elts, c, len) == old(Live(elts, c, len)) + {o}
      && Kept(old(data), data, old(Live(elts, c, len)))
    }

    /** From the free lists, or else from the end of the vector. */
    method AllocElt(size: nat, fill: nat) returns (r: Search, ghost o: Obj)
      requires Sound() && NoTwoFree(elts, c) && 0 < size && maxLen < MAX_LEN && (maxLen == 0 ==> len + size < MAX_LEN)
      modifies this`elts, this`recycled, this`freeLists, this`tail, this`len, this`data, this`small, this`c, this`slots
      ensures !r.Fitting? ==> unchanged(this)
      ensures r.OutOfRange? <==> old(ListTooSmall(size))
      ensures r.Nothing? <==>
                !old(ListTooSmall(size)) && maxLen > 0 && old(len) + size > maxLen && old(NothingFree(size))
      ensures r.Fitting? ==> NewObject(o) && o.handle == r.handle && o.size == size
      ensures r.Fitting? && old(NothingFree(size)) ==> o.offset == old(len) && len == old(len) + size
    {
      ghost var offset;
      r, offset := SearchFreeList(size);
      o := if r.Fitting? then Obj(r.handle, offset, size) else Obj(0, 0, 0);
      if r.Fitting? {
        KeptAll(old(data), data, old(Live(elts, c, len)));
      } else if r.Nothing? {
        if maxLen > 0 && len + size > maxLen {
          return;
        }
        o := Obj(0, len, size);
        var e := Append(size, fill);
        o := o.(handle := e);
        r := Fitting(e);
        assert data[..|old(data)|] == old(data);
      }
    }

    /** The object allocated, which has room for it, is aligned. */
    method AlignNew(e: nat, size: nat, align: nat, ghost o: Obj, ghost live: set<Obj>, ghost data0: seq<nat>)
      returns (offset: nat)
      requires Sound() && NoTwoFree(elts, c) && 0 < size && Live(elts, c, len) == live + {o} && o !in live
      requires o.handle == e && o.size == AlignSize(size, align) && Kept(data0, data, live)
      modifies this`elts, this`recycled, this`freeLists, this`head, this`tail, this`data, this`small, this`c, this`slots
      ensures Sound() && NoTwoFree(elts, c) && LowBits(offset, AlignBits(align)) == 0
      ensures Live(elts, c, len) == live + {Obj(e, offset, size)} && Kept(data0, data, live)
      ensures len == old(len) && o.offset <= offset && offset + size <= o.offset + o.size
    {
      if align <= 1 {
        ghost var k := WhereLive(o);
        offset := elts[e].offset;
      } else {
        ghost var data1 := data;
        offset := AlignElt(e, size, AlignBits(align), o);
        KeptThen(data0, data1, data, live, Live(elts, c, len));
      }
    }

    /** _heap_alloc.  It fails when nothing is asked for, or when nothing free is large enough and the
        vector may not grow; and it is undefined if and only if the search leaves a list. */
    method Alloc(size: nat, align: nat, fill: nat) returns (r: Result)
      requires Valid() && (maxLen == 0 ==> len + AlignSize(size, align) < MAX_LEN)
      modifies this
      ensures !r.Allocated? ==> unchanged(this)
      ensures r.Undefined? <==> 0 < size && old(ListTooSmall(AlignSize(size, align)))
      ensures r.Failed? <==>
                || size == 0
                || (!r.Undefined? && maxLen > 0 && old(len) + AlignSize(size, align) > maxLen &&
                    old(NothingFree(AlignSize(size, align))))
      ensures r.Allocated? ==> Valid() && AlignedTo(r.offset, align)
      ensures r.Allocated? ==> forall o :: o in old(Live(elts, c, len)) ==> o.handle != r.handle
      ensures r.Allocated? ==> Live(elts, c, len) == old(Live(elts, c, len)) + {Obj(r.handle, r.offset, size)}
      ensures r.Allocated? ==> Kept(old(data), data, old(Live(elts, c, len)))
      ensures r.Allocated? && old(NothingFree(AlignSize(size, align))) ==>
                len == old(len) + AlignSize(size, align) && old(len) <= r.offset && r.offset + size <= len
    {
      if size == 0 {
        return Failed;
      }
      ghost var live, data0 := Live(elts, c, len), data;
      ghost var o;
      var found;
      found, o := AllocElt(AlignSize(size, align), fill);
      match found {
        case OutOfRange =>
          r := Undefined;
        case Nothing =>
          r := Failed;
        case Fitting(e) =>
          var offset := AlignNew(e, size, align, o, live, data0);
          AlignedMeans(offset, align);
          usedCount := usedCount + 1;
          r := Allocated(e, offset);
      }
    }

    /** heap_dealloc: exactly this object is freed, and no other object is touched. */
    method Dealloc(handle: nat, ghost k: nat)
      requires Valid() && k < |c| && c[k] == handle && !FreeAt(elts, c, k)
      modifies this
      ensures Valid() && Live(elts, c, len) == old(Live(elts, c, len)) - {old(ObjAt(elts, c, len, k))}
      ensures Untouched(old(data), data, Live(elts, c, len)) && len == old(len)
    {
      assert ObjAt(elts, c, len, k) in Live(elts, c, len);
      usedCount := usedCount - 1;
      DeallocElt(handle, k);
    }
  }

  lemma InsertedAt(s: seq<nat>, k: nat, x: nat)
    requires k <= |s|
    ensures |Inserted(s, k, x)| == |s| + 1 && Inserted(s, k, x)[k] == x
    ensures forall i :: 0 <= i < k ==> Inserted(s, k, x)[i] == s[i]
    ensures forall i :: k <= i < |s| ==> Inserted(s, k, x)[i + 1] == s[i]
  {
  }

  lemma ThreeParts(c: seq<nat>, i0: nat, i1: nat, p: seq<nat>, f: seq<nat>, s: seq<nat>)
    requires i0 <= i1 < |c| && p == c[..i0] && f == c[i0..i1 + 1] && s == c[i1 + 1..]
    ensures c == p + f + s && |p| == i0 && |p| + |f| - 1 == i1 && f[0] == c[i0] && f[|f| - 1] == c[i1]
  {
  }

  function IndexOf(s: seq<nat>, x: nat): (i: nat)
    requires x in s
    ensures i < |s| && s[i] == x
  {
    if s[0] == x then 0 else 1 + IndexOf(s[1..], x)
  }

  lemma FinishFacts(p: seq<nat>, f: seq<nat>, s: seq<nat>, g: nat, j: int)
    requires NoDup(p + f + s) && f != [] && -1 <= j < |f| && (j >= 0 ==> f[j] == g) && (j < 0 ==> g !in p + f + s)
    ensures Middle(p, f, s, g, j, |f|) == p + [g] + s && g !in p && g !in s
  {
    var c0 := p + f + s;
    if j >= 0 {
      assert c0[|p| + j] == g;
      assert forall i :: 0 <= i < |p| ==> c0[i] == p[i];
      assert forall i :: 0 <= i < |s| ==> c0[|p| + |f| + i] == s[i];
    }
  }

  lemma PartAt(p: seq<nat>, f: seq<nat>, s: seq<nat>, i: nat)
    requires i < |f|
    ensures (p + f + s)[|p| + i] == f[i]
    ensures |p| + i + 1 < |p + f + s| ==> (p + f + s)[|p| + i + 1] == if i + 1 < |f| then f[i + 1] else s[0]
  {
  }

  // ---------- Two runs ----------

  /** The search leaves a list: 40 are free, 64 are asked for, and both belong to the same bin. */
  method StrayRun() returns (r: Result)
    ensures r.Undefined?
  {
    var h := new ObjectHeap(40, true, 0);
    var k := h.WhereLive(Obj(0, 0, 40));
    h.Dealloc(0, k);
    h.AllFree();
    SameBin();
    OneTooSmall(h);
    r := h.Alloc(64, 0, 0);
  }

  lemma SameBin()
    ensures SizeToBin(40) == SizeToBin(64)
  {
    assert Pow2(5) == 32 && Pow2(6) == 64;
    LargeSize(40);
    LargeSize(64);
    MaxLog2Least(40, 6);
    MaxLog2Least(64, 6);
  }

  lemma OneTooSmall(h: ObjectHeap)
    requires h.Sound() && |h.c| == 1 && FreeAt(h.elts, h.c, 0) && SizeAt(h.elts, h.c, h.len, 0) == 40
    requires SizeToBin(40) == SizeToBin(64)
    ensures h.ListTooSmall(64)
  {
    assert EltOk(h.elts, h.c, h.len, h.slots, 0);
    assert SlotOk(h.freeLists, h.slots, h.c[0]);
  }

  /** Three neighbours merge: the first and the last are freed, and then the one between them. */
  method ThreeMerge() returns (h: ObjectHeap, ghost before: nat)
    ensures fresh(h) && h.Valid() && Live(h.elts, h.c, h.len) == {} && before == 3 && |h.c| == 1
  {
    var b, e;
    h, b, e := ThreeObjects();
    ghost var k := h.WhereLive(Obj(0, 0, 10));
    h.Dealloc(0, k);
    k := h.WhereLive(Obj(e, 30, 30));
    h.Dealloc(e, k);
    h.FreeUsedFree(Obj(b, 10, 20));
    before := |h.c|;
    k := h.WhereLive(Obj(b, 10, 20));
    h.Dealloc(b, k);
    h.AllFree();
  }

  method ThreeObjects() returns (h: ObjectHeap, b: nat, e: nat)
    ensures fresh(h) && h.Valid() && h.len == 60
    ensures Live(h.elts, h.c, h.len) == {Obj(0, 0, 10), Obj(b, 10, 20), Obj(e, 30, 30)}
  {
    h := new ObjectHeap(10, true, 0);
    assert Obj(0, 0, 10) in Live(h.elts, h.c, h.len);
    b := AllocNext(h, 20);
    e := AllocNext(h, 30);
  }

  /** Where live objects are everywhere, the next is at the end. */
  method AllocNext(h: ObjectHeap, size: nat) returns (e: nat)
    requires h.Valid() && 0 < size && h.len + size < MAX_LEN && h.maxLen == 0
    requires forall x: nat :: x < h.len ==> h.InLive(x)
    modifies h
    ensures h.Valid() && h.len == old(h.len) + size
    ensures Live(h.elts, h.c, h.len) == old(Live(h.elts, h.c, h.len)) + {Obj(e, old(h.len), size)}
    ensures forall x: nat :: x < h.len ==> h.InLive(x)
  {
    h.Covered();
    h.NoneFree(size);
    var _ := RoomTaken(size, 0);
    var r := h.Alloc(size, 0, 0);
    assert r.Allocated? && r.offset == old(h.len);
    e := r.handle;
    ghost var o := Obj(e, old(h.len), size);
    forall x: nat | x < h.len ensures h.InLive(x) {
      if x < old(h.len) {
        assert old(h.InLive(x));
      } else {
        assert o in Live(h.elts, h.c, h.len);
      }
    }
  }
}
