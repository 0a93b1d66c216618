/** The boundary-tag allocator of clib/mheap.c.  Offsets and sizes count words of four bytes:
    all of the source's are multiples of that.
 */
module Mheap {
  import opened Words

  /** The u32 value ~0: no block. */
  const NONE: nat := 0xffff_ffff

  /** The size that marks the two ends of the heap. */
  const INVALID: nat := 0x7fff_ffff

  /** Words before the user data of a block: the size of the previous block, and its own. */
  const OVERHEAD: nat := 2

  /** A block must be able to hold two links. */
  const MIN_USER: nat := 2

  /** A word of memory: a tag with its 31-bit size and its flag, or a link, or user data. */
  datatype Cell = Cell(n: nat, f: bool)

  // ---------- Bins ----------

  const SMALL_BINS: nat := 256
  const LOG2_SMALL_BINS: nat := 8
  const N_BINS: nat := 280

  /** No heap is larger than 2^31 bytes. */
  const MAX_WORDS: nat := 0x2000_0000

  /** user_data_size_to_bin_index, for a size in words. */
  function BinOf(words: nat): nat {
    var n := if words < MIN_USER then MIN_USER else words;
    if n - MIN_USER < SMALL_BINS then n - MIN_USER
    else
      LargeBin(n);
      SMALL_BINS + MaxLog2(4 * n) - LOG2_SMALL_BINS
  }

  lemma Powers()
    ensures Pow2(8) == 256 && Pow2(10) == 1024 && Pow2(31) == 0x8000_0000
  {
    assert Pow2(8) == 256;
    assert Pow2(10) == 1024;
    Pow2Add(8, 8);
    Pow2Add(16, 8);
    Pow2Add(24, 7);
  }

  lemma AtLeastWord(x: nat)
    requires x >= 4
    ensures MaxLog2(x) >= 2
  {
    assert Pow2(1) == 2;
    MaxLog2Least(x, 1);
  }

  lemma LargeBin(n: nat)
    requires n > SMALL_BINS
    ensures MaxLog2(4 * n) > 10
  {
    Powers();
    MaxLog2Least(4 * n, 10);
  }

  /** A larger block is never in a smaller bin. */
  lemma BinMono(m: nat, n: nat)
    requires m <= n
    ensures BinOf(m) <= BinOf(n)
  {
    if n - MIN_USER >= SMALL_BINS {
      LargeBin(n);
      if m - MIN_USER >= SMALL_BINS {
        MaxLog2Least(4 * m, MaxLog2(4 * n));
        MaxLog2Least(4 * n, MaxLog2(4 * n));
      }
    }
  }

  /** Below 258 words each size has a bin of its own; above, a bin has the sizes from one power of two
      of bytes to the next. */
  lemma BinMeans(n: nat, k: nat)
    ensures MIN_USER <= n < 258 ==> BinOf(n) == n - 2
    ensures n >= 258 && 4 * n <= Pow2(k) < 8 * n ==> BinOf(n) == 248 + k
  {
    if n >= 258 {
      MaxLog2Below(4 * n, k);
    }
  }

  /** Every block that can occur has a bin, and in a small bin all blocks are as large. */
  lemma BinBounds(n: nat)
    requires n <= MAX_WORDS
    ensures BinOf(n) < N_BINS
    ensures BinOf(n) < SMALL_BINS && n >= MIN_USER ==> n == BinOf(n) + MIN_USER
  {
    if n - MIN_USER >= SMALL_BINS {
      LargeBin(n);
      Powers();
      MaxLog2Least(4 * n, 31);
    }
  }

  // ---------- Alignment ----------

  predicate Multiple(a: nat, x: int)
    requires a > 0
    decreases x
  {
    x == 0 || (x >= a && Multiple(a, x - a))
  }

  /** x &~ (a - 1), for a power of two a. */
  function RoundDown(x: nat, a: nat): (r: nat)
    requires a > 0
    ensures Multiple(a, r) && r <= x < r + a
  {
    if x < a then 0 else a + RoundDown(x - a, a)
  }

  lemma {:induction false} MultipleMeans(a: nat, x: nat)
    requires a > 0
    ensures Multiple(a, x) <==> x % a == 0
  {
    if x >= a {
      MultipleMeans(a, x - a);
      OneTurn(x, a);
    }
  }

  lemma OneTurn(x: nat, a: nat)
    requires 0 < a <= x
    ensures x % a == (x - a) % a
  {
    var q, m := (x - a) / a, (x - a) % a;
    assert x - a == a * q + m;
    assert a * q + a == (q + 1) * a;
    Quotient(x, a, q + 1, m);
  }

  /** RoundDown gives the largest multiple. */
  lemma {:induction false} LargestMultiple(a: nat, x: nat, y: nat)
    requires a > 0 && Multiple(a, y) && y <= x
    ensures y <= RoundDown(x, a)
  {
    if y > 0 {
      LargestMultiple(a, x - a, y - a);
    }
  }

  /** Two multiples are at least one step apart. */
  lemma {:induction false} MultipleStep(a: nat, x: int, y: int)
    requires a > 0 && Multiple(a, x) && Multiple(a, y) && x < y
    ensures x + a <= y
    decreases x
  {
    if x > 0 {
      MultipleStep(a, x - a, y - a);
    }
  }

  // ---------- Free lists ----------

  ghost predicate NoDup(s: seq<nat>) {
    forall i, j :: 0 <= i < j < |s| ==> s[i] != s[j]
  }

  /** The i-th block of a list names its neighbours. */
  ghost predicate LinksAt(mem: seq<Cell>, s: seq<nat>, i: nat)
    requires i < |s|
  {
    && s[i] + 1 < |mem|
    && mem[s[i]].n == (if i + 1 < |s| then s[i + 1] else NONE)
    && mem[s[i] + 1].n == (if i > 0 then s[i - 1] else NONE)
  }

  ghost predicate ListOk(mem: seq<Cell>, s: seq<nat>) {
    NoDup(s) && forall i {:trigger LinksAt(mem, s, i)} :: 0 <= i < |s| ==> LinksAt(mem, s, i)
  }

  /** The free lists: the first block of every bin, the bitmap of bins that are not empty, the
      lists they stand for, and the bin of every block on a list. */
  datatype FreeLists = FreeLists(heads: seq<nat>, nonEmpty: seq<bool>, lists: seq<seq<nat>>, listed: map<nat, nat>)

  function First(s: seq<nat>): nat {
    if s == [] then NONE else s[0]
  }

  ghost predicate BinOk(mem: seq<Cell>, q: FreeLists, b: nat)
    requires b < |q.heads| == |q.nonEmpty| == |q.lists|
  {
    && ListOk(mem, q.lists[b]) && q.heads[b] == First(q.lists[b]) && (q.nonEmpty[b] <==> q.lists[b] != [])
    && forall u :: u in q.lists[b] <==> u in q.listed && q.listed[u] == b
  }

  /** The links of different free blocks do not overlap. */
  ghost predicate Spaced(listed: map<nat, nat>) {
    forall u, v :: u in listed && v in listed && u < v ==> u + 1 < v
  }

  ghost predicate ListsOk(mem: seq<Cell>, q: FreeLists) {
    && |q.heads| == |q.nonEmpty| == |q.lists| == N_BINS
    && Spaced(q.listed) && (forall u :: u in q.listed ==> q.listed[u] < N_BINS && u < NONE)
    && forall b {:trigger BinOk(mem, q, b)} :: 0 <= b < N_BINS ==> BinOk(mem, q, b)
  }

  /** A word that holds a link of a free block. */
  ghost predicate LinkWord(listed: map<nat, nat>, w: nat) {
    w in listed || (w > 0 && w - 1 in listed)
  }

  lemma ListKept(mem: seq<Cell>, mem': seq<Cell>, s: seq<nat>)
    requires ListOk(mem, s) && |mem'| == |mem|
    requires forall i :: 0 <= i < |s| && s[i] + 1 < |mem| ==>
             mem'[s[i]].n == mem[s[i]].n && mem'[s[i] + 1].n == mem[s[i] + 1].n
    ensures ListOk(mem', s)
  {
    forall i | 0 <= i < |s| ensures LinksAt(mem', s, i) {
      assert LinksAt(mem, s, i);
    }
  }

  /** Memory may change outside the links. */
  lemma ListsKept(mem: seq<Cell>, mem': seq<Cell>, q: FreeLists)
    requires ListsOk(mem, q) && |mem'| == |mem|
    requires forall w :: 0 <= w < |mem| && LinkWord(q.listed, w) ==> mem'[w].n == mem[w].n
    ensures ListsOk(mem', q)
  {
    forall b | 0 <= b < N_BINS ensures BinOk(mem', q, b) {
      assert BinOk(mem, q, b);
      forall i | 0 <= i < |q.lists[b]| && q.lists[b][i] + 1 < |mem|
        ensures mem'[q.lists[b][i]].n == mem[q.lists[b][i]].n && mem'[q.lists[b][i] + 1].n == mem[q.lists[b][i] + 1].n
      {
        assert q.lists[b][i] in q.lists[b];
        assert LinkWord(q.listed, q.lists[b][i]) && LinkWord(q.listed, q.lists[b][i] + 1);
      }
      ListKept(mem, mem', q.lists[b]);
    }
  }

  // Putting a block on a list

  ghost function Pushed(q: FreeLists, u: nat, b: nat): FreeLists
    requires b < |q.heads| == |q.nonEmpty| == |q.lists|
  {
    FreeLists(q.heads[b := u], q.nonEmpty[b := true], q.lists[b := [u] + q.lists[b]], q.listed[u := b])
  }

  /** What set_free_elt stores. */
  ghost predicate PushStores(mem: seq<Cell>, mem': seq<Cell>, u: nat, head: nat) {
    && |mem'| == |mem| && u + 1 < |mem|
    && mem'[u].n == head && mem'[u + 1].n == NONE
    && (head != NONE ==> head + 1 < |mem| && mem'[head + 1].n == u)
    && forall w :: 0 <= w < |mem| && w != u && w != u + 1 && (head != NONE ==> w != head + 1) ==> mem'[w] == mem[w]
  }

  lemma PushOwnList(mem: seq<Cell>, mem': seq<Cell>, s: seq<nat>, u: nat)
    requires ListOk(mem, s) && u < NONE && PushStores(mem, mem', u, First(s))
    requires forall i :: 0 <= i < |s| ==> s[i] < NONE && (s[i] + 1 < u || u + 1 < s[i])
    requires forall i, j :: 0 <= i < |s| && 0 <= j < |s| && s[i] < s[j] ==> s[i] + 1 < s[j]
    ensures ListOk(mem', [u] + s)
  {
    var t := [u] + s;
    forall i | 0 <= i < |t| ensures LinksAt(mem', t, i) {
      if i > 0 {
        assert LinksAt(mem, s, i - 1);
        assert i > 1 ==> s[i - 1] != s[0];
      }
    }
  }

  lemma PushOtherList(mem: seq<Cell>, mem': seq<Cell>, q: FreeLists, u: nat, b: nat, c: nat)
    requires ListsOk(mem, q) && b < N_BINS && c < N_BINS && c != b && u !in q.listed
    requires PushStores(mem, mem', u, q.heads[b])
    requires forall v :: v in q.listed ==> v + 1 < u || u + 1 < v
    ensures BinOk(mem', Pushed(q, u, b), c)
  {
    assert BinOk(mem, q, b) && BinOk(mem, q, c);
    forall i | 0 <= i < |q.lists[c]| && q.lists[c][i] + 1 < |mem|
      ensures mem'[q.lists[c][i]].n == mem[q.lists[c][i]].n && mem'[q.lists[c][i] + 1].n == mem[q.lists[c][i] + 1].n
    {
      assert q.lists[c][i] in q.lists[c];
      assert q.lists[b] != [] ==> q.lists[b][0] in q.lists[b];
    }
    ListKept(mem, mem', q.lists[c]);
  }

  lemma PushOk(mem: seq<Cell>, mem': seq<Cell>, q: FreeLists, u: nat, b: nat)
    requires ListsOk(mem, q) && b < N_BINS && u !in q.listed && u < NONE
    requires PushStores(mem, mem', u, q.heads[b])
    requires forall v :: v in q.listed ==> v + 1 < u || u + 1 < v
    ensures ListsOk(mem', Pushed(q, u, b))
  {
    var q' := Pushed(q, u, b);
    assert BinOk(mem, q, b);
    forall i | 0 <= i < |q.lists[b]| ensures q.lists[b][i] in q.listed {
    }
    PushOwnList(mem, mem', q.lists[b], u);
    forall v ensures v in q'.lists[b] <==> v in q'.listed && q'.listed[v] == b {
      assert v in q'.lists[b] <==> v == u || v in q.lists[b];
    }
    forall c | 0 <= c < N_BINS ensures BinOk(mem', q', c) {
      if c != b {
        PushOtherList(mem, mem', q, u, b, c);
      }
    }
  }

  // Taking a block off its list

  function Without(s: seq<nat>, k: nat): seq<nat>
    requires k < |s|
  {
    s[..k] + s[k + 1..]
  }

  ghost function Unlisted(q: FreeLists, u: nat, b: nat, k: nat): FreeLists
    requires b < |q.heads| == |q.nonEmpty| == |q.lists| && k < |q.lists[b]|
  {
    var s := Without(q.lists[b], k);
    FreeLists(q.heads[b := First(s)], q.nonEmpty[b := s != []], q.lists[b := s], q.listed - {u})
  }

  /** What remove_free_elt stores. */
  ghost predicate RemoveStores(mem: seq<Cell>, mem': seq<Cell>, no: nat, po: nat) {
    && |mem'| == |mem|
    && (no != NONE ==> no + 1 < |mem| && mem'[no + 1].n == po)
    && (po != NONE ==> po < |mem| && mem'[po].n == no)
    && forall w :: 0 <= w < |mem| && (po != NONE ==> w != po) && (no != NONE ==> w != no + 1) ==> mem'[w] == mem[w]
  }

  lemma RemoveOwnList(mem: seq<Cell>, mem': seq<Cell>, s: seq<nat>, k: nat)
    requires ListOk(mem, s) && k < |s| && s[k] + 1 < |mem| && RemoveStores(mem, mem', mem[s[k]].n, mem[s[k] + 1].n)
    requires forall i :: 0 <= i < |s| ==> s[i] < NONE
    requires forall i, j :: 0 <= i < |s| && 0 <= j < |s| && s[i] < s[j] ==> s[i] + 1 < s[j]
    ensures ListOk(mem', Without(s, k))
  {
    var t := Without(s, k);
    assert LinksAt(mem, s, k);
    forall i | 0 <= i < |t| ensures LinksAt(mem', t, i) {
      var j := if i < k then i else i + 1;
      assert LinksAt(mem, s, j);
      assert t[i] == s[j];
      assert i + 1 < |t| ==> t[i + 1] == if i + 1 < k then s[i + 1] else s[i + 2];
      assert i > 0 ==> t[i - 1] == if i - 1 < k then s[i - 1] else s[i];
    }
  }

  lemma RemoveOtherList(mem: seq<Cell>, mem': seq<Cell>, q: FreeLists, u: nat, b: nat, k: nat, c: nat)
    requires ListsOk(mem, q) && b < N_BINS && c < N_BINS && c != b && k < |q.lists[b]| && u == q.lists[b][k] &&
             u + 1 < |mem|
    requires RemoveStores(mem, mem', mem[u].n, mem[u + 1].n)
    ensures BinOk(mem', Unlisted(q, u, b, k), c)
  {
    assert BinOk(mem, q, b) && BinOk(mem, q, c) && LinksAt(mem, q.lists[b], k);
    assert u in q.lists[b];
    var s := q.lists[b];
    assert k + 1 < |s| ==> s[k + 1] in s;
    assert k > 0 ==> s[k - 1] in s;
    forall i | 0 <= i < |q.lists[c]| && q.lists[c][i] + 1 < |mem|
      ensures mem'[q.lists[c][i]].n == mem[q.lists[c][i]].n && mem'[q.lists[c][i] + 1].n == mem[q.lists[c][i] + 1].n
    {
      assert q.lists[c][i] in q.lists[c];
    }
    ListKept(mem, mem', q.lists[c]);
  }

  lemma WithoutElements(s: seq<nat>, k: nat)
    requires k < |s| && NoDup(s)
    ensures forall x :: x in Without(s, k) <==> x in s && x != s[k]
  {
    assert s == s[..k] + [s[k]] + s[k + 1..];
  }

  lemma NewFirst(s: seq<nat>, k: nat)
    requires k < |s|
    ensures First(Without(s, k)) == if k > 0 then s[0] else if |s| > 1 then s[1] else NONE
    ensures Without(s, k) == [] <==> |s| == 1
  {
  }

  lemma RemoveOk(mem: seq<Cell>, mem': seq<Cell>, q: FreeLists, u: nat, b: nat, k: nat)
    requires ListsOk(mem, q) && b < N_BINS && k < |q.lists[b]| && u == q.lists[b][k] && u + 1 < |mem|
    requires RemoveStores(mem, mem', mem[u].n, mem[u + 1].n)
    ensures ListsOk(mem', Unlisted(q, u, b, k))
  {
    var q' := Unlisted(q, u, b, k);
    assert BinOk(mem, q, b);
    forall i | 0 <= i < |q.lists[b]| ensures q.lists[b][i] in q.listed {
    }
    RemoveOwnList(mem, mem', q.lists[b], k);
    WithoutElements(q.lists[b], k);
    forall c | 0 <= c < N_BINS ensures BinOk(mem', q', c) {
      if c != b {
        RemoveOtherList(mem, mem', q, u, b, k, c);
      }
    }
  }

  /** Every block on a list is found there. */
  lemma OnItsList(mem: seq<Cell>, q: FreeLists, u: nat) returns (k: nat)
    requires ListsOk(mem, q) && u in q.listed
    ensures q.listed[u] < N_BINS && k < |q.lists[q.listed[u]]| && q.lists[q.listed[u]][k] == u && u + 1 < |mem|
    ensures LinksAt(mem, q.lists[q.listed[u]], k)
  {
    var b := q.listed[u];
    assert BinOk(mem, q, b);
    k :| 0 <= k < |q.lists[b]| && q.lists[b][k] == u;
    assert LinksAt(mem, q.lists[b], k);
  }

  // ---------- The blocks ----------

  /** A block: where its user data starts, how many words they are, and whether it is free. */
  datatype Block = Block(uo: nat, n: nat, free: bool)

  /** Where block i starts; after the last one, the end of the heap. */
  function Start(blocks: seq<Block>, len: nat, i: nat): nat {
    if i < |blocks| then blocks[i].uo else len
  }

  /** The tags before and behind a block agree with it. */
  ghost predicate Tagged(mem: seq<Cell>, b: Block) {
    0 < b.uo && b.uo + b.n < |mem| && mem[b.uo - 1] == Cell(b.n, b.free) && mem[b.uo + b.n] == Cell(b.n, b.free)
  }

  /** Block i is tagged, and the next one starts right behind it. */
  ghost predicate BlockOk(mem: seq<Cell>, blocks: seq<Block>, len: nat, i: nat)
    requires i < |blocks|
  {
    var b := blocks[i];
    Tagged(mem, b) && b.n >= MIN_USER && b.uo >= OVERHEAD && b.uo + b.n + OVERHEAD == Start(blocks, len, i + 1)
  }

  /** No two free blocks are adjacent, and the last block is not free. */
  ghost predicate Alternating(blocks: seq<Block>) {
    forall i {:trigger Follows(blocks, i)} :: 0 <= i < |blocks| && blocks[i].free ==> Follows(blocks, i)
  }

  /** Block i is followed by one that is not free. */
  ghost predicate Follows(blocks: seq<Block>, i: nat) {
    i + 1 < |blocks| && !blocks[i + 1].free
  }

  /** The blocks tile the heap exactly. */
  ghost predicate Tiled(mem: seq<Cell>, blocks: seq<Block>, len: nat) {
    && len <= |mem|
    && (if blocks == [] then len == 0 || len == OVERHEAD
        else blocks[0].uo == OVERHEAD && 0 < len && mem[len - 1].n == INVALID)
    && (0 < len ==> mem[0].n == INVALID) && (0 < |mem| ==> !mem[0].f)
    && forall i {:trigger BlockOk(mem, blocks, len, i)} :: 0 <= i < |blocks| ==> BlockOk(mem, blocks, len, i)
  }

  lemma {:induction false} Ordered(mem: seq<Cell>, blocks: seq<Block>, len: nat, i: nat, j: nat)
    requires Tiled(mem, blocks, len) && i < j <= |blocks|
    ensures blocks[i].uo + blocks[i].n + OVERHEAD <= Start(blocks, len, j) <= len
    decreases |blocks| - i
  {
    assert BlockOk(mem, blocks, len, i);
    if i + 1 < |blocks| {
      Ordered(mem, blocks, len, i + 1, |blocks|);
      if i + 1 < j {
        Ordered(mem, blocks, len, i + 1, j);
        if j < |blocks| {
          Ordered(mem, blocks, len, j, |blocks|);
        }
      }
    }
  }

  /** The blocks with those from i up to j replaced. */
  function Replaced(blocks: seq<Block>, i: nat, j: nat, mid: seq<Block>): seq<Block>
    requires i <= j <= |blocks|
  {
    blocks[..i] + mid + blocks[j..]
  }

  /** New blocks, tagged, one right behind the other up to the given end. */
  ghost predicate Chained(mem: seq<Cell>, mid: seq<Block>, end: nat) {
    forall k {:trigger BlockOk(mem, mid, end, k)} :: 0 <= k < |mid| ==> BlockOk(mem, mid, end, k)
  }

  /** Replacing some blocks by others that fill the same space; at the end of the heap, the space
      may change. */
  lemma Spliced(mem: seq<Cell>, mem': seq<Cell>, blocks: seq<Block>, len: nat, i: nat, j: nat, mid: seq<Block>,
                len': nat)
    requires Tiled(mem, blocks, len) && i <= j <= |blocks| && |mem'| == |mem| && len' <= |mem|
    requires Chained(mem', mid, if j < |blocks| then blocks[j].uo else len')
    requires (if mid != [] then mid[0].uo else if j < |blocks| then blocks[j].uo else len') == Start(blocks, len, i)
    requires j < |blocks| ==> len' == len
    requires forall t :: 0 <= t < |blocks| && (t < i || t >= j) ==> Tagged(mem', blocks[t])
    requires 0 < len' && (0 < i || mid != [] || j < |blocks|) && mem'[len' - 1].n == INVALID && mem'[0] == mem[0]
    requires i == 0 ==> Start(blocks, len, 0) == OVERHEAD && 0 < len
    ensures Tiled(mem', Replaced(blocks, i, j, mid), len')
  {
    var r := Replaced(blocks, i, j, mid);
    forall t | 0 <= t < |r| ensures BlockOk(mem', r, len', t) {
      if t < i {
        assert BlockOk(mem, blocks, len, t);
        assert r[t] == blocks[t];
      } else if t < i + |mid| {
        assert BlockOk(mem', mid, if j < |blocks| then blocks[j].uo else len', t - i);
        assert r[t] == mid[t - i];
      } else {
        var o := t - i - |mid| + j;
        assert BlockOk(mem, blocks, len, o);
        assert r[t] == blocks[o];
      }
    }
    assert i > 0 ==> BlockOk(mem, blocks, len, 0);
  }

  // ---------- What is allocated ----------

  /** User data of a caller: its offset and size. */
  datatype Region = Region(offset: nat, size: nat)

  ghost function Live(blocks: seq<Block>): set<Region> {
    set b | b in blocks && !b.free :: Region(b.uo, b.n)
  }

  ghost predicate Disjoint(r: Region, s: Region) {
    r.offset + r.size <= s.offset || s.offset + s.size <= r.offset
  }

  ghost predicate Apart(live: set<Region>, s: Region) {
    forall r :: r in live ==> Disjoint(r, s)
  }

  function Allocated(blocks: seq<Block>): nat {
    if blocks == [] then 0
    else Allocated(blocks[..|blocks| - 1]) + if blocks[|blocks| - 1].free then 0 else 1
  }

  lemma {:induction false} AllocatedJoin(a: seq<Block>, b: seq<Block>)
    ensures Allocated(a + b) == Allocated(a) + Allocated(b)
  {
    if b == [] {
      assert a + b == a;
    } else {
      AllocatedJoin(a, b[..|b| - 1]);
      assert (a + b)[..|a + b| - 1] == a + b[..|b| - 1];
    }
  }

  lemma AllocatedReplaced(blocks: seq<Block>, i: nat, j: nat, mid: seq<Block>)
    requires i <= j <= |blocks|
    ensures Allocated(Replaced(blocks, i, j, mid)) == Allocated(blocks) - Allocated(blocks[i..j]) + Allocated(mid)
  {
    AllocatedJoin(blocks[..i] + mid, blocks[j..]);
    AllocatedJoin(blocks[..i], mid);
    assert blocks == blocks[..i] + blocks[i..j] + blocks[j..];
    AllocatedJoin(blocks[..i] + blocks[i..j], blocks[j..]);
    AllocatedJoin(blocks[..i], blocks[i..j]);
  }

  lemma LiveReplaced(blocks: seq<Block>, i: nat, j: nat, mid: seq<Block>)
    requires i <= j <= |blocks|
    ensures Live(blocks) == Live(blocks[..i]) + Live(blocks[i..j]) + Live(blocks[j..])
    ensures Live(Replaced(blocks, i, j, mid)) == Live(blocks[..i]) + Live(mid) + Live(blocks[j..])
  {
    assert blocks == blocks[..i] + blocks[i..j] + blocks[j..];
  }

  /** Live regions never overlap, and lie within the heap. */
  lemma LiveDisjoint(mem: seq<Cell>, blocks: seq<Block>, len: nat)
    requires Tiled(mem, blocks, len)
    ensures forall r, s :: r in Live(blocks) && s in Live(blocks) && r != s ==> Disjoint(r, s)
    ensures forall r :: r in Live(blocks) ==> OVERHEAD <= r.offset && r.offset + r.size + OVERHEAD <= len
  {
    forall r | r in Live(blocks) ensures OVERHEAD <= r.offset && r.offset + r.size + OVERHEAD <= len {
      var i :| 0 <= i < |blocks| && r == Region(blocks[i].uo, blocks[i].n);
      assert BlockOk(mem, blocks, len, i);
      Ordered(mem, blocks, len, i, |blocks|);
    }
    forall r, s | r in Live(blocks) && s in Live(blocks) && r != s ensures Disjoint(r, s) {
      var i :| 0 <= i < |blocks| && r == Region(blocks[i].uo, blocks[i].n);
      var j :| 0 <= j < |blocks| && s == Region(blocks[j].uo, blocks[j].n);
      if i < j {
        Ordered(mem, blocks, len, i, j);
      } else {
        Ordered(mem, blocks, len, j, i);
      }
    }
  }

  function DataWords(blocks: seq<Block>): nat {
    if blocks == [] then 0 else DataWords(blocks[..|blocks| - 1]) + blocks[|blocks| - 1].n
  }

  /** Nothing is lost: user data and one overhead more than there are blocks make up the heap. */
  lemma Conservation(mem: seq<Cell>, blocks: seq<Block>, len: nat)
    requires Tiled(mem, blocks, len) && blocks != []
    ensures DataWords(blocks) + (|blocks| + 1) * OVERHEAD == len
  {
    DataUpTo(mem, blocks, len, |blocks|);
    assert blocks[..|blocks|] == blocks;
  }

  lemma {:induction false} DataUpTo(mem: seq<Cell>, blocks: seq<Block>, len: nat, i: nat)
    requires Tiled(mem, blocks, len) && blocks != [] && i <= |blocks|
    ensures DataWords(blocks[..i]) + (i + 1) * OVERHEAD == Start(blocks, len, i)
  {
    if i > 0 {
      DataUpTo(mem, blocks, len, i - 1);
      assert BlockOk(mem, blocks, len, i - 1);
      assert blocks[..i][..i - 1] == blocks[..i - 1];
    }
  }

  // ---------- Free blocks and free lists ----------

  ghost predicate IsFree(blocks: seq<Block>, u: nat) {
    exists i :: 0 <= i < |blocks| && blocks[i].free && blocks[i].uo == u
  }

  /** Exactly the free blocks are listed, each in the bin of its size. */
  ghost predicate FreeListed(blocks: seq<Block>, listed: map<nat, nat>) {
    && (forall i {:trigger InItsBin(blocks, listed, i)} :: 0 <= i < |blocks| ==> InItsBin(blocks, listed, i))
    && forall u {:trigger IsFree(blocks, u)} :: u in listed ==> IsFree(blocks, u)
  }

  ghost predicate InItsBin(blocks: seq<Block>, listed: map<nat, nat>, i: nat)
    requires i < |blocks|
  {
    blocks[i].free ==> blocks[i].uo in listed && listed[blocks[i].uo] == BinOf(blocks[i].n)
  }

  /** Memory has changed at most from lo to hi and in links. */
  ghost predicate Within(mem: seq<Cell>, mem': seq<Cell>, lo: nat, hi: nat, listed: map<nat, nat>) {
    |mem'| == |mem| && forall w :: 0 <= w < |mem| && (w < lo || w > hi) && !LinkWord(listed, w) ==> mem'[w] == mem[w]
  }

  /** Links are neither tags nor, in blocks that are not free, user data. */
  lemma LinksInside(mem: seq<Cell>, blocks: seq<Block>, len: nat, listed: map<nat, nat>, t: nat)
    requires Tiled(mem, blocks, len) && FreeListed(blocks, listed) && t < |blocks|
    ensures blocks[t].uo >= OVERHEAD
    ensures !LinkWord(listed, blocks[t].uo - 1) && !LinkWord(listed, blocks[t].uo + blocks[t].n)
    ensures !blocks[t].free ==> forall w :: blocks[t].uo <= w < blocks[t].uo + blocks[t].n ==> !LinkWord(listed, w)
    ensures !LinkWord(listed, 0) && (len > 0 ==> !LinkWord(listed, len - 1))
  {
    assert BlockOk(mem, blocks, len, t);
    forall u | u in listed
      ensures OVERHEAD <= u && u + 2 < len && u != blocks[t].uo - 1 && u + 1 != blocks[t].uo - 1
      ensures u != blocks[t].uo + blocks[t].n && u + 1 != blocks[t].uo + blocks[t].n
      ensures !blocks[t].free ==> u + 1 < blocks[t].uo || u >= blocks[t].uo + blocks[t].n
    {
      assert IsFree(blocks, u);
      var i :| 0 <= i < |blocks| && blocks[i].free && blocks[i].uo == u;
      assert BlockOk(mem, blocks, len, i);
      Ordered(mem, blocks, len, i, |blocks|);
      if i < t {
        Ordered(mem, blocks, len, i, t);
      } else if t < i {
        Ordered(mem, blocks, len, t, i);
      }
    }
  }

  /** The tags and, unless it is free, the data of a block outside the range are untouched. */
  lemma OutsideKept(mem: seq<Cell>, mem': seq<Cell>, blocks: seq<Block>, len: nat, listed: map<nat, nat>, i: nat,
                    j: nat, t: nat)
    requires Tiled(mem, blocks, len) && FreeListed(blocks, listed) && i < j <= |blocks| && t < |blocks| &&
             (t < i || t >= j)
    requires 0 < blocks[i].uo && 0 < Start(blocks, len, j) - 1 &&
             Within(mem, mem', blocks[i].uo - 1, Start(blocks, len, j) - 2, listed)
    ensures Tagged(mem', blocks[t])
    ensures !blocks[t].free ==> forall w :: blocks[t].uo <= w < blocks[t].uo + blocks[t].n ==>
            w < |mem| && mem'[w] == mem[w]
  {
    LinksInside(mem, blocks, len, listed, t);
    assert BlockOk(mem, blocks, len, t);
    if t < i {
      Ordered(mem, blocks, len, t, i);
    } else {
      assert BlockOk(mem, blocks, len, j - 1);
      if j < t {
        Ordered(mem, blocks, len, j, t);
      }
    }
  }

  /** No word of these regions has changed. */
  ghost predicate Untouched(mem: seq<Cell>, mem': seq<Cell>, live: set<Region>) {
    forall r, w :: r in live && r.offset <= w < r.offset + r.size ==> w < |mem| && w < |mem'| && mem'[w] == mem[w]
  }

  /** The free blocks are listed once those from i up to j have been replaced. */
  ghost predicate Relisted(blocks: seq<Block>, i: nat, j: nat, mid: seq<Block>, listed: map<nat, nat>,
                           listed': map<nat, nat>)
    requires i <= j < |blocks|
  {
    && (forall t :: 0 <= t < |mid| && mid[t].free ==> mid[t].uo in listed' && listed'[mid[t].uo] == BinOf(mid[t].n))
    && (forall u :: u in listed' ==> IsFree(mid, u) || (u in listed && (u < blocks[i].uo || u >= blocks[j].uo)))
    && (forall u :: u in listed && (u < blocks[i].uo || u >= blocks[j].uo) ==> u in listed' && listed'[u] == listed[u])
  }

  lemma RelistedOk(mem: seq<Cell>, blocks: seq<Block>, len: nat, i: nat, j: nat, mid: seq<Block>, listed: map<nat, nat>,
                   listed': map<nat, nat>)
    requires Tiled(mem, blocks, len) && FreeListed(blocks, listed) && i < j < |blocks| &&
             Relisted(blocks, i, j, mid, listed, listed')
    ensures FreeListed(Replaced(blocks, i, j, mid), listed')
  {
    var r := Replaced(blocks, i, j, mid);
    forall t | 0 <= t < |r| ensures InItsBin(r, listed', t) {
      if t < i {
        Ordered(mem, blocks, len, t, i);
        assert r[t] == blocks[t] && InItsBin(blocks, listed, t);
      } else if t < i + |mid| {
        assert r[t] == mid[t - i];
      } else {
        var o := t - i - |mid| + j;
        assert r[t] == blocks[o] && InItsBin(blocks, listed, o);
        if j < o {
          Ordered(mem, blocks, len, j, o);
        }
      }
    }
    forall u | u in listed' ensures IsFree(r, u) {
      if IsFree(mid, u) {
        var t :| 0 <= t < |mid| && mid[t].free && mid[t].uo == u;
        assert r[i + t] == mid[t];
      } else {
        assert IsFree(blocks, u);
        var t :| 0 <= t < |blocks| && blocks[t].free && blocks[t].uo == u;
        if t < i {
          assert r[t] == blocks[t];
        } else if t < j {
          if i < t {
            Ordered(mem, blocks, len, i, t);
          }
          Ordered(mem, blocks, len, t, j);
          assert false;
        } else {
          assert r[t - j + i + |mid|] == blocks[t];
        }
      }
    }
  }

  /** Replacing blocks inside the heap by others that fill the same space. */
  lemma Reblocked(mem: seq<Cell>, mem': seq<Cell>, blocks: seq<Block>, len: nat, i: nat, j: nat, mid: seq<Block>,
                  listed: map<nat, nat>, listed': map<nat, nat>)
    requires Tiled(mem, blocks, len) && FreeListed(blocks, listed) && i < j < |blocks|
    requires mid != [] && mid[0].uo == blocks[i].uo && Chained(mem', mid, blocks[j].uo)
    requires 0 < blocks[i].uo && 2 < blocks[j].uo && Within(mem, mem', blocks[i].uo - 1, blocks[j].uo - 2, listed)
    requires Relisted(blocks, i, j, mid, listed, listed')
    ensures Tiled(mem', Replaced(blocks, i, j, mid), len) && FreeListed(Replaced(blocks, i, j, mid), listed')
    ensures Untouched(mem, mem', Live(blocks[..i]) + Live(blocks[j..]))
  {
    assert BlockOk(mem, blocks, len, i) && BlockOk(mem, blocks, len, 0);
    Ordered(mem, blocks, len, j, |blocks|);
    LinksInside(mem, blocks, len, listed, i);
    forall t | 0 <= t < |blocks| && (t < i || t >= j)
      ensures Tagged(mem', blocks[t])
      ensures !blocks[t].free ==> forall w :: blocks[t].uo <= w < blocks[t].uo + blocks[t].n ==>
              w < |mem| && mem'[w] == mem[w]
    {
      OutsideKept(mem, mem', blocks, len, listed, i, j, t);
    }
    Spliced(mem, mem', blocks, len, i, j, mid, len);
    RelistedOk(mem, blocks, len, i, j, mid, listed, listed');
    LiveIndex(blocks, i, j);
  }

  /** A live region outside the range is that of a block outside the range. */
  lemma LiveIndex(blocks: seq<Block>, i: nat, j: nat)
    requires i <= j <= |blocks|
    ensures forall r :: r in Live(blocks[..i]) + Live(blocks[j..]) ==>
              exists t ::
                0 <= t < |blocks| && (t < i || t >= j) && !blocks[t].free && r == Region(blocks[t].uo, blocks[t].n)
  {
    forall r | r in Live(blocks[..i]) + Live(blocks[j..])
      ensures exists t ::
                0 <= t < |blocks| && (t < i || t >= j) && !blocks[t].free && r == Region(blocks[t].uo, blocks[t].n)
    {
      if r in Live(blocks[..i]) {
        var t :| 0 <= t < i && !blocks[..i][t].free && r == Region(blocks[..i][t].uo, blocks[..i][t].n);
        assert blocks[t] == blocks[..i][t];
      } else {
        var t :| 0 <= t < |blocks| - j && !blocks[j..][t].free && r == Region(blocks[j..][t].uo, blocks[j..][t].n);
        assert blocks[j + t] == blocks[j..][t];
      }
    }
  }

  /** No link of a listed block lies from lo to hi. */
  ghost predicate ClearOf(listed: map<nat, nat>, lo: nat, hi: nat) {
    forall v :: v in listed ==> v + 1 < lo || v > hi
  }

  lemma WithinChain(m: seq<Cell>, m1: seq<Cell>, m2: seq<Cell>, lo: nat, hi: nat, listed: map<nat, nat>, lo1: nat,
                    hi1: nat, listed1: map<nat, nat>)
    requires Within(m, m1, lo, hi, listed) && Within(m1, m2, lo1, hi1, listed1) && lo <= lo1 && hi1 <= hi
    requires forall u :: u in listed1 ==> u in listed || (lo <= u && u < hi)
    ensures Within(m, m2, lo, hi, listed)
  {
  }

  /** The surroundings of a free block. */
  lemma AroundFree(mem: seq<Cell>, blocks: seq<Block>, len: nat, listed: map<nat, nat>, k: nat)
    requires Tiled(mem, blocks, len) && Alternating(blocks) && FreeListed(blocks, listed) && k < |blocks| &&
             blocks[k].free
    ensures k + 1 < |blocks| && !blocks[k + 1].free && (k > 0 ==> !blocks[k - 1].free)
    ensures var b := blocks[k];
            && OVERHEAD <= b.uo && MIN_USER <= b.n && b.uo + b.n + OVERHEAD == blocks[k + 1].uo <= len <= |mem|
            && ClearOf(listed - {b.uo}, b.uo - 1, b.uo + b.n + 1) && mem[b.uo - 2].n >= MIN_USER &&
                !LinkWord(listed, b.uo - 2)
            && b.uo in listed && listed[b.uo] == BinOf(b.n)
  {
    assert Follows(blocks, k) && InItsBin(blocks, listed, k);
    assert k > 0 && blocks[k - 1].free ==> Follows(blocks, k - 1);
    assert BlockOk(mem, blocks, len, k);
    Ordered(mem, blocks, len, k + 1, |blocks|);
    LinksInside(mem, blocks, len, listed, k);
    if k > 0 {
      assert BlockOk(mem, blocks, len, k - 1);
      LinksInside(mem, blocks, len, listed, k - 1);
    }
    forall v | v in listed && v != blocks[k].uo ensures v + 1 < blocks[k].uo - 1 || v > blocks[k].uo + blocks[k].n + 1 {
      assert IsFree(blocks, v);
      var t :| 0 <= t < |blocks| && blocks[t].free && blocks[t].uo == v;
      assert BlockOk(mem, blocks, len, t);
      if t < k {
        Ordered(mem, blocks, len, t, k);
      } else {
        Ordered(mem, blocks, len, k, t);
      }
    }
  }

  /** What a free block from f0 to f1 becomes when s words at o0 are taken from it. */
  function Pieces(f0: nat, f1: nat, o0: nat, s: nat): seq<Block>
    requires f0 == o0 || f0 + OVERHEAD <= o0
    requires o0 + s == f1 || o0 + s + OVERHEAD <= f1
  {
    (if f0 < o0 then [Block(f0, o0 - f0 - OVERHEAD, true)] else [])
    + [Block(o0, s, false)]
    + (if o0 + s < f1 then [Block(o0 + s + OVERHEAD, f1 - o0 - s - OVERHEAD, true)] else [])
  }

  lemma PiecesChained(mem: seq<Cell>, f0: nat, f1: nat, o0: nat, s: nat)
    requires OVERHEAD <= f0 && (f0 == o0 || f0 + OVERHEAD + MIN_USER <= o0)
    requires MIN_USER <= s && (o0 + s == f1 || o0 + s + OVERHEAD + MIN_USER <= f1)
    requires Tagged(mem, Block(o0, s, false))
    requires f0 < o0 ==> Tagged(mem, Block(f0, o0 - f0 - OVERHEAD, true))
    requires o0 + s < f1 ==> Tagged(mem, Block(o0 + s + OVERHEAD, f1 - o0 - s - OVERHEAD, true))
    ensures Chained(mem, Pieces(f0, f1, o0, s), f1 + OVERHEAD)
    ensures Pieces(f0, f1, o0, s)[0].uo == f0
  {
    var p, end := Pieces(f0, f1, o0, s), f1 + OVERHEAD;
    forall k | 0 <= k < |p| ensures BlockOk(mem, p, end, k) {
    }
  }

  /** The new block is alone in being allocated; its neighbours are free only inside the old block. */
  lemma PiecesAlternate(blocks: seq<Block>, k: nat, f0: nat, f1: nat, o0: nat, s: nat)
    requires Alternating(blocks) && k < |blocks| && blocks[k].free
    requires (f0 == o0 || f0 + OVERHEAD <= o0) && (o0 + s == f1 || o0 + s + OVERHEAD <= f1)
    ensures Alternating(Replaced(blocks, k, k + 1, Pieces(f0, f1, o0, s)))
    ensures Allocated(Replaced(blocks, k, k + 1, Pieces(f0, f1, o0, s))) == Allocated(blocks) + 1
    ensures Live(Replaced(blocks, k, k + 1, Pieces(f0, f1, o0, s))) == Live(blocks) + {Region(o0, s)}
    ensures Live(blocks) == Live(blocks[..k]) + Live(blocks[k + 1..])
  {
    var p := Pieces(f0, f1, o0, s);
    var r := Replaced(blocks, k, k + 1, p);
    assert Follows(blocks, k);
    forall t | 0 <= t < |r| && r[t].free ensures Follows(r, t) {
      if t < k {
        assert r[t] == blocks[t];
        assert Follows(blocks, t);
      } else if t < k + |p| {
        assert r[t] == p[t - k];
      } else {
        assert r[t] == blocks[t - |p| + 1];
        assert Follows(blocks, t - |p| + 1);
      }
    }
    PiecesLive(f0, f1, o0, s);
    AllocatedReplaced(blocks, k, k + 1, p);
    LiveReplaced(blocks, k, k + 1, p);
    assert blocks[k..k + 1] == [blocks[k]];
    assert Allocated([blocks[k]]) == 0 && Live([blocks[k]]) == {};
  }

  lemma PiecesLive(f0: nat, f1: nat, o0: nat, s: nat)
    requires (f0 == o0 || f0 + OVERHEAD <= o0) && (o0 + s == f1 || o0 + s + OVERHEAD <= f1)
    ensures Allocated(Pieces(f0, f1, o0, s)) == 1 && Live(Pieces(f0, f1, o0, s)) == {Region(o0, s)}
  {
    var lo := if f0 < o0 then [Block(f0, o0 - f0 - OVERHEAD, true)] else [];
    var hi := if o0 + s < f1 then [Block(o0 + s + OVERHEAD, f1 - o0 - s - OVERHEAD, true)] else [];
    var mid := [Block(o0, s, false)];
    AllocatedJoin(lo + mid, hi);
    AllocatedJoin(lo, mid);
    assert Allocated(lo) == 0 && Allocated(hi) == 0 && Allocated(mid) == 1;
    assert Pieces(f0, f1, o0, s) == lo + mid + hi;
    assert mid[0] in lo + mid + hi;
  }

  lemma Carved(mem: seq<Cell>, mem': seq<Cell>, blocks: seq<Block>, len: nat, k: nat, f0: nat, f1: nat, o0: nat, s: nat,
               listed: map<nat, nat>, listed': map<nat, nat>)
    requires Tiled(mem, blocks, len) && Alternating(blocks) && FreeListed(blocks, listed)
    requires k < |blocks| && f0 <= f1 && blocks[k] == Block(f0, f1 - f0, true)
    requires f0 == o0 || f0 + OVERHEAD + MIN_USER <= o0
    requires MIN_USER <= s && (o0 + s == f1 || o0 + s + OVERHEAD + MIN_USER <= f1)
    requires k + 1 < |blocks| && blocks[k + 1].uo == f1 + OVERHEAD && OVERHEAD <= f0
    requires Within(mem, mem', f0 - 1, f1, listed) && Chained(mem', Pieces(f0, f1, o0, s), f1 + OVERHEAD)
    requires Pieces(f0, f1, o0, s)[0].uo == f0 && Relisted(blocks, k, k + 1, Pieces(f0, f1, o0, s), listed, listed')
    ensures var r := Replaced(blocks, k, k + 1, Pieces(f0, f1, o0, s));
            && Tiled(mem', r, len) && Alternating(r) && FreeListed(r, listed') && Allocated(r) == Allocated(blocks) + 1
            && Live(r) == Live(blocks) + {Region(o0, s)} && Untouched(mem, mem', Live(blocks)) &&
                Apart(Live(blocks), Region(o0, s))
  {
    Reblocked(mem, mem', blocks, len, k, k + 1, Pieces(f0, f1, o0, s), listed, listed');
    PiecesAlternate(blocks, k, f0, f1, o0, s);
    forall r | r in Live(blocks) ensures Disjoint(r, Region(o0, s)) {
      var t :| 0 <= t < |blocks| && !blocks[t].free && r == Region(blocks[t].uo, blocks[t].n);
      if t < k {
        Ordered(mem, blocks, len, t, k);
      } else {
        Ordered(mem, blocks, len, k, t);
      }
    }
  }

  /** The end of the heap. */
  lemma AtEnd(mem: seq<Cell>, blocks: seq<Block>, len: nat, listed: map<nat, nat>)
    requires Tiled(mem, blocks, len) && FreeListed(blocks, listed) && 0 < len
    ensures OVERHEAD <= len && mem[len - 2].n >= MIN_USER && !LinkWord(listed, len - 2) && !LinkWord(listed, 0)
    ensures forall v :: v in listed ==> v + 3 < len
    ensures forall t :: 0 <= t < |blocks| ==> blocks[t].uo >= OVERHEAD && blocks[t].uo + blocks[t].n + OVERHEAD <= len
  {
    if blocks != [] {
      var l := |blocks| - 1;
      assert BlockOk(mem, blocks, len, l);
      LinksInside(mem, blocks, len, listed, l);
    }
    forall t | 0 <= t < |blocks| ensures blocks[t].uo >= OVERHEAD && blocks[t].n >= MIN_USER &&
        blocks[t].uo + blocks[t].n + OVERHEAD <= len {
      assert BlockOk(mem, blocks, len, t);
      Ordered(mem, blocks, len, t, |blocks|);
    }
    forall v | v in listed ensures v + 3 < len {
      assert IsFree(blocks, v);
    }
  }

  /** What is added at the end: a free block up to o0, if any, and s words at o0. */
  function Tail(f0: nat, o0: nat, s: nat): seq<Block>
    requires f0 == o0 || f0 + OVERHEAD <= o0
  {
    (if f0 < o0 then [Block(f0, o0 - f0 - OVERHEAD, true)] else []) + [Block(o0, s, false)]
  }

  lemma TailTiled(mem: seq<Cell>, mem': seq<Cell>, blocks: seq<Block>, len: nat, o0: nat, s: nat, listed: map<nat, nat>)
    requires Tiled(mem, blocks, len) && FreeListed(blocks, listed) && 0 < len
    requires (len == o0 || len + OVERHEAD + MIN_USER <= o0) && MIN_USER <= s && o0 + s + OVERHEAD <= |mem|
    requires Within(mem, mem', len - 1, o0 + s + 1, listed) && mem'[o0 + s + 1].n == INVALID
    requires Tagged(mem', Block(o0, s, false)) && (len < o0 ==> Tagged(mem', Block(len, o0 - len - OVERHEAD, true)))
    ensures Tiled(mem', blocks + Tail(len, o0, s), o0 + s + OVERHEAD)
    ensures Untouched(mem, mem', Live(blocks))
  {
    var mid, end := Tail(len, o0, s), o0 + s + OVERHEAD;
    AtEnd(mem, blocks, len, listed);
    forall t | 0 <= t < |blocks| ensures Tagged(mem', blocks[t]) {
      assert BlockOk(mem, blocks, len, t);
      LinksInside(mem, blocks, len, listed, t);
    }
    forall k | 0 <= k < |mid| ensures BlockOk(mem', mid, end, k) {
    }
    Spliced(mem, mem', blocks, len, |blocks|, |blocks|, mid, end);
    assert Replaced(blocks, |blocks|, |blocks|, mid) == blocks + mid;
    forall t, w | 0 <= t < |blocks| && !blocks[t].free && blocks[t].uo <= w < blocks[t].uo + blocks[t].n
      ensures mem'[w] == mem[w]
    {
      LinksInside(mem, blocks, len, listed, t);
    }
  }

  lemma NoneListed(blocks: seq<Block>, listed: map<nat, nat>)
    requires FreeListed(blocks, listed) && blocks == []
    ensures listed == map[]
  {
    forall u ensures u !in listed {
      assert u in listed ==> IsFree(blocks, u);
    }
  }

  lemma TailListed(blocks: seq<Block>, f0: nat, o0: nat, s: nat, listed: map<nat, nat>)
    requires FreeListed(blocks, listed) && (f0 == o0 || f0 + OVERHEAD <= o0) && f0 !in listed
    ensures FreeListed(blocks + Tail(f0, o0, s), if f0 < o0 then listed[f0 := BinOf(o0 - f0 - OVERHEAD)] else listed)
  {
    var r := blocks + Tail(f0, o0, s);
    var listed' := if f0 < o0 then listed[f0 := BinOf(o0 - f0 - OVERHEAD)] else listed;
    forall t | 0 <= t < |r| ensures InItsBin(r, listed', t) {
      if t < |blocks| {
        assert r[t] == blocks[t] && InItsBin(blocks, listed, t);
      }
    }
    forall u | u in listed' ensures IsFree(r, u) {
      if f0 < o0 && u == f0 {
        assert r[|blocks|] == Block(f0, o0 - f0 - OVERHEAD, true);
      } else {
        assert IsFree(blocks, u);
        var t :| 0 <= t < |blocks| && blocks[t].free && blocks[t].uo == u;
        assert r[t] == blocks[t];
      }
    }
  }

  lemma TailAlternates(blocks: seq<Block>, f0: nat, o0: nat, s: nat)
    requires Alternating(blocks) && (f0 == o0 || f0 + OVERHEAD <= o0)
    ensures var r := blocks + Tail(f0, o0, s);
            Alternating(r) && Allocated(r) == Allocated(blocks) + 1 && Live(r) == Live(blocks) + {Region(o0, s)}
  {
    var mid := Tail(f0, o0, s);
    var r := blocks + mid;
    forall t | 0 <= t < |r| && r[t].free ensures Follows(r, t) {
      if t < |blocks| {
        assert r[t] == blocks[t];
        assert Follows(blocks, t);
      } else {
        assert r[t] == mid[t - |blocks|];
      }
    }
    TailLive(f0, o0, s);
    AllocatedJoin(blocks, mid);
  }

  lemma TailLive(f0: nat, o0: nat, s: nat)
    requires f0 == o0 || f0 + OVERHEAD <= o0
    ensures Allocated(Tail(f0, o0, s)) == 1 && Live(Tail(f0, o0, s)) == {Region(o0, s)}
  {
    var lo := if f0 < o0 then [Block(f0, o0 - f0 - OVERHEAD, true)] else [];
    var mid := [Block(o0, s, false)];
    AllocatedJoin(lo, mid);
    assert Allocated(lo) == 0 && Allocated(mid) == 1;
    assert mid[0] in lo + mid;
  }

  lemma Extended(mem: seq<Cell>, mem': seq<Cell>, blocks: seq<Block>, len: nat, o0: nat, s: nat, listed: map<nat, nat>,
                 listed': map<nat, nat>, r: seq<Block>)
    requires Tiled(mem, blocks, len) && Alternating(blocks) && FreeListed(blocks, listed) && 0 < len
    requires (len == o0 || len + OVERHEAD + MIN_USER <= o0) && MIN_USER <= s && o0 + s + OVERHEAD <= |mem|
    requires r == blocks + Tail(len, o0, s)
    requires Within(mem, mem', len - 1, o0 + s + 1, listed) && mem'[o0 + s + 1].n == INVALID
    requires Tagged(mem', Block(o0, s, false)) && (len < o0 ==> Tagged(mem', Block(len, o0 - len - OVERHEAD, true)))
    requires listed' == if len < o0 then listed[len := BinOf(o0 - len - OVERHEAD)] else listed
    ensures Tiled(mem', r, o0 + s + OVERHEAD) && Alternating(r) && FreeListed(r, listed')
    ensures Allocated(r) == Allocated(blocks) + 1 && Live(r) == Live(blocks) + {Region(o0, s)}
    ensures Untouched(mem, mem', Live(blocks)) && Apart(Live(blocks), Region(o0, s))
  {
    AtEnd(mem, blocks, len, listed);
    TailTiled(mem, mem', blocks, len, o0, s, listed);
    TailListed(blocks, len, o0, s, listed);
    TailAlternates(blocks, len, o0, s);
    LiveDisjoint(mem, blocks, len);
  }

  /** What the tags around block k say. */
  lemma AroundBlock(mem: seq<Cell>, blocks: seq<Block>, len: nat, k: nat)
    requires Tiled(mem, blocks, len) && |mem| <= MAX_WORDS && k < |blocks|
    ensures BlockOk(mem, blocks, len, k) && OVERHEAD <= blocks[k].uo && blocks[k].uo + blocks[k].n + OVERHEAD <= len
    ensures mem[blocks[k].uo + blocks[k].n + 1].n == INVALID <==> k + 1 == |blocks|
    ensures mem[blocks[k].uo - 2].n == INVALID <==> k == 0
    ensures mem[blocks[k].uo - 2].f <==> k > 0 && blocks[k - 1].free
    ensures k > 0 ==>
            BlockOk(mem, blocks, len, k - 1) && blocks[k - 1].uo == blocks[k].uo - mem[blocks[k].uo - 2].n - OVERHEAD
    ensures k + 1 < |blocks| ==>
              BlockOk(mem, blocks, len, k + 1) && blocks[k + 1].uo == blocks[k].uo + blocks[k].n + OVERHEAD
              && (mem[blocks[k].uo + blocks[k].n + 1].f <==> blocks[k + 1].free)
  {
    assert BlockOk(mem, blocks, len, k);
    Ordered(mem, blocks, len, k, |blocks|);
    if k > 0 {
      assert BlockOk(mem, blocks, len, k - 1);
    }
    if k + 1 < |blocks| {
      assert BlockOk(mem, blocks, len, k + 1);
      Ordered(mem, blocks, len, k + 1, |blocks|);
    }
  }

  /** The blocks before the i-th alone, when the last of them is not free. */
  lemma Truncated(mem: seq<Cell>, mem': seq<Cell>, blocks: seq<Block>, len: nat, i: nat, listed: map<nat, nat>,
                  listed': map<nat, nat>)
    requires Tiled(mem, blocks, len) && Alternating(blocks) && FreeListed(blocks, listed) && i < |blocks|
    requires i > 0 ==> !blocks[i - 1].free
    requires 0 < blocks[i].uo <= len <= |mem| == |mem'| && 2 <= len &&
             Within(mem, mem', blocks[i].uo - 1, len - 2, listed)
    requires i > 0 ==> mem'[blocks[i].uo - 1].n == INVALID
    requires forall u :: u in listed' <==> u in listed && u < blocks[i].uo
    requires forall u :: u in listed' ==> listed'[u] == listed[u]
    ensures Tiled(mem', blocks[..i], if i == 0 then 0 else blocks[i].uo) && Alternating(blocks[..i])
    ensures FreeListed(blocks[..i], listed') && Untouched(mem, mem', Live(blocks[..i]))
  {
    var n := |blocks|;
    LinksInside(mem, blocks, len, listed, i);
    assert BlockOk(mem, blocks, len, i) && BlockOk(mem, blocks, len, 0);
    Ordered(mem, blocks, len, i, n);
    forall t | 0 <= t < i
      ensures Tagged(mem', blocks[t])
      ensures !blocks[t].free ==> forall w :: blocks[t].uo <= w < blocks[t].uo + blocks[t].n ==>
              w < |mem| && mem'[w] == mem[w]
    {
      OutsideKept(mem, mem', blocks, len, listed, i, n, t);
    }
    if i > 0 {
      Spliced(mem, mem', blocks, len, i, n, [], blocks[i].uo);
      assert Replaced(blocks, i, n, []) == blocks[..i];
    }
    TruncatedLists(mem, blocks, len, i, listed, listed');
    forall t | 0 <= t < i && blocks[t].free ensures Follows(blocks[..i], t) {
      assert Follows(blocks, t);
    }
    forall r, w | r in Live(blocks[..i]) && r.offset <= w < r.offset + r.size ensures w < |mem| && mem'[w] == mem[w] {
      var t :| 0 <= t < i && !blocks[t].free && r == Region(blocks[t].uo, blocks[t].n);
    }
  }

  lemma TruncatedLists(mem: seq<Cell>, blocks: seq<Block>, len: nat, i: nat, listed: map<nat, nat>,
                       listed': map<nat, nat>)
    requires Tiled(mem, blocks, len) && FreeListed(blocks, listed) && i < |blocks|
    requires forall u :: u in listed' <==> u in listed && u < blocks[i].uo
    requires forall u :: u in listed' ==> listed'[u] == listed[u]
    ensures FreeListed(blocks[..i], listed')
  {
    var r := blocks[..i];
    forall t | 0 <= t < |r| ensures InItsBin(r, listed', t) {
      assert r[t] == blocks[t] && InItsBin(blocks, listed, t);
      Ordered(mem, blocks, len, t, i);
    }
    forall u | u in listed' ensures IsFree(r, u) {
      assert IsFree(blocks, u);
      var t :| 0 <= t < |blocks| && blocks[t].free && blocks[t].uo == u;
      if t >= i {
        if t > i {
          Ordered(mem, blocks, len, i, t);
        }
        assert false;
      }
      assert r[t] == blocks[t];
    }
  }

  // ---------- Taking blocks away ----------

  lemma {:induction false} AllFree(s: seq<Block>)
    requires forall t :: 0 <= t < |s| ==> s[t].free
    ensures Allocated(s) == 0 && Live(s) == {}
  {
    if s != [] {
      AllFree(s[..|s| - 1]);
    }
  }

  /** Block k is allocated, and it and its free neighbours, if any, are those from i up to j. */
  ghost predicate Alone(blocks: seq<Block>, k: nat, i: nat, j: nat) {
    && i <= k < j <= |blocks| && k <= i + 1 && j <= k + 2 && !blocks[k].free
    && (i < k ==> blocks[i].free) && (k + 1 < j ==> blocks[k + 1].free)
  }

  lemma AloneRegion(blocks: seq<Block>, k: nat, i: nat, j: nat)
    requires Alone(blocks, k, i, j)
    ensures Allocated(blocks[i..j]) == 1 && Live(blocks[i..j]) == {Region(blocks[k].uo, blocks[k].n)}
  {
    var p, m, q := blocks[i..k], [blocks[k]], blocks[k + 1..j];
    AllFree(p);
    AllFree(q);
    assert blocks[i..j] == p + m + q;
    AllocatedJoin(p + m, q);
    AllocatedJoin(p, m);
    assert Allocated(m) == 1;
    assert m[0] in p + m + q;
    assert Live(p + m + q) == Live(p) + Live(m) + Live(q);
  }

  /** The region of block k is no other block's. */
  lemma OnlyThere(mem: seq<Cell>, blocks: seq<Block>, len: nat, k: nat, i: nat, j: nat)
    requires Tiled(mem, blocks, len) && i <= k < j <= |blocks|
    ensures Region(blocks[k].uo, blocks[k].n) !in Live(blocks[..i]) + Live(blocks[j..])
  {
    var b := Region(blocks[k].uo, blocks[k].n);
    LiveIndex(blocks, i, j);
    if b in Live(blocks[..i]) + Live(blocks[j..]) {
      var t :| 0 <= t < |blocks| && (t < i || t >= j) && !blocks[t].free && b == Region(blocks[t].uo, blocks[t].n);
      UniqueStart(mem, blocks, len, t, k);
    }
  }

  /** Replacing such blocks by free ones takes block k's region away, and nothing else. */
  lemma OneLess(mem: seq<Cell>, blocks: seq<Block>, len: nat, k: nat, i: nat, j: nat, mid: seq<Block>)
    requires Tiled(mem, blocks, len) && Alone(blocks, k, i, j) && forall t :: 0 <= t < |mid| ==> mid[t].free
    ensures Allocated(Replaced(blocks, i, j, mid)) + 1 == Allocated(blocks)
    ensures Live(Replaced(blocks, i, j, mid)) == Live(blocks) - {Region(blocks[k].uo, blocks[k].n)}
    ensures Live(Replaced(blocks, i, j, mid)) == Live(blocks[..i]) + Live(blocks[j..])
  {
    AllFree(mid);
    AloneRegion(blocks, k, i, j);
    AllocatedReplaced(blocks, i, j, mid);
    LiveReplaced(blocks, i, j, mid);
    OnlyThere(mem, blocks, len, k, i, j);
  }

  lemma UniqueStart(mem: seq<Cell>, blocks: seq<Block>, len: nat, i: nat, j: nat)
    requires Tiled(mem, blocks, len) && i < |blocks| && j < |blocks| && blocks[i].uo == blocks[j].uo
    ensures i == j
  {
    if i < j {
      Ordered(mem, blocks, len, i, j);
    } else if j < i {
      Ordered(mem, blocks, len, j, i);
    }
  }

  /** The only block listed within the space of block k is that block, if it is free. */
  lemma BlockRange(mem: seq<Cell>, blocks: seq<Block>, len: nat, listed: map<nat, nat>, k: nat)
    requires Tiled(mem, blocks, len) && FreeListed(blocks, listed) && k < |blocks|
    ensures forall u :: u in listed ==>
            u < blocks[k].uo || u >= Start(blocks, len, k + 1) || (blocks[k].free && u == blocks[k].uo)
  {
    forall u | u in listed ensures u < blocks[k].uo || u >= Start(blocks, len, k + 1) ||
        (blocks[k].free && u == blocks[k].uo) {
      assert IsFree(blocks, u);
      var t :| 0 <= t < |blocks| && blocks[t].free && blocks[t].uo == u;
      if t < k {
        Ordered(mem, blocks, len, t, k);
      } else if k + 1 < t {
        Ordered(mem, blocks, len, k + 1, t);
      }
    }
  }

  /** The block after one that is not free and not the last. */
  lemma AroundNext(mem: seq<Cell>, blocks: seq<Block>, len: nat, listed: map<nat, nat>, k: nat)
    requires |mem| <= MAX_WORDS && Tiled(mem, blocks, len) && Alternating(blocks) && FreeListed(blocks, listed) &&
             k + 1 < |blocks|
    ensures var m := blocks[k].uo + blocks[k].n + OVERHEAD;
            && m == blocks[k + 1].uo <= len && !LinkWord(listed, m - 1) && (mem[m - 1].f <==> blocks[k + 1].free)
            && (blocks[k + 1].free ==>
                  && k + 2 < |blocks| && !blocks[k + 2].free && blocks[k + 2].uo == m + mem[m - 1].n + OVERHEAD
                  && m in listed && listed[m] == BinOf(mem[m - 1].n)
                  && forall u :: u in listed ==> u == m || u < m || u >= blocks[k + 2].uo)
  {
    AroundBlock(mem, blocks, len, k);
    LinksInside(mem, blocks, len, listed, k + 1);
    if blocks[k + 1].free {
      AroundFree(mem, blocks, len, listed, k + 1);
      BlockRange(mem, blocks, len, listed, k + 1);
    }
  }

  lemma AllBelow(mem: seq<Cell>, blocks: seq<Block>, len: nat, listed: map<nat, nat>)
    requires Tiled(mem, blocks, len) && FreeListed(blocks, listed)
    ensures forall u :: u in listed ==> u < len
  {
    forall u | u in listed ensures u < len {
      assert IsFree(blocks, u);
      var t :| 0 <= t < |blocks| && blocks[t].free && blocks[t].uo == u;
      Ordered(mem, blocks, len, t, |blocks|);
    }
  }

  lemma AloneCounts(blocks: seq<Block>, k: nat)
    requires k < |blocks| && !blocks[k].free
    ensures Allocated(blocks) > 0
  {
    AllocatedReplaced(blocks, k, k + 1, []);
    AloneRegion(blocks, k, k, k + 1);
  }

  /** Once the blocks from i up to j are off their lists, no link lies in the space they fill. */
  lemma RangeClear(mem: seq<Cell>, blocks: seq<Block>, len: nat, listed: map<nat, nat>, listed': map<nat, nat>, i: nat,
                   j: nat)
    requires Tiled(mem, blocks, len) && FreeListed(blocks, listed) && i < j <= |blocks|
    requires forall u :: u in listed' ==> u in listed && (u < blocks[i].uo || u >= Start(blocks, len, j))
    ensures OVERHEAD <= blocks[i].uo && blocks[i].uo + MIN_USER + OVERHEAD <= Start(blocks, len, j) <= len
    ensures ClearOf(listed', blocks[i].uo - 1, Start(blocks, len, j) - 1)
  {
    assert BlockOk(mem, blocks, len, i);
    Ordered(mem, blocks, len, i, j);
    forall v | v in listed' ensures v + 1 < blocks[i].uo - 1 || v > Start(blocks, len, j) - 1 {
      assert IsFree(blocks, v);
      var t :| 0 <= t < |blocks| && blocks[t].free && blocks[t].uo == v;
      assert BlockOk(mem, blocks, len, t);
      if t < i {
        Ordered(mem, blocks, len, t, i);
      } else if i < t {
        Ordered(mem, blocks, len, i, t);
      }
    }
  }

  /** Blocks i up to j have become one free block. */
  lemma Coalesced(mem: seq<Cell>, mem': seq<Cell>, blocks: seq<Block>, len: nat, k: nat, i: nat, j: nat,
                  listed: map<nat, nat>, listed': map<nat, nat>, b: Block)
    requires Tiled(mem, blocks, len) && Alternating(blocks) && FreeListed(blocks, listed)
    requires Alone(blocks, k, i, j) && j < |blocks| && !blocks[j].free && (i > 0 ==> !blocks[i - 1].free)
    requires blocks[i].uo + MIN_USER + OVERHEAD <= blocks[j].uo
    requires b == Block(blocks[i].uo, blocks[j].uo - OVERHEAD - blocks[i].uo, true)
    requires Tagged(mem', b) && OVERHEAD <= b.uo && Within(mem, mem', b.uo - 1, b.uo + b.n, listed)
    requires Relisted(blocks, i, j, [b], listed, listed')
    ensures var r := Replaced(blocks, i, j, [b]);
            && Tiled(mem', r, len) && Alternating(r) && FreeListed(r, listed') && Allocated(r) + 1 == Allocated(blocks)
            && Live(r) == Live(blocks) - {Region(blocks[k].uo, blocks[k].n)} && Untouched(mem, mem', Live(r))
  {
    var end := blocks[j].uo;
    forall t | 0 <= t < |[b]| ensures BlockOk(mem', [b], end, t) {
    }
    Reblocked(mem, mem', blocks, len, i, j, [b], listed, listed');
    OneLess(mem, blocks, len, k, i, j, [b]);
    CoalescedAlternate(blocks, i, j, b);
  }

  lemma CoalescedAlternate(blocks: seq<Block>, i: nat, j: nat, b: Block)
    requires Alternating(blocks) && i < j < |blocks| && !blocks[j].free && (i > 0 ==> !blocks[i - 1].free)
    ensures Alternating(Replaced(blocks, i, j, [b]))
  {
    var r := Replaced(blocks, i, j, [b]);
    forall t | 0 <= t < |r| && r[t].free ensures Follows(r, t) {
      if t < i {
        assert r[t] == blocks[t];
        assert Follows(blocks, t);
      } else if t > i {
        assert r[t] == blocks[t - i - 1 + j];
        assert Follows(blocks, t - i - 1 + j);
      } else {
        assert r[t + 1] == blocks[j];
      }
    }
  }

  // ---------- Where in a free block an object fits ----------

  ghost predicate Aligned(f0: nat, a: nat, ao: nat, o: int)
    requires a > 0
  {
    f0 <= o && Multiple(a, o + ao)
  }

  /** An object of s words may be placed at o in the free block from f0 to f1: it is aligned, lies
      inside, and in front of it there is either nothing or room for a free block. */
  ghost predicate Fits(f0: nat, f1: nat, s: nat, a: nat, ao: nat, o: int)
    requires a > 0
  {
    Aligned(f0, a, ao, o) && o + s <= f1 && (o == f0 || o >= f0 + OVERHEAD + MIN_USER)
  }

  ghost predicate FitsNowhere(f0: nat, f1: nat, s: nat, a: nat, ao: nat)
    requires a > 0
  {
    forall o: int :: !Fits(f0, f1, s, a, ao, o)
  }

  /** The last position that the search tries first. */
  function Candidate(f1: nat, s: nat, a: nat, ao: nat): int
    requires a > 0 && s <= f1
  {
    RoundDown(f1 - s, a) - ao
  }

  /** What the search considers: the positions up to the candidate or, if that is before the
      block, up to the first one not before it. */
  ghost predicate Considered(f0: nat, f1: nat, s: nat, a: nat, ao: nat, o: int)
    requires a > 0 && s <= f1
  {
    var c := Candidate(f1, s, a, ao);
    if c >= f0 then o <= c else o < f0 + a
  }

  /** With no alignment offset, every position that fits is considered. */
  lemma AllConsidered(f0: nat, f1: nat, s: nat, a: nat, o: int)
    requires a > 0 && s <= f1 && Fits(f0, f1, s, a, 0, o)
    ensures Considered(f0, f1, s, a, 0, o)
  {
    LargestMultiple(a, f1 - s, o);
  }

  lemma {:induction false} MultipleSum(a: nat, x: int, y: int)
    requires a > 0 && Multiple(a, y) && x >= 0
    ensures Multiple(a, x) <==> Multiple(a, x + y)
    decreases y
  {
    if y > 0 {
      MultipleSum(a, x, y - a);
      assert x + y > 0 && (Multiple(a, x + y) <==> x + y >= a && Multiple(a, x + y - a));
      assert x + y >= a;
    }
  }

  lemma MultipleDifference(a: nat, x: nat, y: nat)
    requires a > 0 && x <= y && Multiple(a, y)
    ensures Multiple(a, x) <==> Multiple(a, y - x)
  {
    if Multiple(a, x) {
      MultipleSum(a, y - x, x);
      assert y - x + x == y;
    }
    if Multiple(a, y - x) {
      MultipleSum(a, x, y - x);
      assert x + (y - x) == y;
    }
  }

  /** With an alignment offset it need not be: the candidate, which is too close to the start of the
      block for a fragment in front, and from where no step leads to the start itself, may be one
      step below the highest position that fits. */
  predicate Misses(f0: nat, f1: nat, s: nat, a: nat, ao: nat)
    requires a > 0
  {
    f0 + s <= f1 &&
    var end, c := f1 - s, Candidate(f1, s, a, ao);
    && f0 < c < f0 + OVERHEAD + MIN_USER <= c + a
    && end - RoundDown(end, a) + ao >= a
    && !Multiple(a, c - f0)
  }

  /** This is exactly when the search finds no place in a block in which there is one. */
  lemma SearchMisses(f0: nat, f1: nat, s: nat, a: nat, ao: nat)
    requires ao < a
    ensures !FitsNowhere(f0, f1, s, a, ao) && NoPlace(f0, f1, s, a, ao) <==> Misses(f0, f1, s, a, ao)
  {
    if Misses(f0, f1, s, a, ao) {
      MissedPlace(f0, f1, s, a, ao);
    }
    if o: int :| Fits(f0, f1, s, a, ao, o) && NoPlace(f0, f1, s, a, ao) {
      WhyMissed(f0, f1, s, a, ao, o);
    }
  }

  lemma MissedPlace(f0: nat, f1: nat, s: nat, a: nat, ao: nat)
    requires ao < a && Misses(f0, f1, s, a, ao)
    ensures Fits(f0, f1, s, a, ao, Candidate(f1, s, a, ao) + a) && NoPlace(f0, f1, s, a, ao)
  {
    var c := Candidate(f1, s, a, ao);
    assert Multiple(a, c + ao) && Multiple(a, c + ao + a);
    MultipleDifference(a, f0 + ao, c + ao);
    forall o: int | Fits(f0, f1, s, a, ao, o)
      ensures !Considered(f0, f1, s, a, ao, o)
    {
      assert o <= c ==> o == f0;
    }
  }

  lemma WhyMissed(f0: nat, f1: nat, s: nat, a: nat, ao: nat, o: int)
    requires ao < a && Fits(f0, f1, s, a, ao, o) && NoPlace(f0, f1, s, a, ao)
    ensures Misses(f0, f1, s, a, ao)
  {
    var end, c := f1 - s, Candidate(f1, s, a, ao);
    assert Multiple(a, c + ao) && !Considered(f0, f1, s, a, ao, o) && c <= end;
    assert c + ao < o + ao;
    MultipleStep(a, c + ao, o + ao);
    if c + a < o {
      assert Multiple(a, c + ao + a);
      MultipleStep(a, c + a + ao, o + ao);
      assert false;
    }
    assert o == c + a;
    if c >= f0 {
      assert Considered(f0, f1, s, a, ao, c) && !Fits(f0, f1, s, a, ao, c);
      assert Considered(f0, f1, s, a, ao, f0) && !Fits(f0, f1, s, a, ao, f0);
      MultipleDifference(a, f0 + ao, c + ao);
    }
  }

  ghost predicate NoPlace(f0: nat, f1: nat, s: nat, a: nat, ao: nat)
    requires a > 0
  {
    forall o: int :: Fits(f0, f1, s, a, ao, o) ==> s <= f1 && !Considered(f0, f1, s, a, ao, o)
  }

  /** The search would not place s words anywhere in this block. */
  ghost predicate NothingFits(b: Block, s: nat, a: nat, ao: nat)
    requires a > 0
  {
    NoPlace(b.uo, b.uo + b.n, s, a, ao)
  }

  ghost predicate NoneHigher(f0: nat, f1: nat, s: nat, a: nat, ao: nat, r: nat)
    requires a > 0 && s <= f1
  {
    forall o: int :: Fits(f0, f1, s, a, ao, o) && Considered(f0, f1, s, a, ao, o) ==> o <= r
  }

  /** The place the search would use: the highest it considers. */
  ghost predicate PlacedIn(b: Block, r: nat, s: nat, a: nat, ao: nat)
    requires a > 0
  {
    && b.free && Fits(b.uo, b.uo + b.n, s, a, ao, r)
    && s <= b.uo + b.n && Considered(b.uo, b.uo + b.n, s, a, ao, r)
    && NoneHigher(b.uo, b.uo + b.n, s, a, ao, r)
  }

  /** The words fit nowhere in the block, or the search misses the place. */
  lemma NothingFitsMeans(b: Block, s: nat, a: nat, ao: nat)
    requires ao < a
    ensures NothingFits(b, s, a, ao) <==>
            FitsNowhere(b.uo, b.uo + b.n, s, a, ao) || Misses(b.uo, b.uo + b.n, s, a, ao)
  {
    SearchMisses(b.uo, b.uo + b.n, s, a, ao);
  }

  /** With no alignment offset this means that the words fit nowhere in the block. */
  lemma NothingFitsAtAll(b: Block, s: nat, a: nat, o: int)
    requires a > 0 && NothingFits(b, s, a, 0)
    ensures !Fits(b.uo, b.uo + b.n, s, a, 0, o)
  {
    if Fits(b.uo, b.uo + b.n, s, a, 0, o) {
      AllConsidered(b.uo, b.uo + b.n, s, a, o);
    }
  }

  ghost predicate NothingFitsIn(blocks: seq<Block>, s: nat, a: nat, ao: nat)
    requires a > 0
  {
    forall t :: 0 <= t < |blocks| && blocks[t].free ==> NothingFits(blocks[t], s, a, ao)
  }

  ghost predicate FoundIn(blocks: seq<Block>, r: nat, s: nat, a: nat, ao: nat)
    requires a > 0
  {
    exists t :: 0 <= t < |blocks| && PlacedIn(blocks[t], r, s, a, ao)
  }

  /** The free block a list names. */
  lemma ListedBlock(mem: seq<Cell>, blocks: seq<Block>, len: nat, q: FreeLists, bin: nat, i: nat) returns (k: nat)
    requires Tiled(mem, blocks, len) && ListsOk(mem, q) && FreeListed(blocks, q.listed) && bin < N_BINS &&
             i < |q.lists[bin]|
    ensures k < |blocks| && blocks[k].free && blocks[k].uo == q.lists[bin][i] && BinOf(blocks[k].n) == bin
    ensures BlockOk(mem, blocks, len, k) && LinksAt(mem, q.lists[bin], i)
    ensures forall j :: 0 <= j < |blocks| && blocks[j].uo == blocks[k].uo ==> j == k
    ensures mem[blocks[k].uo].n == (if i + 1 < |q.lists[bin]| then q.lists[bin][i + 1] else NONE)
    ensures i + 1 < |q.lists[bin]| ==> q.lists[bin][i + 1] < NONE
  {
    assert BinOk(mem, q, bin);
    assert i + 1 < |q.lists[bin]| ==> q.lists[bin][i + 1] in q.lists[bin];
    assert q.lists[bin][i] in q.lists[bin] && IsFree(blocks, q.lists[bin][i]);
    k :| 0 <= k < |blocks| && blocks[k].free && blocks[k].uo == q.lists[bin][i];
    assert BlockOk(mem, blocks, len, k) && InItsBin(blocks, q.listed, k);
    forall j | 0 <= j < |blocks| && blocks[j].uo == blocks[k].uo ensures j == k {
      UniqueStart(mem, blocks, len, j, k);
    }
  }

  lemma SmallBin(s: nat, n: nat)
    requires BinOf(s) <= BinOf(n) < SMALL_BINS
    ensures n >= MIN_USER ==> s <= n
  {
    if s - MIN_USER >= SMALL_BINS {
      LargeBin(s);
    }
    if n - MIN_USER >= SMALL_BINS {
      LargeBin(n);
    }
  }

  lemma MultipleBits(x: nat, j: nat)
    requires Multiple(Pow2(j), x)
    ensures LowBits(x, j) == 0
  {
    MultipleMeans(Pow2(j), x);
    ShrDivides(x, j);
  }

  lemma LowBitsOfSum(y: nat, c: nat, k: nat)
    ensures LowBits(y + LowBits(c, k), k) == LowBits(y + c, k)
  {
    var p, q, m := Pow2(k), Shr(c, k), LowBits(c, k);
    var q', m' := Shr(y + m, k), LowBits(y + m, k);
    ShrAndLowBits(c, k);
    ShrAndLowBits(y + m, k);
    ShrDivides(y + c, k);
    TwoQuotients(y, c, p, q, m, q', m');
  }

  lemma TwoQuotients(y: nat, c: nat, p: nat, q: nat, m: nat, q': nat, m': nat)
    requires p > 0 && c == q * p + m && y + m == q' * p + m' && m' < p
    ensures (y + c) % p == m'
  {
    assert (q + q') * p == q * p + q' * p;
    Quotient(y + c, p, q + q', m');
  }

  /** The alignment asked for, rounded up to a power of two of at least a word. */
  function AlignBits(align: nat): nat {
    MaxLog2(if align < 4 then 4 else align)
  }

  /** 2^k is the least power of two that is not less than the alignment, nor than a word. */
  predicate Alignment(align: nat, k: nat) {
    var bytes := if align < 4 then 4 else align;
    bytes <= Pow2(k) < 2 * bytes
  }

  /** The byte at this offset from block r is aligned. */
  predicate AlignedFor(r: nat, align: nat, offset: nat) {
    LowBits(4 * r + offset, AlignBits(align)) == 0
  }

  lemma WordAlignment(align: nat, offset: nat)
    ensures AlignBits(align) >= 2 && LowBits(offset, AlignBits(align)) / 4 < Pow2(AlignBits(align) - 2)
  {
    AtLeastWord(if align < 4 then 4 else align);
    var k := AlignBits(align);
    assert Pow2(k) == 2 * Pow2(k - 1) && Pow2(k - 1) == 2 * Pow2(k - 2);
  }

  lemma QuadrupleBits(x: nat, k: nat)
    requires k >= 2
    ensures LowBits(4 * x, k) == 4 * LowBits(x, k - 2)
  {
    assert (4 * x) / 2 == 2 * x && (2 * x) / 2 == x;
    assert LowBits(2 * x, k - 1) == 2 * LowBits(x, k - 2);
  }

  /** An offset aligned in words is aligned in bytes. */
  lemma AlignedBytes(r: nat, ao: nat, align: nat, offset: nat)
    requires AlignBits(align) >= 2 && 4 * ao == LowBits(offset, AlignBits(align)) &&
             Multiple(Pow2(AlignBits(align) - 2), r + ao)
    ensures AlignedFor(r, align, offset)
  {
    var k := AlignBits(align);
    MultipleBits(r + ao, k - 2);
    QuadrupleBits(r + ao, k);
    assert 4 * r + LowBits(offset, k) == 4 * (r + ao);
    LowBitsOfSum(4 * r, offset, k);
  }

  /** Then it is so for every power of two up to the alignment, or up to twice that. */
  lemma AlignedMeans(r: nat, align: nat, offset: nat, k: nat)
    requires AlignedFor(r, align, offset) && (k <= 2 || Pow2(k) < 2 * align)
    ensures (4 * r + offset) % Pow2(k) == 0
  {
    WordAlignment(align, offset);
    if k > 2 {
      Pow2Mono(3, k);
      assert Pow2(3) == 8;
      MaxLog2Below(align, k);
    }
    LowerBitsZero(4 * r + offset, k, AlignBits(align));
  }

  /** So the byte at this offset from block r is aligned as asked for, and for any k up to that,
      for 2^k. */
  ghost predicate AlignedTo(r: nat, align: nat, offset: nat) {
    forall k {:trigger Pow2(k)} :: k <= 2 || Pow2(k) < 2 * align ==> (4 * r + offset) % Pow2(k) == 0
  }

  /** An offset that is not one of whole words. */
  predicate OddOffset(offset: nat, k: nat) {
    offset % Pow2(k) % 4 != 0
  }

  lemma AllAligned(r: nat, ao: nat, align: nat, offset: nat)
    requires AlignBits(align) >= 2 && 4 * ao == LowBits(offset, AlignBits(align))
    requires Multiple(Pow2(AlignBits(align) - 2), r + ao)
    ensures AlignedTo(r, align, offset)
  {
    AlignedBytes(r, ao, align, offset);
    forall k {:trigger Pow2(k)} | k <= 2 || Pow2(k) < 2 * align ensures (4 * r + offset) % Pow2(k) == 0 {
      AlignedMeans(r, align, offset, k);
    }
  }

  /** What the alignment is in words, and what is left of the offset. */
  lemma AlignmentIs(align: nat, offset: nat, k: nat, masked: nat)
    requires k == AlignBits(align) && masked == LowBits(offset, k)
    ensures k >= 2 && Alignment(align, k) && Pow2(k) / 4 == Pow2(k - 2)
    ensures masked == offset % Pow2(k) && masked / 4 < Pow2(k - 2)
    ensures masked % 4 != 0 <==> OddOffset(offset, k)
  {
    MaxLog2Below(if align < 4 then 4 else align, k);
    WordAlignment(align, offset);
    ShrDivides(offset, k);
    assert Pow2(k) == 2 * Pow2(k - 1) && Pow2(k - 1) == 2 * Pow2(k - 2);
  }

  /** A request for so many bytes, in words. */
  function WordsFor(bytes: nat): (words: nat)
    ensures words >= MIN_USER && 4 * (words - 1) < (if bytes < 8 then 8 else bytes) <= 4 * words
  {
    ((if bytes < 8 then 8 else bytes) + 3) / 4
  }

  // ---------- Operations ----------

  class Heap {
    var mem: seq<Cell>
    var len: nat
    var heads: seq<nat>
    var nonEmpty: seq<bool>
    var nElts: nat
    ghost var blocks: seq<Block>
    ghost var lists: seq<seq<nat>>
    ghost var listed: map<nat, nat>

    ghost function Lists(): FreeLists
      reads this`heads, this`nonEmpty, this`lists, this`listed
    {
      FreeLists(heads, nonEmpty, lists, listed)
    }

    /** The invariant that mheap_validate spells out. */
    ghost predicate Valid()
      reads this
    {
      Sound(nElts)
    }

    ghost predicate Sound(count: nat)
      reads this
    {
      && |mem| <= MAX_WORDS
      && Tiled(mem, blocks, len) && Alternating(blocks)
      && ListsOk(mem, Lists()) && FreeListed(blocks, listed)
      && count == Allocated(blocks)
    }

    /** A heap of so many words, over fresh memory, which is zero. */
    constructor (words: nat)
      requires words <= MAX_WORDS
      ensures Valid() && fresh(this) && |mem| == words && len == 0 && blocks == [] && Live(blocks) == {}
    {
      mem := seq(words, _ => Cell(0, false));
      len, nElts, blocks := 0, 0, [];
      heads := seq(N_BINS, _ => NONE);
      nonEmpty := seq(N_BINS, _ => false);
      lists := seq(N_BINS, _ => []);
      listed := map[];
    }

    /** mheap_elt_set_size. */
    method SetSize(uo: nat, n: nat, free: bool)
      requires OVERHEAD <= uo && uo + n < |mem| && mem[uo - 2].n >= MIN_USER
      modifies this`mem
      ensures mem == old(mem)[uo - 1 := Cell(n, free)][uo + n := Cell(n, free)]
    {
      mem := mem[uo - 1 := Cell(n, free)];
      mem := mem[uo + n := Cell(n, free)];
    }

    /** set_first_free_elt_offset. */
    method SetFirstFree(bin: nat, uo: nat)
      requires bin < |heads| == |nonEmpty|
      modifies this`heads, this`nonEmpty
      ensures heads == old(heads)[bin := uo] && nonEmpty == old(nonEmpty)[bin := uo != NONE]
    {
      heads := heads[bin := uo];
      nonEmpty := nonEmpty[bin := heads[bin] != NONE];
    }

    /** set_free_elt: the block goes first on the list of its bin. */
    method SetFreeElt(uo: nat, n: nat)
      requires ListsOk(mem, Lists()) && n <= MAX_WORDS && uo !in listed && uo < NONE
      requires 0 < uo && MIN_USER <= n && uo + n < |mem| && mem[uo - 1].f && mem[uo + n].f
      requires forall v :: v in listed ==> v + 1 < uo || uo + 1 < v
      modifies this`mem, this`heads, this`nonEmpty, this`lists, this`listed
      ensures ListsOk(mem, Lists()) && listed == old(listed)[uo := BinOf(n)]
      ensures |mem| == |old(mem)| && forall w :: 0 <= w < |mem| && !LinkWord(listed, w) ==> mem[w] == old(mem)[w]
    {
      var bin := BinOf(n);
      BinBounds(n);
      assert BinOk(mem, Lists(), bin);
      ghost var s := lists[bin];
      assert s != [] ==> s[0] in s && LinksAt(mem, s, 0);
      mem := mem[uo + 1 := Cell(NONE, false)];
      var next := heads[bin];
      mem := mem[uo := Cell(next, false)];
      if next != NONE {
        mem := mem[next + 1 := Cell(uo, false)];
      }
      SetFirstFree(bin, uo);
      PushOk(old(mem), mem, old(Lists()), uo, bin);
      lists := lists[bin := [uo] + lists[bin]];
      listed := listed[uo := bin];
    }

    /** remove_free_elt. */
    method RemoveFreeElt(uo: nat, bin: nat)
      requires ListsOk(mem, Lists()) && uo in listed && listed[uo] == bin
      modifies this`mem, this`heads, this`nonEmpty, this`lists, this`listed
      ensures ListsOk(mem, Lists()) && listed == old(listed) - {uo}
      ensures |mem| == |old(mem)| && forall w :: 0 <= w < |mem| && !LinkWord(old(listed), w) ==> mem[w] == old(mem)[w]
    {
      ghost var k := OnItsList(mem, Lists(), uo);
      ghost var s := lists[bin];
      assert BinOk(mem, Lists(), bin);
      assert k + 1 < |s| ==> s[k + 1] in s && LinksAt(mem, s, k + 1);
      assert k > 0 ==> s[k - 1] in s && LinksAt(mem, s, k - 1);
      var no, po := mem[uo].n, mem[uo + 1].n;
      if po == NONE {
        SetFirstFree(bin, no);
      } else {
        mem := mem[po := Cell(no, mem[po].f)];
      }
      if no != NONE {
        mem := mem[no + 1 := Cell(po, mem[no + 1].f)];
      }
      RemoveOk(old(mem), mem, old(Lists()), uo, bin, k);
      NewFirst(s, k);
      assert heads == old(heads)[bin := First(Without(s, k))];
      assert nonEmpty == old(nonEmpty)[bin := Without(s, k) != []];
      lists := lists[bin := Without(s, k)];
      listed := listed - {uo};
    }

    /** The part of mheap_get_search_free_bin that places the object in one free block: it finds
        the highest position it considers. */
    method Place(f0: nat, f1: nat, s: nat, a: nat, ao: nat) returns (o0: int)
      requires f0 + s <= f1 && ao < a && 0 < f0
      ensures f0 <= o0 && o0 + s <= f1 ==> Fits(f0, f1, s, a, ao, o0) && Considered(f0, f1, s, a, ao, o0)
      ensures forall o: int :: Fits(f0, f1, s, a, ao, o) && Considered(f0, f1, s, a, ao, o) ==>
              f0 <= o0 && o <= o0 && o0 + s <= f1
    {
      o0 := Candidate(f1, s, a, ao);
      ghost var c: int := o0;
      while o0 < f0
        invariant Multiple(a, o0 + ao) && c <= o0 && (c >= f0 ==> o0 == c) && (o0 == c || o0 < f0 + a)
        decreases f0 - o0
      {
        o0 := o0 + a;
      }
      ghost var top: int := o0;
      while true
        invariant o0 <= top && Multiple(a, o0 + ao)
        invariant forall o: int {:trigger Aligned(f0, a, ao, o)} :: Aligned(f0, a, ao, o) && o0 < o <= top ==>
                  f0 < o < f0 + OVERHEAD + MIN_USER
        decreases o0 + ao
      {
        var loFree := if o0 != f0 then o0 - f0 - OVERHEAD else 0;
        if o0 <= f0 || loFree >= MIN_USER {
          break;
        }
        forall o: int | Aligned(f0, a, ao, o) && o0 - a < o <= top ensures f0 < o < f0 + OVERHEAD + MIN_USER {
          if o < o0 {
            MultipleStep(a, o + ao, o0 + ao);
          }
        }
        o0 := o0 - a;
      }
      forall o: int | Fits(f0, f1, s, a, ao, o) && Considered(f0, f1, s, a, ao, o)
        ensures f0 <= o0 && o <= o0 && o0 + s <= f1
      {
        if top < o {
          MultipleStep(a, top + ao, o + ao);
        } else if o < top {
          MultipleStep(a, o + ao, top + ao);
        }
      }
    }

    /** new_free_elt. */
    method NewFreeElt(uo: nat, n: nat)
      requires ListsOk(mem, Lists()) && MIN_USER <= n <= MAX_WORDS && OVERHEAD <= uo < NONE && uo + n < |mem|
      requires mem[uo - 2].n >= MIN_USER && ClearOf(listed, uo - 1, uo + n)
      modifies this`mem, this`heads, this`nonEmpty, this`lists, this`listed
      ensures ListsOk(mem, Lists()) && listed == old(listed)[uo := BinOf(n)]
      ensures |mem| == |old(mem)| && Tagged(mem, Block(uo, n, true))
      ensures forall w :: 0 <= w < |mem| && w != uo - 1 && w != uo + n && !LinkWord(listed, w) ==> mem[w] == old(mem)[w]
    {
      SetSize(uo, n, true);
      ListsKept(old(mem), mem, Lists());
      SetFreeElt(uo, n);
    }

    /** A free fragment in front of or behind an object taken from a free block. */
    method FreeFragment(uo: nat, n: nat)
      requires ListsOk(mem, Lists()) && MIN_USER <= n <= MAX_WORDS && OVERHEAD <= uo < NONE && uo + n < |mem|
      requires mem[uo - 2].n >= MIN_USER && ClearOf(listed, uo - 1, uo + n)
      modifies this`mem, this`heads, this`nonEmpty, this`lists, this`listed
      ensures ListsOk(mem, Lists()) && listed == old(listed)[uo := BinOf(n)]
      ensures |mem| == |old(mem)| && Tagged(mem, Block(uo, n, true))
      ensures forall w :: 0 <= w < |mem| && w != uo - 1 && w != uo + n && !LinkWord(listed, w) ==> mem[w] == old(mem)[w]
    {
      SetSize(uo, n, true);
      ListsKept(old(mem), mem, Lists());
      NewFreeElt(uo, n);
    }

    /** A listed block with its tags. */
    ghost predicate FreeTagged(uo: nat, n: nat)
      reads this`mem, this`listed
    {
      Tagged(mem, Block(uo, n, true)) && uo in listed && listed[uo] == BinOf(n)
    }

    /** Tag the free fragment in front of an object, if any. */
    method TagFront(f0: nat, f1: nat, o0: nat)
      requires OVERHEAD <= f0 && f1 < |mem| <= MAX_WORDS && o0 < f1 && (f0 == o0 || f0 + OVERHEAD + MIN_USER <= o0)
      requires ListsOk(mem, Lists()) && ClearOf(listed, f0 - 1, f1) && mem[f0 - 2].n >= MIN_USER
      modifies this`mem, this`heads, this`nonEmpty, this`lists, this`listed
      ensures ListsOk(mem, Lists()) && Within(old(mem), mem, f0 - 1, f1, old(listed))
      ensures ClearOf(listed, o0 - 1, f1) && mem[o0 - 2].n >= MIN_USER
      ensures listed == if f0 < o0 then old(listed)[f0 := BinOf(o0 - f0 - OVERHEAD)] else old(listed)
      ensures f0 < o0 ==> FreeTagged(f0, o0 - f0 - OVERHEAD)
    {
      if f0 < o0 {
        FreeFragment(f0, o0 - f0 - OVERHEAD);
        assert mem[o0 - 2].n == o0 - f0 - OVERHEAD;
      }
    }

    /** Tag the object and the free fragment behind it, if any. */
    method TagObject(o0: nat, s: nat, f1: nat)
      requires OVERHEAD <= o0 && f1 < |mem| <= MAX_WORDS && MIN_USER <= s &&
               (o0 + s == f1 || o0 + s + OVERHEAD + MIN_USER <= f1)
      requires ListsOk(mem, Lists()) && ClearOf(listed, o0 - 1, f1) && mem[o0 - 2].n >= MIN_USER
      modifies this`mem, this`heads, this`nonEmpty, this`lists, this`listed
      ensures ListsOk(mem, Lists()) && Within(old(mem), mem, o0 - 1, f1, old(listed))
      ensures listed == if o0 + s < f1 then old(listed)[o0 + s + OVERHEAD := BinOf(f1 - o0 - s - OVERHEAD)]
              else old(listed)
      ensures Tagged(mem, Block(o0, s, false))
      ensures o0 + s < f1 ==> FreeTagged(o0 + s + OVERHEAD, f1 - o0 - s - OVERHEAD)
    {
      SetSize(o0, s, false);
      ListsKept(old(mem), mem, Lists());
      if o0 + s < f1 {
        FreeFragment(o0 + s + OVERHEAD, f1 - o0 - s - OVERHEAD);
      }
    }

    /** The part of mheap_get_search_free_bin from the label found on: take s words at o0, or a
        little more, out of a free block. */
    method Carve(f0: nat, f1: nat, o0: nat, s0: nat, bin: nat, ghost k: nat) returns (s: nat)
      requires Valid() && k < |blocks| && f0 <= f1 && blocks[k] == Block(f0, f1 - f0, true) && bin == BinOf(f1 - f0)
      requires MIN_USER <= s0 && f0 <= o0 && o0 + s0 <= f1 && (o0 == f0 || f0 + OVERHEAD + MIN_USER <= o0)
      modifies this
      ensures Sound(nElts + 1) && nElts == old(nElts) && |mem| == |old(mem)| && s0 <= s < s0 + OVERHEAD + MIN_USER
      ensures Live(blocks) == old(Live(blocks)) + {Region(o0, s)} && Apart(old(Live(blocks)), Region(o0, s))
      ensures Untouched(old(mem), mem, old(Live(blocks)))
    {
      s := s0;
      var o1 := o0 + s0;
      var hiFree: int := if f1 != o1 then f1 - o1 - OVERHEAD else 0;
      if hiFree < MIN_USER {
        s := s + (f1 - o1);
        o1 := f1;
      }
      CarveAt(f0, f1, o0, s, bin, k);
    }

    method CarveAt(f0: nat, f1: nat, o0: nat, s: nat, bin: nat, ghost k: nat)
      requires Valid() && k < |blocks| && f0 <= f1 && blocks[k] == Block(f0, f1 - f0, true) && bin == BinOf(f1 - f0)
      requires f0 == o0 || f0 + OVERHEAD + MIN_USER <= o0
      requires MIN_USER <= s && (o0 + s == f1 || o0 + s + OVERHEAD + MIN_USER <= f1)
      modifies this`mem, this`heads, this`nonEmpty, this`lists, this`listed, this`blocks
      ensures Sound(nElts + 1) && |mem| == |old(mem)|
      ensures Live(blocks) == old(Live(blocks)) + {Region(o0, s)} && Apart(old(Live(blocks)), Region(o0, s))
      ensures Untouched(old(mem), mem, old(Live(blocks)))
    {
      AroundFree(mem, blocks, len, listed, k);
      TakePieces(f0, f1, o0, s, bin, k);
      Carved(old(mem), mem, blocks, len, k, f0, f1, o0, s, old(listed), listed);
      blocks := Replaced(blocks, k, k + 1, Pieces(f0, f1, o0, s));
    }

    /** None of the first k blocks on the list of a bin has a place the search would use. */
    ghost predicate Fruitless(bin: nat, k: nat, s: nat, a: nat, ao: nat)
      requires a > 0 && bin < |lists| && k <= |lists[bin]|
      reads this`lists, this`blocks
    {
      forall j, t :: 0 <= j < k && 0 <= t < |blocks| && blocks[t].uo == lists[bin][j] ==>
          NothingFits(blocks[t], s, a, ao)
    }

    /** The result of a search: nothing has changed, or n words at r have been allocated. */
    twostate predicate Searched(r: nat, n: nat, s: nat, a: nat, ao: nat)
      requires a > 0
      reads this
    {
      if r == NONE then unchanged(this)
      else
        && Sound(nElts + 1) && nElts == old(nElts) && |mem| == |old(mem)|
        && s <= n < s + OVERHEAD + MIN_USER && Multiple(a, r + ao)
        && Live(blocks) == old(Live(blocks)) + {Region(r, n)} && Apart(old(Live(blocks)), Region(r, n))
        && Untouched(old(mem), mem, old(Live(blocks)))
    }

    /** mheap_get_search_free_bin. */
    method SearchFreeBin(bin: nat, s: nat, a: nat, ao: nat) returns (r: nat, n: nat)
      requires Valid() && bin < N_BINS && nonEmpty[bin] && MIN_USER <= s && BinOf(s) <= bin && ao < a
      modifies this
      ensures Searched(r, n, s, a, ao) && (r != NONE ==> FoundIn(old(blocks), r, s, a, ao))
      ensures r == NONE ==> Fruitless(bin, |lists[bin]|, s, a, ao)
    {
      assert BinOk(mem, Lists(), bin);
      var e := heads[bin];
      ghost var i := 0;
      while true
        invariant unchanged(this) && i < |lists[bin]| && e == lists[bin][i] && Fruitless(bin, i, s, a, ao)
        decreases |lists[bin]| - i
      {
        ghost var k := ListedBlock(mem, blocks, len, Lists(), bin, i);
        r, n := TryBlock(bin, e, s, a, ao, k);
        if r != NONE {
          return;
        }
        OneMoreFruitless(bin, i, s, a, ao, k);
        if mem[e].n == NONE {
          return;
        }
        e := mem[e].n;
        i := i + 1;
      }
    }

    lemma OneMoreFruitless(bin: nat, i: nat, s: nat, a: nat, ao: nat, k: nat)
      requires a > 0 && bin < |lists| && i < |lists[bin]| && Fruitless(bin, i, s, a, ao)
      requires k < |blocks| && blocks[k].uo == lists[bin][i] && NothingFits(blocks[k], s, a, ao)
      requires forall j :: 0 <= j < |blocks| && blocks[j].uo == blocks[k].uo ==> j == k
      ensures Fruitless(bin, i + 1, s, a, ao)
    {
    }

    /** Look at one block of the list. */
    method TryBlock(bin: nat, e: nat, s: nat, a: nat, ao: nat, ghost k: nat) returns (r: nat, n: nat)
      requires Valid() && MIN_USER <= s && BinOf(s) <= bin && ao < a
      requires k < |blocks| && blocks[k].free && blocks[k].uo == e && BinOf(blocks[k].n) == bin &&
               BlockOk(mem, blocks, len, k)
      modifies this
      ensures Searched(r, n, s, a, ao) && (r != NONE ==> PlacedIn(old(blocks)[k], r, s, a, ao))
      ensures r == NONE ==> NothingFits(blocks[k], s, a, ao)
    {
      var size := mem[e - 1].n;
      assert mem[e - 1].f;
      if bin < SMALL_BINS {
        SmallBin(s, size);
        assert size >= s;
      }
      if size >= s {
        var o0 := Place(e, e + size, s, a, ao);
        if o0 >= e && o0 + s <= e + size {
          n := Carve(e, e + size, o0, s, bin, k);
          return o0, n;
        }
      }
      return NONE, s;
    }

    /** mheap_get_search_free_list. */
    method SearchFreeList(s: nat, a: nat, ao: nat) returns (r: nat, n: nat)
      requires Valid() && MIN_USER <= s && ao < a
      modifies this
      ensures Searched(r, n, s, a, ao) && (r != NONE ==> FoundIn(old(blocks), r, s, a, ao))
      ensures r == NONE <==> NothingFitsIn(old(blocks), s, a, ao)
    {
      var bin := BinOf(s);
      var b := bin;
      while b < N_BINS
        invariant bin <= b && unchanged(this)
        invariant forall c :: bin <= c < b && c < N_BINS ==> Fruitless(c, |lists[c]|, s, a, ao)
      {
        assert BinOk(mem, Lists(), b);
        if nonEmpty[b] {
          r, n := SearchFreeBin(b, s, a, ao);
          if r != NONE {
            return;
          }
        }
        b := b + 1;
      }
      r, n := NONE, s;
      forall t | 0 <= t < |blocks| && blocks[t].free ensures NothingFits(blocks[t], s, a, ao) {
        if blocks[t].n >= s {
          BinMono(s, blocks[t].n);
          assert InItsBin(blocks, listed, t);
          var k := OnItsList(mem, Lists(), blocks[t].uo);
          assert Fruitless(listed[blocks[t].uo], |lists[listed[blocks[t].uo]]|, s, a, ao);
        }
      }
    }

    /** A position at the end of the heap: aligned, and with nothing in front or room for a free
        block. */
    ghost predicate EndPosition(f0: nat, a: nat, ao: nat, o: int)
      requires a > 0
    {
      Aligned(f0, a, ao, o) && (o == f0 || o >= f0 + OVERHEAD + 4)
    }

    ghost predicate NoRoomAtEnd(f0: nat, s: nat, a: nat, ao: nat)
      requires a > 0
      reads this`mem
    {
      forall o: int :: EndPosition(f0, a, ao, o) ==> o + s + OVERHEAD > |mem|
    }

    /** There is no place for so many words: neither one the search considers in a free block nor
        one at the end. */
    ghost predicate NoPlaceFor(s: nat, a: nat, ao: nat)
      requires a > 0
      reads this`mem, this`len, this`blocks
    {
      && NothingFitsIn(blocks, s, a, ao)
      && (len == |mem| || NoRoomAtEnd(if len == 0 then OVERHEAD else len, s, a, ao))
    }

    /** The first of them. */
    method FirstAtEnd(f0: nat, a: nat, ao: nat) returns (o0: nat)
      requires 0 < f0 && ao < a
      ensures EndPosition(f0, a, ao, o0) && forall o: int :: EndPosition(f0, a, ao, o) ==> o0 <= o
    {
      var o: int := RoundDown(f0 + a - 1, a) - ao;
      forall x: int | Aligned(f0, a, ao, x) ensures o <= x {
        if x < o {
          MultipleStep(a, x + ao, o + ao);
        }
      }
      while true
        invariant Multiple(a, o + ao) && o + ao > 0
        invariant forall x: int :: EndPosition(f0, a, ao, x) ==> o <= x
        decreases f0 + OVERHEAD + 4 - o
      {
        var freeSize := o - f0 - OVERHEAD;
        if o == f0 || freeSize >= 4 {
          break;
        }
        forall x: int | EndPosition(f0, a, ao, x) ensures o + a <= x {
          MultipleStep(a, o + ao, x + ao);
        }
        o := o + a;
      }
      o0 := o;
    }

    /** The object was appended at the first position there is. */
    twostate predicate Appended(r: nat, s: nat, a: nat, ao: nat)
      requires a > 0
      reads this
    {
      var f0 := if old(len) == 0 then OVERHEAD else old(len);
      && EndPosition(f0, a, ao, r) && (forall o: int :: EndPosition(f0, a, ao, o) ==> r <= o)
      && len == r + s + OVERHEAD && blocks == old(blocks) + Tail(f0, r, s)
    }

    /** mheap_get_extend_vector. */
    method ExtendVector(s: nat, a: nat, ao: nat) returns (r: nat)
      requires Valid() && OVERHEAD <= |mem| && MIN_USER <= s && ao < a
      modifies this
      ensures |mem| == |old(mem)| && nElts == old(nElts) && Untouched(old(mem), mem, old(Live(blocks)))
      ensures r == NONE ==> Valid() && blocks == old(blocks)
      ensures r == NONE ==> NoRoomAtEnd(if old(len) == 0 then OVERHEAD else old(len), s, a, ao)
      ensures r != NONE ==>
                && Sound(nElts + 1) && Multiple(a, r + ao) && Live(blocks) == old(Live(blocks)) + {Region(r, s)}
                && Apart(old(Live(blocks)), Region(r, s)) && Appended(r, s, a, ao)
    {
      LiveDisjoint(mem, blocks, len);
      if len == 0 {
        StartHeap();
      }
      var f0 := len;
      var o0 := FirstAtEnd(f0, a, ao);
      if o0 + s + OVERHEAD > |mem| {
        return NONE;
      }
      Append(o0, s);
      return o0;
    }

    /** Create the first element of the heap. */
    method StartHeap()
      requires Valid() && OVERHEAD <= |mem| && len == 0
      modifies this`len, this`mem
      ensures Valid() && len == OVERHEAD && |mem| == |old(mem)| && blocks == []
    {
      len := OVERHEAD;
      mem := mem[0 := Cell(INVALID, mem[0].f)];
      NoneListed(blocks, listed);
      ListsKept(old(mem), mem, Lists());
    }

    /** The rest of mheap_get_extend_vector. */
    method Append(o0: nat, s: nat)
      requires Valid() && 0 < len && MIN_USER <= s && o0 + s + OVERHEAD <= |mem|
      requires o0 == len || len + OVERHEAD + MIN_USER <= o0
      modifies this`mem, this`len, this`heads, this`nonEmpty, this`lists, this`listed, this`blocks
      ensures Sound(nElts + 1) && |mem| == |old(mem)| && Live(blocks) == old(Live(blocks)) + {Region(o0, s)}
      ensures len == o0 + s + OVERHEAD && blocks == old(blocks) + Tail(old(len), o0, s)
      ensures Untouched(old(mem), mem, old(Live(blocks))) && Apart(old(Live(blocks)), Region(o0, s))
    {
      ghost var f0, r := len, blocks + Tail(len, o0, s);
      TagEnd(o0, s);
      Extended(old(mem), mem, blocks, f0, o0, s, old(listed), listed, r);
      len := o0 + s + OVERHEAD;
      blocks := r;
    }

    method TagEnd(o0: nat, s: nat)
      requires Valid() && 0 < len && MIN_USER <= s && o0 + s + OVERHEAD <= |mem|
      requires o0 == len || len + OVERHEAD + MIN_USER <= o0
      modifies this`mem, this`heads, this`nonEmpty, this`lists, this`listed
      ensures ListsOk(mem, Lists()) && listed == if len < o0 then old(listed)[len := BinOf(o0 - len - OVERHEAD)]
              else old(listed)
      ensures Within(old(mem), mem, len - 1, o0 + s + 1, old(listed)) && mem[o0 + s + 1].n == INVALID
      ensures Tagged(mem, Block(o0, s, false)) && (len < o0 ==> Tagged(mem, Block(len, o0 - len - OVERHEAD, true)))
    {
      AtEnd(mem, blocks, len, listed);
      TagTail(len, o0, s);
    }

    method TagTail(f0: nat, o0: nat, s: nat)
      requires OVERHEAD <= f0 && MIN_USER <= s && o0 + s + OVERHEAD <= |mem| <= MAX_WORDS
      requires o0 == f0 || f0 + OVERHEAD + MIN_USER <= o0
      requires ListsOk(mem, Lists()) && mem[f0 - 2].n >= MIN_USER && forall v :: v in listed ==> v + 3 < f0
      modifies this`mem, this`heads, this`nonEmpty, this`lists, this`listed
      ensures ListsOk(mem, Lists()) && listed == if f0 < o0 then old(listed)[f0 := BinOf(o0 - f0 - OVERHEAD)]
              else old(listed)
      ensures Within(old(mem), mem, f0 - 1, o0 + s + 1, old(listed)) && mem[o0 + s + 1].n == INVALID
      ensures Tagged(mem, Block(o0, s, false)) && (f0 < o0 ==> Tagged(mem, Block(f0, o0 - f0 - OVERHEAD, true)))
    {
      if f0 < o0 {
        NewFreeElt(f0, o0 - f0 - OVERHEAD);
        assert mem[o0 - 2].n >= MIN_USER;
      }
      TagLast(o0, s);
    }

    /** Tag the object that is now the last, and mark the end. */
    method TagLast(o0: nat, s: nat)
      requires OVERHEAD <= o0 && o0 + s + OVERHEAD <= |mem| && MIN_USER <= s
      requires ListsOk(mem, Lists()) && mem[o0 - 2].n >= MIN_USER && ClearOf(listed, o0 - 1, o0 + s + 1)
      modifies this`mem
      ensures ListsOk(mem, Lists()) && Tagged(mem, Block(o0, s, false)) && |mem| == |old(mem)|
      ensures mem[o0 + s + 1].n == INVALID
      ensures forall w :: 0 <= w < |mem| && w != o0 - 1 && w != o0 + s && w != o0 + s + 1 ==> mem[w] == old(mem)[w]
    {
      SetSize(o0, s, false);
      mem := mem[o0 + s + 1 := Cell(INVALID, mem[o0 + s + 1].f)];
      ListsKept(old(mem), mem, Lists());
    }

    /** The same for so many bytes, with the alignment 2^k and this offset. */
    ghost predicate NoPlaceForBytes(bytes: nat, offset: nat, k: nat)
      reads this`mem, this`len, this`blocks
    {
      Pow2(k) >= 4 && NoPlaceFor(WordsFor(bytes), Pow2(k) / 4, offset % Pow2(k) / 4)
    }

    lemma PlaceForBytes(bytes: nat, align: nat, offset: nat, k: nat, a: nat, ao: nat)
      requires k == AlignBits(align) >= 2 && a == Pow2(k - 2) && ao == LowBits(offset, k) / 4
      ensures NoPlaceForBytes(bytes, offset, k) <==> NoPlaceFor(WordsFor(bytes), a, ao)
    {
      AlignmentIs(align, offset, k, LowBits(offset, k));
    }

    /** mheap_get_aligned, for sizes in bytes: the result is a region of the size asked for, or a
        little more, aligned as asked for, apart from all others.  It fails, and nothing changes,
        if and only if the offset is not one of whole words, or there is no place.  The alignment
        is 2^k. */
    method GetAligned(bytes: nat, alignBytes: nat, offsetBytes: nat) returns (r: nat, n: nat, ghost k: nat)
      requires Valid() && OVERHEAD <= |mem|
      modifies this
      ensures Valid() && |mem| == |old(mem)| && Untouched(old(mem), mem, old(Live(blocks)))
      ensures r == NONE ==> blocks == old(blocks)
      ensures r != NONE ==>
                && WordsFor(bytes) <= n < WordsFor(bytes) + OVERHEAD + MIN_USER
                && Live(blocks) == old(Live(blocks)) + {Region(r, n)} && Apart(old(Live(blocks)), Region(r, n))
      ensures r != NONE ==> AlignedTo(r, alignBytes, offsetBytes)
      ensures Alignment(alignBytes, k)
      ensures r == NONE <==> OddOffset(offsetBytes, k) || old(NoPlaceForBytes(bytes, offsetBytes, k))
    {
      LiveDisjoint(mem, blocks, len);
      var bits := AlignBits(alignBytes);
      var offset := LowBits(offsetBytes, bits);
      AlignmentIs(alignBytes, offsetBytes, bits, offset);
      k := bits;
      if offset % 4 != 0 {
        return NONE, 0, k;
      }
      var s, a, ao := WordsFor(bytes), Pow2(bits - 2), offset / 4;
      PlaceForBytes(bytes, alignBytes, offsetBytes, k, a, ao);
      r, n := GetWords(s, a, ao);
      if r != NONE {
        AllAligned(r, ao, alignBytes, offsetBytes);
      }
    }

    /** The same for sizes and alignments in words. */
    method GetWords(s: nat, a: nat, ao: nat) returns (r: nat, n: nat)
      requires Valid() && OVERHEAD <= |mem| && MIN_USER <= s && ao < a
      modifies this
      ensures Valid() && |mem| == |old(mem)| && Untouched(old(mem), mem, old(Live(blocks)))
      ensures r == NONE ==> blocks == old(blocks)
      ensures r != NONE ==>
                && s <= n < s + OVERHEAD + MIN_USER && Multiple(a, r + ao)
                && Live(blocks) == old(Live(blocks)) + {Region(r, n)} && Apart(old(Live(blocks)), Region(r, n))
      ensures r != NONE && !NothingFitsIn(old(blocks), s, a, ao) ==> FoundIn(old(blocks), r, s, a, ao)
      ensures r != NONE && NothingFitsIn(old(blocks), s, a, ao) ==> n == s && Appended(r, s, a, ao)
      ensures r == NONE <==> old(NoPlaceFor(s, a, ao))
    {
      LiveDisjoint(mem, blocks, len);
      r, n := SearchFreeList(s, a, ao);
      assert r == NONE <==> NothingFitsIn(old(blocks), s, a, ao);
      if r == NONE && len < |mem| {
        r := ExtendVector(s, a, ao);
        n := s;
      }
      if r != NONE {
        nElts := nElts + 1;
      }
    }

    /** Take the block off its list and tag the pieces. */
    method TakePieces(f0: nat, f1: nat, o0: nat, s: nat, bin: nat, ghost k: nat)
      requires OVERHEAD <= f0 && f1 < |mem| <= MAX_WORDS && f0 - 2 < |mem| && mem[f0 - 2].n >= MIN_USER &&
               !LinkWord(listed, f0 - 2)
      requires ListsOk(mem, Lists()) && f0 in listed && listed[f0] == bin && ClearOf(listed - {f0}, f0 - 1, f1 + 1)
      requires k + 1 < |blocks| && blocks[k].uo == f0 && blocks[k + 1].uo == f1 + OVERHEAD
      requires f0 == o0 || f0 + OVERHEAD + MIN_USER <= o0
      requires MIN_USER <= s && (o0 + s == f1 || o0 + s + OVERHEAD + MIN_USER <= f1)
      modifies this`mem, this`heads, this`nonEmpty, this`lists, this`listed
      ensures ListsOk(mem, Lists()) && Within(old(mem), mem, f0 - 1, f1, old(listed))
      ensures Chained(mem, Pieces(f0, f1, o0, s), f1 + OVERHEAD) && Pieces(f0, f1, o0, s)[0].uo == f0
      ensures Relisted(blocks, k, k + 1, Pieces(f0, f1, o0, s), old(listed), listed)
    {
      RemoveFreeElt(f0, bin);
      ghost var m1, q1 := mem, listed;
      TagFront(f0, f1, o0);
      ghost var m2, q2 := mem, listed;
      TagObject(o0, s, f1);
      WithinChain(m1, m2, mem, f0 - 1, f1, q1, o0 - 1, f1, q2);
      WithinChain(old(mem), m1, mem, f0 - 1, f1, old(listed), f0 - 1, f1, q1);
      PiecesChained(mem, f0, f1, o0, s);
      PiecesListed(blocks, k, f0, f1, o0, s, old(listed), listed);
    }

    // ---------- Freeing ----------

    /** The blocks in the space from lo to hi are off their lists, and nothing else has changed. */
    ghost predicate Unlinked(mem0: seq<Cell>, listed0: map<nat, nat>, lo: nat, hi: nat)
      reads this`mem, this`heads, this`nonEmpty, this`lists, this`listed
    {
      && ListsOk(mem, Lists())
      && |mem| == |mem0| && (forall w :: 0 <= w < |mem| && !LinkWord(listed0, w) ==> mem[w] == mem0[w])
      && (forall u :: u in listed <==> u in listed0 && (u < lo || u >= hi))
      && (forall u :: u in listed ==> listed[u] == listed0[u])
    }

    /** If the block before k is free, take it off its list; block i is the first of the two. */
    method TakePrevious(uo: nat, ghost k: nat) returns (f0: nat, ghost i: nat)
      requires |mem| <= MAX_WORDS && Tiled(mem, blocks, len) && Alternating(blocks) && ListsOk(mem, Lists()) &&
               FreeListed(blocks, listed)
      requires k < |blocks| && blocks[k].uo == uo && !blocks[k].free
      modifies this`mem, this`heads, this`nonEmpty, this`lists, this`listed
      ensures i <= k && blocks[i].uo == f0 <= uo && Alone(blocks, k, i, k + 1) && (i > 0 ==> !blocks[i - 1].free)
      ensures Unlinked(old(mem), old(listed), f0, uo + blocks[k].n + OVERHEAD)
    {
      AroundBlock(mem, blocks, len, k);
      BlockRange(mem, blocks, len, listed, k);
      f0, i := uo, k;
      if mem[uo - 2].f {
        i := k - 1;
        f0 := uo - mem[uo - 2].n - OVERHEAD;
        AroundFree(mem, blocks, len, listed, i);
        BlockRange(mem, blocks, len, listed, i);
        RemoveFreeElt(f0, BinOf(mem[f0 - 1].n));
      }
    }

    /** If the block after k is free, take it off its list; block j is the first that stays. */
    method TakeNext(uo: nat, n: nat, ghost k: nat, ghost i: nat, ghost lo: nat, ghost mem0: seq<Cell>,
                    ghost listed0: map<nat, nat>)
      returns (f1: nat, ghost j: nat)
      requires |mem0| <= MAX_WORDS && Tiled(mem0, blocks, len) && Alternating(blocks) && FreeListed(blocks, listed0)
      requires k + 1 < |blocks| && blocks[k] == Block(uo, n, false) && Alone(blocks, k, i, k + 1)
      requires Unlinked(mem0, listed0, lo, uo + n + OVERHEAD) && lo <= uo
      modifies this`mem, this`heads, this`nonEmpty, this`lists, this`listed
      ensures k < j < |blocks| && f1 + OVERHEAD == blocks[j].uo && Alone(blocks, k, i, j) && !blocks[j].free
      ensures Unlinked(mem0, listed0, lo, f1 + OVERHEAD)
    {
      AroundNext(mem0, blocks, len, listed0, k);
      f1, j := uo + n, k + 1;
      if mem[uo + n + 1].f {
        var m := uo + n + OVERHEAD;
        f1 := m + mem[m - 1].n;
        j := k + 2;
        RemoveFreeElt(m, BinOf(mem[m - 1].n));
      }
    }

    /** free_last_elt, and with it a free block before the last. */
    method FreeLast(uo: nat, n: nat, ghost k: nat)
      requires Sound(nElts + 1) && k + 1 == |blocks| && blocks[k] == Block(uo, n, false)
      modifies this`mem, this`len, this`heads, this`nonEmpty, this`blocks, this`lists, this`listed
      ensures Valid() && |mem| == |old(mem)|
      ensures Live(blocks) == old(Live(blocks)) - {Region(uo, n)} && Untouched(old(mem), mem, Live(blocks))
    {
      ghost var mem0, listed0, len0 := mem, listed, len;
      AroundBlock(mem, blocks, len, k);
      ghost var i := ShrinkTo(uo, n, k);
      Truncated(mem0, mem, blocks, len0, i, listed0, listed);
      OneLess(mem0, blocks, len0, k, i, k + 1, []);
      assert Replaced(blocks, i, k + 1, []) == blocks[..i];
      blocks := blocks[..i];
    }

    /** End the heap before the last block or before the free one in front of it. */
    method ShrinkTo(uo: nat, n: nat, ghost k: nat) returns (ghost i: nat)
      requires Sound(nElts + 1) && k + 1 == |blocks| && blocks[k] == Block(uo, n, false)
      modifies this`mem, this`len, this`heads, this`nonEmpty, this`lists, this`listed
      ensures i <= k && Alone(blocks, k, i, k + 1) && (i > 0 ==> !blocks[i - 1].free) &&
              0 < blocks[i].uo <= old(len) <= |old(mem)| == |mem|
      ensures ListsOk(mem, Lists()) && len == if i == 0 then 0 else blocks[i].uo
      ensures 2 <= old(len) && Within(old(mem), mem, blocks[i].uo - 1, old(len) - 2, old(listed))
      ensures i > 0 ==> mem[blocks[i].uo - 1].n == INVALID
      ensures forall u :: u in listed <==> u in old(listed) && u < blocks[i].uo
      ensures forall u :: u in listed ==> listed[u] == old(listed)[u]
    {
      AroundBlock(mem, blocks, len, k);
      var e;
      e, i := TakePrevious(uo, k);
      ghost var m1 := mem;
      LastFacts(old(mem), m1, blocks, len, old(listed), listed, i);
      EndAt(e);
      WithinEnd(old(mem), m1, mem, e, old(len), old(listed));
    }

    /** Mark the end of the heap, or leave it empty. */
    method EndAt(e: nat)
      requires OVERHEAD <= e <= |mem| && ListsOk(mem, Lists()) && !LinkWord(listed, e - 1)
      modifies this`mem, this`len
      ensures ListsOk(mem, Lists()) && len == if old(mem)[e - 2].n == INVALID then 0 else e
      ensures |mem| == |old(mem)| && forall w :: 0 <= w < |mem| && w != e - 1 ==> mem[w] == old(mem)[w]
      ensures len != 0 ==> mem[e - 1].n == INVALID
    {
      if mem[e - 2].n == INVALID {
        len := 0;
      } else {
        mem := mem[e - 1 := Cell(INVALID, mem[e - 1].f)];
        len := e;
      }
      ListsKept(old(mem), mem, Lists());
    }

    /** Tag the space from f0 to f1 as one free block and put it on its list. */
    method FreeSpace(uo: nat, n: nat, f0: nat, f1: nat)
      requires OVERHEAD <= f0 <= uo && uo + n <= f1 < |mem| <= MAX_WORDS && MIN_USER <= n && mem[f0 - 2].n >= MIN_USER
      requires ListsOk(mem, Lists()) && ClearOf(listed, f0 - 1, f1 + 1)
      requires mem[uo - 1] == Cell(n, false) && mem[uo + n] == Cell(n, false)
      modifies this`mem, this`heads, this`nonEmpty, this`lists, this`listed
      ensures ListsOk(mem, Lists()) && listed == old(listed)[f0 := BinOf(f1 - f0)]
      ensures Tagged(mem, Block(f0, f1 - f0, true)) && Within(old(mem), mem, f0 - 1, f1, old(listed))
    {
      TagSpace(uo, n, f0, f1);
      SetFreeElt(f0, f1 - f0);
    }

    method TagSpace(uo: nat, n: nat, f0: nat, f1: nat)
      requires OVERHEAD <= f0 <= uo && uo + n <= f1 < |mem| <= MAX_WORDS && MIN_USER <= n && mem[f0 - 2].n >= MIN_USER
      requires ListsOk(mem, Lists()) && ClearOf(listed, f0 - 1, f1 + 1)
      requires mem[uo - 1] == Cell(n, false) && mem[uo + n] == Cell(n, false)
      modifies this`mem
      ensures ListsOk(mem, Lists())
      ensures mem == old(mem)[f0 - 1 := Cell(f1 - f0, true)][f1 := Cell(f1 - f0, true)]
    {
      if f0 < uo || uo + n < f1 {
        SetSize(f0, f1 - f0, true);
      } else {
        mem := mem[uo - 1 := Cell(mem[uo - 1].n, true)];
        mem := mem[uo + n := Cell(mem[uo + n].n, true)];
      }
      ListsKept(old(mem), mem, Lists());
    }

    /** The part of mheap_put for a block that is not the last. */
    method Coalesce(uo: nat, n: nat, ghost k: nat)
      requires Sound(nElts + 1) && k + 1 < |blocks| && blocks[k] == Block(uo, n, false)
      modifies this`mem, this`heads, this`nonEmpty, this`blocks, this`lists, this`listed
      ensures Valid() && |mem| == |old(mem)|
      ensures Live(blocks) == old(Live(blocks)) - {Region(uo, n)} && Untouched(old(mem), mem, Live(blocks))
    {
      ghost var mem0, listed0 := mem, listed;
      ghost var i, j, b := Combine(uo, n, k);
      Coalesced(mem0, mem, blocks, len, k, i, j, listed0, listed, b);
      blocks := Replaced(blocks, i, j, [b]);
    }

    /** Make one free block of it and its free neighbours. */
    method Combine(uo: nat, n: nat, ghost k: nat) returns (ghost i: nat, ghost j: nat, ghost b: Block)
      requires Sound(nElts + 1) && k + 1 < |blocks| && blocks[k] == Block(uo, n, false)
      modifies this`mem, this`heads, this`nonEmpty, this`lists, this`listed
      ensures ListsOk(mem, Lists()) && Alone(blocks, k, i, j) && j < |blocks| && !blocks[j].free &&
              (i > 0 ==> !blocks[i - 1].free)
      ensures blocks[i].uo + MIN_USER + OVERHEAD <= blocks[j].uo &&
              b == Block(blocks[i].uo, blocks[j].uo - OVERHEAD - blocks[i].uo, true)
      ensures Tagged(mem, b) && OVERHEAD <= b.uo && Within(old(mem), mem, b.uo - 1, b.uo + b.n, old(listed))
      ensures Relisted(blocks, i, j, [b], old(listed), listed)
    {
      var f0, f1;
      f0, f1, i, j := TakeNeighbours(uo, n, k);
      ghost var mem1, listed1 := mem, listed;
      FreeSpace(uo, n, f0, f1);
      b := Block(f0, f1 - f0, true);
      WithinTaken(old(mem), mem1, mem, f0 - 1, f1, old(listed), listed1);
      RelistedOne(blocks, i, j, b, old(listed), listed1, listed);
    }

    /** Take free neighbours off their lists. */
    method TakeNeighbours(uo: nat, n: nat, ghost k: nat) returns (f0: nat, f1: nat, ghost i: nat, ghost j: nat)
      requires Sound(nElts + 1) && k + 1 < |blocks| && blocks[k] == Block(uo, n, false)
      modifies this`mem, this`heads, this`nonEmpty, this`lists, this`listed
      ensures Alone(blocks, k, i, j) && j < |blocks| && !blocks[j].free && (i > 0 ==> !blocks[i - 1].free)
      ensures f0 == blocks[i].uo && f1 + OVERHEAD == blocks[j].uo && Unlinked(old(mem), old(listed), f0, f1 + OVERHEAD)
      ensures OVERHEAD <= f0 <= uo && uo + n <= f1 < |mem| && MIN_USER <= n && mem[f0 - 2].n >= MIN_USER &&
              ClearOf(listed, f0 - 1, f1 + 1)
      ensures mem[uo - 1] == Cell(n, false) && mem[uo + n] == Cell(n, false)
    {
      f0, i := TakePrevious(uo, k);
      f1, j := TakeNext(uo, n, k, i, f0, old(mem), old(listed));
      OwnTags(old(mem), mem, blocks, len, old(listed), k, i, j);
      TagBefore(old(mem), mem, blocks, len, old(listed), i);
      RangeClear(old(mem), blocks, len, old(listed), listed, i, j);
    }

    /** mheap_put: exactly this region is given back, and no other is touched. */
    method Put(uo: nat, ghost k: nat)
      requires Valid() && k < |blocks| && blocks[k].uo == uo && !blocks[k].free
      modifies this
      ensures Valid() && |mem| == |old(mem)|
      ensures Live(blocks) == old(Live(blocks)) - {Region(uo, old(blocks)[k].n)} &&
              Untouched(old(mem), mem, Live(blocks))
      ensures k + 1 < |old(blocks)| ==> len == old(len)
    {
      AroundBlock(mem, blocks, len, k);
      AloneCounts(blocks, k);
      assert nElts > 0;
      nElts := nElts - 1;
      var n := mem[uo - 1].n;
      assert mem[uo + n].n == n && mem[uo + n].f == mem[uo - 1].f && !mem[uo - 1].f;
      if mem[uo + n + 1].n == INVALID {
        FreeLast(uo, n, k);
      } else {
        Coalesce(uo, n, k);
      }
    }
  }

  /** After the neighbours have been taken off their lists, the tags of block k still stand. */
  lemma OwnTags(mem: seq<Cell>, mem': seq<Cell>, blocks: seq<Block>, len: nat, listed: map<nat, nat>, k: nat, i: nat,
                j: nat)
    requires Tiled(mem, blocks, len) && FreeListed(blocks, listed) && Alone(blocks, k, i, j) && j < |blocks| &&
             |mem'| == |mem|
    requires forall w :: 0 <= w < |mem| && !LinkWord(listed, w) ==> mem'[w] == mem[w]
    ensures OVERHEAD <= blocks[i].uo <= blocks[k].uo && MIN_USER <= blocks[k].n &&
            blocks[k].uo + blocks[k].n + OVERHEAD <= blocks[j].uo <= len
    ensures mem'[blocks[k].uo - 1] == Cell(blocks[k].n, blocks[k].free) &&
            mem'[blocks[k].uo + blocks[k].n] == Cell(blocks[k].n, blocks[k].free)
  {
    assert BlockOk(mem, blocks, len, k) && BlockOk(mem, blocks, len, i);
    LinksInside(mem, blocks, len, listed, k);
    Ordered(mem, blocks, len, k, j);
    Ordered(mem, blocks, len, j, |blocks|);
  }

  /** So does the one before block i. */
  lemma TagBefore(mem: seq<Cell>, mem': seq<Cell>, blocks: seq<Block>, len: nat, listed: map<nat, nat>, i: nat)
    requires Tiled(mem, blocks, len) && FreeListed(blocks, listed) && i < |blocks| && |mem'| == |mem|
    requires forall w :: 0 <= w < |mem| && !LinkWord(listed, w) ==> mem'[w] == mem[w]
    ensures OVERHEAD <= blocks[i].uo <= len && mem'[blocks[i].uo - 2].n == mem[blocks[i].uo - 2].n >= MIN_USER
  {
    assert BlockOk(mem, blocks, len, i);
    Ordered(mem, blocks, len, i, |blocks|);
    LinksInside(mem, blocks, len, listed, i);
    if i > 0 {
      assert BlockOk(mem, blocks, len, i - 1);
      LinksInside(mem, blocks, len, listed, i - 1);
    }
  }

  lemma LastFacts(mem: seq<Cell>, mem': seq<Cell>, blocks: seq<Block>, len: nat, listed: map<nat, nat>,
                  listed': map<nat, nat>, i: nat)
    requires |mem| <= MAX_WORDS && Tiled(mem, blocks, len) && FreeListed(blocks, listed) && i < |blocks| &&
             |mem'| == |mem|
    requires forall w :: 0 <= w < |mem| && !LinkWord(listed, w) ==> mem'[w] == mem[w]
    requires forall u :: u in listed' <==> u in listed && (u < blocks[i].uo || u >= len)
    ensures OVERHEAD <= blocks[i].uo <= len && (mem'[blocks[i].uo - 2].n == INVALID <==> i == 0)
    ensures !LinkWord(listed', blocks[i].uo - 1) && forall u :: u in listed' <==> u in listed && u < blocks[i].uo
  {
    AroundBlock(mem, blocks, len, i);
    TagBefore(mem, mem', blocks, len, listed, i);
    LinksInside(mem, blocks, len, listed, i);
    AllBelow(mem, blocks, len, listed);
  }

  lemma WithinEnd(m0: seq<Cell>, m1: seq<Cell>, m2: seq<Cell>, e: nat, len: nat, listed0: map<nat, nat>)
    requires |m2| == |m1| == |m0| && 2 <= e < len
    requires forall w :: 0 <= w < |m0| && !LinkWord(listed0, w) ==> m1[w] == m0[w]
    requires forall w :: 0 <= w < |m0| && w != e - 1 ==> m2[w] == m1[w]
    ensures Within(m0, m2, e - 1, len - 2, listed0)
  {
  }

  lemma WithinTaken(m0: seq<Cell>, m1: seq<Cell>, m2: seq<Cell>, lo: nat, hi: nat, listed0: map<nat, nat>,
                    listed1: map<nat, nat>)
    requires |m1| == |m0| && forall w :: 0 <= w < |m0| && !LinkWord(listed0, w) ==> m1[w] == m0[w]
    requires Within(m1, m2, lo, hi, listed1) && forall u :: u in listed1 ==> u in listed0
    ensures Within(m0, m2, lo, hi, listed0)
  {
  }

  lemma RelistedOne(blocks: seq<Block>, i: nat, j: nat, b: Block, listed0: map<nat, nat>, listed1: map<nat, nat>,
                    listed2: map<nat, nat>)
    requires i < j < |blocks| && b.free && b.uo == blocks[i].uo < blocks[j].uo && listed2 == listed1[b.uo := BinOf(b.n)]
    requires forall u :: u in listed1 <==> u in listed0 && (u < blocks[i].uo || u >= blocks[j].uo)
    requires forall u :: u in listed1 ==> listed1[u] == listed0[u]
    ensures Relisted(blocks, i, j, [b], listed0, listed2)
  {
    assert [b][0] == b;
    assert IsFree([b], b.uo);
  }

  lemma PiecesListed(blocks: seq<Block>, k: nat, f0: nat, f1: nat, o0: nat, s: nat, listed: map<nat, nat>,
                     listed': map<nat, nat>)
    requires k + 1 < |blocks| && blocks[k].uo == f0 && blocks[k + 1].uo == f1 + OVERHEAD && 0 < f0
    requires (f0 == o0 || f0 + OVERHEAD <= o0) && (o0 + s == f1 || o0 + s + OVERHEAD <= f1)
    requires f0 in listed && ClearOf(listed - {f0}, f0 - 1, f1 + 1)
    requires var q := if f0 < o0 then (listed - {f0})[f0 := BinOf(o0 - f0 - OVERHEAD)] else listed - {f0};
             listed' == if o0 + s < f1 then q[o0 + s + OVERHEAD := BinOf(f1 - o0 - s - OVERHEAD)] else q
    ensures Relisted(blocks, k, k + 1, Pieces(f0, f1, o0, s), listed, listed')
  {
    var p := Pieces(f0, f1, o0, s);
    if f0 < o0 {
      assert p[0] == Block(f0, o0 - f0 - OVERHEAD, true);
    }
    if o0 + s < f1 {
      assert p[|p| - 1] == Block(o0 + s + OVERHEAD, f1 - o0 - s - OVERHEAD, true);
    }
    forall u | u in listed' ensures IsFree(p, u) || (u in listed && (u < f0 || u >= f1 + OVERHEAD)) {
      if (f0 < o0 && u == f0) || (o0 + s < f1 && u == o0 + s + OVERHEAD) {
        assert IsFree(p, u);
      } else {
        assert u in listed - {f0};
        NotInside(listed - {f0}, f0, f1 + 1, u);
      }
    }
  }

  lemma NotInside(listed: map<nat, nat>, f0: nat, f1: nat, u: nat)
    requires u in listed && 0 < f0 && ClearOf(listed, f0 - 1, f1)
    ensures u < f0 || u > f1
  {
  }

  /** A run in which the search misses the place: of 15 words, 7 and 2 are allocated and the 7 freed
      again; 2 words aligned to 4, after an offset of 1, would fit into them at 7. */
  method MissedRun() returns (h: Heap, r: nat)
    ensures fresh(h) && h.Valid() && |h.blocks| > 0 && h.blocks[0] == Block(2, 7, true)
    ensures Fits(2, 9, 2, 4, 1, 7) && r == NONE
  {
    h := new Heap(15);
    AppendWords(h, 7);
    AppendWords(h, 2);
    FreeFirst(h);
    MissedSeven();
    var n;
    r, n := h.GetWords(2, 4, 1);
  }

  method FreeFirst(h: Heap)
    requires h.Valid() && h.len == 15 && h.blocks == [Block(2, 7, false), Block(11, 2, false)]
    modifies h
    ensures h.Valid() && h.len == 15 && |h.mem| == |old(h.mem)| && h.blocks == [Block(2, 7, true), Block(11, 2, false)]
  {
    h.Put(2, 0);
    TwoBlocks(h.mem, h.blocks, h.len);
  }

  lemma MissedSeven()
    ensures Fits(2, 9, 2, 4, 1, 7) && NothingFits(Block(2, 7, true), 2, 4, 1)
  {
    assert Multiple(4, 8) && RoundDown(7, 4) == 4;
    assert Misses(2, 9, 2, 4, 1);
    SearchMisses(2, 9, 2, 4, 1);
  }

  /** While nothing is free and there is room, s words are appended. */
  method AppendWords(h: Heap, s: nat)
    requires h.Valid() && OVERHEAD <= |h.mem| && MIN_USER <= s
    requires forall t :: 0 <= t < |h.blocks| ==> !h.blocks[t].free
    requires (if h.len == 0 then OVERHEAD else h.len) + s + OVERHEAD <= |h.mem|
    modifies h
    ensures h.Valid() && |h.mem| == |old(h.mem)| &&
            h.len == (if old(h.len) == 0 then OVERHEAD else old(h.len)) + s + OVERHEAD
    ensures h.blocks == old(h.blocks) + [Block(if old(h.len) == 0 then OVERHEAD else old(h.len), s, false)]
  {
    ghost var f0 := if h.len == 0 then OVERHEAD else h.len;
    EveryWord(f0);
    assert h.EndPosition(f0, 1, 0, f0);
    var r, n := h.GetWords(s, 1, 0);
  }

  lemma {:induction false} EveryWord(x: nat)
    ensures Multiple(1, x)
  {
    if x > 0 {
      EveryWord(x - 1);
    }
  }

  lemma TwoBlocks(mem: seq<Cell>, blocks: seq<Block>, len: nat)
    requires Tiled(mem, blocks, len) && Alternating(blocks) && Live(blocks) == {Region(11, 2)} && len == 15
    ensures blocks == [Block(2, 7, true), Block(11, 2, false)]
  {
    assert forall i :: 0 <= i < |blocks| && !blocks[i].free ==> Region(blocks[i].uo, blocks[i].n) in Live(blocks);
    assert Region(11, 2) in Live(blocks);
    assert BlockOk(mem, blocks, len, 0);
    assert blocks[0].free && Follows(blocks, 0);
    assert BlockOk(mem, blocks, len, 1);
    if |blocks| > 2 {
      assert BlockOk(mem, blocks, len, 2);
      assert blocks[2].free && Follows(blocks, 2);
      UniqueStart(mem, blocks, len, 1, 3);
    }
  }
}
