/** Fibonacci heaps of clib/fheap.c: nodes in a vector, linked by index into circular
    lists of siblings.
 */
module Fheap {

  import opened Words

  /** The u32 value ~0: no node. */
  const NONE: nat := 0xffff_ffff

  datatype Node = Node(parent: nat, firstChild: nat, next: nat, prev: nat, key: nat, rank: nat, marked: bool,
                       valid: bool)

  ghost predicate NoDup(s: seq<nat>) {
    forall i, j :: 0 <= i < j < |s| ==> s[i] != s[j]
  }

  // ---------- Circular lists ----------

  function Succ(i: nat, n: nat): nat {
    if i + 1 == n then 0 else i + 1
  }

  /** The i-th element of s is linked both ways with the one after it, round the end. */
  ghost predicate LinkAt(nodes: seq<Node>, s: seq<nat>, i: nat)
    requires i < |s|
  {
    && s[i] < |nodes| && s[Succ(i, |s|)] < |nodes|
    && nodes[s[i]].next == s[Succ(i, |s|)]
    && nodes[s[Succ(i, |s|)]].prev == s[i]
  }

  ghost predicate Ring(nodes: seq<Node>, s: seq<nat>) {
    && NoDup(s)
    && forall i {:trigger LinkAt(nodes, s, i)} :: 0 <= i < |s| ==> LinkAt(nodes, s, i)
  }

  lemma RingKept(nodes: seq<Node>, nodes': seq<Node>, s: seq<nat>)
    requires Ring(nodes, s) && |nodes| == |nodes'|
    requires forall i :: 0 <= i < |s| ==>
             s[i] < |nodes| && nodes'[s[i]].next == nodes[s[i]].next && nodes'[s[i]].prev == nodes[s[i]].prev
    ensures Ring(nodes', s)
  {
    forall i | 0 <= i < |s| ensures LinkAt(nodes', s, i) {
      assert LinkAt(nodes, s, i);
    }
  }

  /** s starting from its k-th element. */
  function Rotated(s: seq<nat>, k: nat): seq<nat>
    requires k <= |s|
  {
    s[k..] + s[..k]
  }

  lemma RotatedElements(s: seq<nat>, k: nat)
    requires k <= |s|
    ensures |Rotated(s, k)| == |s|
    ensures forall x :: x in Rotated(s, k) <==> x in s
    ensures NoDup(s) ==> NoDup(Rotated(s, k))
  {
    assert s == s[..k] + s[k..];
  }

  lemma RingRotated(nodes: seq<Node>, s: seq<nat>, k: nat)
    requires Ring(nodes, s) && k <= |s|
    ensures Ring(nodes, Rotated(s, k))
  {
    var t := Rotated(s, k);
    var n := |s|;
    RotatedElements(s, k);
    forall i | 0 <= i < |t| ensures LinkAt(nodes, t, i) {
      var j := if i + k < n then i + k else i + k - n;
      assert LinkAt(nodes, s, j);
      assert t[i] == s[j];
      assert t[Succ(i, n)] == s[Succ(j, n)];
    }
  }

  function Without(s: seq<nat>, k: nat): seq<nat>
    requires k < |s|
  {
    s[..k] + s[k + 1..]
  }

  /** Linking around the k-th element leaves a ring of the others. */
  lemma RingWithout(nodes: seq<Node>, nodes': seq<Node>, s: seq<nat>, k: nat)
    requires Ring(nodes, s) && k < |s| && |nodes| == |nodes'|
    requires forall i :: 0 <= i < |s| ==> s[i] < |nodes|
    requires forall i :: 0 <= i < |s| && i != k ==>
               && nodes'[s[i]].next == (if nodes[s[i]].next == s[k] then nodes[s[k]].next else nodes[s[i]].next)
               && nodes'[s[i]].prev == (if nodes[s[i]].prev == s[k] then nodes[s[k]].prev else nodes[s[i]].prev)
    ensures Ring(nodes', Without(s, k))
  {
    var t := Without(s, k);
    WithoutElements(s, k);
    var n := |s|;
    forall i | 0 <= i < |t| ensures LinkAt(nodes', t, i) {
      var j := if i < k then i else i + 1;
      var j' := Succ(j, n);
      assert LinkAt(nodes, s, j) && LinkAt(nodes, s, k);
      assert LinkAt(nodes, s, j');
      assert t[i] == s[j];
      if j' == k {
        assert t[Succ(i, |t|)] == s[Succ(k, n)];
      } else {
        assert t[Succ(i, |t|)] == s[j'];
      }
    }
  }

  function Inserted(s: seq<nat>, k: nat, x: nat): seq<nat>
    requires k < |s|
  {
    s[..k + 1] + [x] + s[k + 1..]
  }

  /** Linking x in after the k-th element gives a ring with x there. */
  lemma RingInserted(nodes: seq<Node>, nodes': seq<Node>, s: seq<nat>, k: nat, x: nat)
    requires Ring(nodes, s) && k < |s| && x !in s && x < |nodes| == |nodes'|
    requires forall i :: 0 <= i < |s| ==> s[i] < |nodes|
    requires forall i :: 0 <= i < |s| ==> nodes'[s[i]].next == if i == k then x else nodes[s[i]].next
    requires forall i :: 0 <= i < |s| ==> nodes'[s[i]].prev == if s[i] == nodes[s[k]].next then x else nodes[s[i]].prev
    requires nodes'[x].prev == s[k] && nodes'[x].next == nodes[s[k]].next
    ensures Ring(nodes', Inserted(s, k, x))
  {
    var t := Inserted(s, k, x);
    var n := |s|;
    assert LinkAt(nodes, s, k);
    forall i | 0 <= i < |t| ensures LinkAt(nodes', t, i) {
      if i == k {
      } else if i == k + 1 {
        assert t[Succ(i, n + 1)] == s[Succ(k, n)];
      } else {
        OtherLinkKept(nodes, nodes', s, k, x, i);
      }
    }
  }

  lemma OtherLinkKept(nodes: seq<Node>, nodes': seq<Node>, s: seq<nat>, k: nat, x: nat, i: nat)
    requires Ring(nodes, s) && k < |s| && |nodes| == |nodes'| && i <= |s| && i != k && i != k + 1
    requires forall i :: 0 <= i < |s| ==> s[i] < |nodes|
    requires forall i :: 0 <= i < |s| ==> nodes'[s[i]].next == if i == k then x else nodes[s[i]].next
    requires forall i :: 0 <= i < |s| ==> nodes'[s[i]].prev == if s[i] == nodes[s[k]].next then x else nodes[s[i]].prev
    ensures LinkAt(nodes', Inserted(s, k, x), i)
  {
    var t := Inserted(s, k, x);
    var n := |s|;
    var j := if i < k then i else i - 1;
    assert LinkAt(nodes, s, j) && LinkAt(nodes, s, k);
    assert t[i] == s[j] && t[Succ(i, n + 1)] == s[Succ(j, n)];
    assert s[Succ(j, n)] != s[Succ(k, n)];
  }

  /** Two rings cut open after their first elements and joined crosswise are one ring. */
  lemma RingsJoined(nodes: seq<Node>, nodes': seq<Node>, r: seq<nat>, c: seq<nat>)
    requires Ring(nodes, r) && Ring(nodes, c) && |r| > 0 && |c| > 0 && |nodes| == |nodes'|
    requires forall i :: 0 <= i < |r| ==> r[i] < |nodes| && r[i] !in c
    requires forall i :: 0 <= i < |c| ==> c[i] < |nodes|
    requires forall i :: 0 <= i < |r| ==> nodes'[r[i]].next == if i == 0 then nodes[c[0]].next else nodes[r[i]].next
    requires forall i :: 0 <= i < |c| ==> nodes'[c[i]].next == if i == 0 then nodes[r[0]].next else nodes[c[i]].next
    requires forall i :: 0 <= i < |r| ==>
             nodes'[r[i]].prev == if r[i] == nodes[r[0]].next then c[0] else nodes[r[i]].prev
    requires forall i :: 0 <= i < |c| ==>
             nodes'[c[i]].prev == if c[i] == nodes[c[0]].next then r[0] else nodes[c[i]].prev
    ensures Ring(nodes', [r[0]] + c[1..] + [c[0]] + r[1..])
  {
    var t := [r[0]] + c[1..] + [c[0]] + r[1..];
    JoinedNoDup(r, c);
    forall i | 0 <= i < |t| ensures LinkAt(nodes', t, i) {
      if i < |c| {
        JoinedFirst(nodes, nodes', r, c, i);
        assert t[i] == (if i == 0 then r[0] else c[i]) && t[Succ(i, |t|)] == c[Succ(i, |c|)];
      } else {
        var j := i - |c|;
        JoinedFirst(nodes, nodes', c, r, j);
        assert t[i] == (if j == 0 then c[0] else r[j]) && t[Succ(i, |t|)] == r[Succ(j, |r|)];
      }
    }
  }

  lemma JoinedNoDup(r: seq<nat>, c: seq<nat>)
    requires NoDup(r) && NoDup(c) && |r| > 0 && |c| > 0 && forall i :: 0 <= i < |r| ==> r[i] !in c
    ensures NoDup([r[0]] + c[1..] + [c[0]] + r[1..])
  {
    assert forall i :: 0 <= i < |c| ==> c[i] !in r;
  }

  /** In the joined ring c's elements follow each other as before, but for r[0] in place of c[0]. */
  lemma JoinedFirst(nodes: seq<Node>, nodes': seq<Node>, r: seq<nat>, c: seq<nat>, i: nat)
    requires Ring(nodes, c) && |r| > 0 && i < |c| && |nodes| == |nodes'|
    requires forall k :: 0 <= k < |c| ==> c[k] < |nodes|
    requires r[0] < |nodes| && nodes'[r[0]].next == nodes[c[0]].next
    requires forall k :: 0 < k < |c| ==> nodes'[c[k]].next == nodes[c[k]].next
    requires forall k :: 0 <= k < |c| ==>
             nodes'[c[k]].prev == if c[k] == nodes[c[0]].next then r[0] else nodes[c[k]].prev
    ensures nodes'[if i == 0 then r[0] else c[i]].next == c[Succ(i, |c|)]
    ensures nodes'[c[Succ(i, |c|)]].prev == if i == 0 then r[0] else c[i]
  {
    assert LinkAt(nodes, c, 0) && LinkAt(nodes, c, i);
    assert i != 0 ==> c[Succ(i, |c|)] != c[Succ(0, |c|)];
  }

  // ---------- The forest ----------

  /** What the links mean: the nodes on the heap, the list of roots, the list of children of
      every node from its first child on, the keys by which they are ordered, and a height
      that grows towards the roots. */
  datatype Forest = Forest(members: set<nat>, roots: seq<nat>, kids: seq<seq<nat>>, key: seq<nat>, height: seq<nat>)

  /** p has the children the forest says, linked in a ring. */
  ghost predicate KidsOk(nodes: seq<Node>, f: Forest, p: nat, out: set<nat>, stale: set<nat>)
    requires p < |nodes| == |f.kids|
  {
    var s := f.kids[p];
    && Ring(nodes, s)
    && (forall i :: 0 <= i < |s| ==>
        s[i] < |nodes| && s[i] in f.members && s[i] !in out && s[i] !in stale && nodes[s[i]].parent == p)
    && nodes[p].firstChild == (if |s| == 0 then NONE else s[0])
    && nodes[p].rank == |s|
  }

  /** m is where its parent field says: among the roots, or among the children of a node with
      no greater key. */
  ghost predicate PlaceOk(nodes: seq<Node>, f: Forest, m: nat, stale: set<nat>)
    requires m < |nodes| == |f.kids| == |f.height| == |f.key|
  {
    var p := nodes[m].parent;
    if m in stale || p == NONE then m in f.roots
    else p in f.members && p < |nodes| && m in f.kids[p] && f.height[m] < f.height[p] && f.key[p] <= f.key[m]
  }

  /** A root with no links at all is the only one, and has no children. */
  ghost predicate RootsLinked(nodes: seq<Node>, f: Forest)
    requires |nodes| == |f.kids|
  {
    || Ring(nodes, f.roots)
    || (|f.roots| == 1 && f.roots[0] < |nodes| && nodes[f.roots[0]].next == NONE && nodes[f.roots[0]].prev == NONE
        && f.kids[f.roots[0]] == [])
  }

  ghost predicate RootsOk(nodes: seq<Node>, f: Forest, out: set<nat>, stale: set<nat>)
    requires |nodes| == |f.kids|
  {
    && RootsLinked(nodes, f) && NoDup(f.roots)
    && forall i :: 0 <= i < |f.roots| ==>
         f.roots[i] < |nodes| && f.roots[i] in f.members && f.roots[i] !in out
         && (f.roots[i] !in stale ==> nodes[f.roots[i]].parent == NONE)
  }

  /** The nodes represent the forest.  Nodes in out are in no list for the moment; roots in
      stale came from the children of a deleted root and still name it as their parent. */
  ghost predicate Represents(nodes: seq<Node>, f: Forest, out: set<nat>, stale: set<nat>) {
    && |nodes| == |f.kids| == |f.height| == |f.key| <= NONE
    && out <= f.members && stale <= f.members && out !! stale
    && (forall m :: m in f.members ==> m < |nodes|)
    && RootsOk(nodes, f, out, stale)
    && (forall p {:trigger KidsOk(nodes, f, p, out, stale)} :: p in f.members ==> KidsOk(nodes, f, p, out, stale))
    && (forall m {:trigger PlaceOk(nodes, f, m, stale)} :: m in f.members && m !in out ==> PlaceOk(nodes, f, m, stale))
  }

  lemma IndexOf(s: seq<nat>, x: nat) returns (k: nat)
    requires x in s
    ensures k < |s| && s[k] == x
  {
    k :| 0 <= k < |s| && s[k] == x;
  }

  lemma WithoutElements(s: seq<nat>, k: nat)
    requires k < |s| && NoDup(s)
    ensures NoDup(Without(s, k))
    ensures forall x :: x in Without(s, k) <==> x in s && x != s[k]
  {
    assert s == s[..k] + [s[k]] + s[k + 1..];
  }

  lemma InsertedElements(s: seq<nat>, k: nat, x: nat)
    requires k < |s| && NoDup(s) && x !in s
    ensures NoDup(Inserted(s, k, x))
    ensures forall y :: y in Inserted(s, k, x) <==> y in s || y == x
  {
    assert s == s[..k + 1] + s[k + 1..];
  }

  /** A child list is untouched by changes to the links of nodes of other lists. */
  lemma KidsKept(nodes: seq<Node>, nodes': seq<Node>, f: Forest, f': Forest, p: nat,
                 out: set<nat>, out': set<nat>, stale: set<nat>, stale': set<nat>)
    requires p < |nodes| == |nodes'| == |f.kids| == |f'.kids| && KidsOk(nodes, f, p, out, stale)
    requires f'.kids[p] == f.kids[p] && nodes'[p].firstChild == nodes[p].firstChild && nodes'[p].rank == nodes[p].rank
    requires forall c :: c in f.kids[p] && c < |nodes| ==>
               && nodes'[c].next == nodes[c].next && nodes'[c].prev == nodes[c].prev &&
                   nodes'[c].parent == nodes[c].parent
               && c in f'.members && c !in out' && c !in stale'
    ensures KidsOk(nodes', f', p, out', stale')
  {
    RingKept(nodes, nodes', f.kids[p]);
  }

  // ---------- Taking a node out of its list ----------

  /** The forest once m has been taken out of its list. */
  ghost function TakenOut(f: Forest, p: nat, k: nat): Forest
    requires if p == NONE then k < |f.roots| else p < |f.kids| && k < |f.kids[p]|
  {
    if p == NONE then f.(roots := Without(f.roots, k))
    else f.(kids := f.kids[p := Rotated(Without(f.kids[p], k), k)])
  }

  /** What fheap_node_remove does to the nodes: the neighbours of x are linked with each other,
      x with itself, and its parent, if any, counts and names one child less. */
  ghost predicate Unlinked(nodes: seq<Node>, nodes': seq<Node>, x: nat) {
    && x < |nodes| == |nodes'|
    && (forall y :: 0 <= y < |nodes| && y != x ==>
          && nodes'[y].next == (if y == nodes[x].prev then nodes[x].next else nodes[y].next)
          && nodes'[y].prev == (if y == nodes[x].next then nodes[x].prev else nodes[y].prev)
          && nodes'[y].parent == nodes[y].parent && nodes'[y].key == nodes[y].key && nodes'[y].marked == nodes[y].marked
          && nodes'[y].rank == (if y == nodes[x].parent && nodes[y].rank > 0 then nodes[y].rank - 1 else nodes[y].rank)
          && nodes'[y].firstChild == (if y == nodes[x].parent then (if nodes[x].prev == x then NONE else nodes[x].next)
              else nodes[y].firstChild))
    && nodes'[x].next == x && nodes'[x].prev == x && nodes'[x].parent == NONE
    && nodes'[x].key == nodes[x].key && nodes'[x].marked == nodes[x].marked
    && nodes'[x].rank == nodes[x].rank && nodes'[x].firstChild == nodes[x].firstChild
  }

  /** In a ring, the ones linked to x are its neighbours. */
  lemma RingNeighbours(nodes: seq<Node>, s: seq<nat>, k: nat, i: nat)
    requires Ring(nodes, s) && k < |s| && i < |s|
    ensures s[i] < |nodes| && s[k] < |nodes|
    ensures nodes[s[i]].next == s[k] <==> s[i] == nodes[s[k]].prev
    ensures nodes[s[i]].prev == s[k] <==> s[i] == nodes[s[k]].next
    ensures nodes[s[k]].next in s && nodes[s[k]].prev in s
  {
    var n := |s|;
    var before := if k == 0 then n - 1 else k - 1;
    var before' := if i == 0 then n - 1 else i - 1;
    assert LinkAt(nodes, s, i) && LinkAt(nodes, s, k) && LinkAt(nodes, s, before) && LinkAt(nodes, s, before');
  }

  lemma UnlinkedRing(nodes: seq<Node>, nodes': seq<Node>, s: seq<nat>, k: nat)
    requires Ring(nodes, s) && k < |s| && (forall i :: 0 <= i < |s| ==> s[i] < |nodes|) && Unlinked(nodes, nodes', s[k])
    ensures Ring(nodes', Without(s, k))
  {
    forall i | 0 <= i < |s| && i != k
      ensures nodes'[s[i]].next == (if nodes[s[i]].next == s[k] then nodes[s[k]].next else nodes[s[i]].next)
      ensures nodes'[s[i]].prev == (if nodes[s[i]].prev == s[k] then nodes[s[k]].prev else nodes[s[i]].prev)
    {
      RingNeighbours(nodes, s, k, i);
    }
    RingWithout(nodes, nodes', s, k);
  }

  /** The neighbours of a root are no children of anybody. */
  lemma RootNeighboursAreRoots(nodes: seq<Node>, f: Forest, k: nat, out: set<nat>, stale: set<nat>, p: nat)
    requires Represents(nodes, f, out, stale) && k < |f.roots| && p in f.members
    ensures f.roots[k] !in f.kids[p]
    ensures nodes[f.roots[k]].next !in f.kids[p] && nodes[f.roots[k]].prev !in f.kids[p]
  {
    assert KidsOk(nodes, f, p, out, stale);
    if Ring(nodes, f.roots) {
      RingNeighbours(nodes, f.roots, k, k);
    }
  }

  lemma RootOutRoots(nodes: seq<Node>, nodes': seq<Node>, f: Forest, k: nat, out: set<nat>, stale: set<nat>)
    requires Represents(nodes, f, out, stale) && k < |f.roots| && f.roots[k] !in stale
    requires Unlinked(nodes, nodes', f.roots[k])
    ensures RootsOk(nodes', TakenOut(f, NONE, k), out + {f.roots[k]}, stale)
    ensures Ring(nodes, f.roots) ==> Ring(nodes', Without(f.roots, k))
    ensures forall y :: y in Without(f.roots, k) <==> y in f.roots && y != f.roots[k]
  {
    WithoutElements(f.roots, k);
    if Ring(nodes, f.roots) {
      UnlinkedRing(nodes, nodes', f.roots, k);
    } else {
      assert Without(f.roots, k) == [];
    }
    var r := Without(f.roots, k);
    forall i | 0 <= i < |r|
      ensures r[i] < |nodes| && r[i] in f.members && r[i] !in out && r[i] != f.roots[k]
      ensures r[i] !in stale ==> nodes'[r[i]].parent == NONE
    {
      assert r[i] in f.roots;
    }
  }

  lemma RootOutKids(nodes: seq<Node>, nodes': seq<Node>, f: Forest, k: nat, out: set<nat>, stale: set<nat>, p: nat)
    requires Represents(nodes, f, out, stale) && k < |f.roots| && f.roots[k] !in stale && p in f.members
    requires Unlinked(nodes, nodes', f.roots[k])
    ensures p < |nodes'| && KidsOk(nodes', TakenOut(f, NONE, k), p, out + {f.roots[k]}, stale)
  {
    assert KidsOk(nodes, f, p, out, stale);
    RootNeighboursAreRoots(nodes, f, k, out, stale, p);
    KidsKept(nodes, nodes', f, TakenOut(f, NONE, k), p, out, out + {f.roots[k]}, stale, stale);
  }

  /** Taking a root out. */
  lemma RootTakenOut(nodes: seq<Node>, nodes': seq<Node>, f: Forest, k: nat, out: set<nat>, stale: set<nat>)
    requires Represents(nodes, f, out, stale) && k < |f.roots| && f.roots[k] !in stale
    requires Unlinked(nodes, nodes', f.roots[k])
    ensures Represents(nodes', TakenOut(f, NONE, k), out + {f.roots[k]}, stale)
    ensures Ring(nodes, f.roots) ==> Ring(nodes', Without(f.roots, k))
  {
    var x := f.roots[k];
    var f' := TakenOut(f, NONE, k);
    RootOutRoots(nodes, nodes', f, k, out, stale);
    forall p | p in f.members ensures KidsOk(nodes', f', p, out + {x}, stale) {
      RootOutKids(nodes, nodes', f, k, out, stale, p);
    }
    forall m | m in f.members && m !in out + {x} ensures PlaceOk(nodes', f', m, stale) {
      assert PlaceOk(nodes, f, m, stale);
    }
  }

  // A child

  lemma ChildOutOwnList(nodes: seq<Node>, nodes': seq<Node>, f: Forest, p: nat, k: nat, out: set<nat>, stale: set<nat>)
    requires p < |nodes| == |f.kids| <= NONE && KidsOk(nodes, f, p, out, stale) && k < |f.kids[p]|
    requires p != f.kids[p][k] && Unlinked(nodes, nodes', f.kids[p][k])
    ensures KidsOk(nodes', TakenOut(f, p, k), p, out + {f.kids[p][k]}, stale)
    ensures forall y :: y in TakenOut(f, p, k).kids[p] <==> y in f.kids[p] && y != f.kids[p][k]
  {
    var s := f.kids[p];
    var x := s[k];
    var t := Rotated(Without(s, k), k);
    WithoutElements(s, k);
    RotatedElements(Without(s, k), k);
    UnlinkedRing(nodes, nodes', s, k);
    RingRotated(nodes', Without(s, k), k);
    FirstAfter(nodes, s, k);
    forall i | 0 <= i < |t|
      ensures t[i] < |nodes'| && t[i] in f.members && t[i] !in out + {x} && t[i] !in stale && nodes'[t[i]].parent == p
    {
      assert t[i] in Without(s, k);
    }
  }

  lemma FirstAfter(nodes: seq<Node>, s: seq<nat>, k: nat)
    requires Ring(nodes, s) && k < |s|
    ensures LinkAt(nodes, s, k) && LinkAt(nodes, s, if k == 0 then |s| - 1 else k - 1)
    ensures var t := Rotated(Without(s, k), k); |t| > 0 ==> t[0] == s[Succ(k, |s|)]
  {
  }

  lemma ChildOutOtherList(nodes: seq<Node>, nodes': seq<Node>, f: Forest, p: nat, k: nat, out: set<nat>,
                          stale: set<nat>, p': nat)
    requires Represents(nodes, f, out, stale) && p in f.members && k < |f.kids[p]| && p' in f.members && p' != p
    requires Unlinked(nodes, nodes', f.kids[p][k])
    ensures p' < |nodes'| && KidsOk(nodes', TakenOut(f, p, k), p', out + {f.kids[p][k]}, stale)
  {
    assert KidsOk(nodes, f, p, out, stale) && KidsOk(nodes, f, p', out, stale);
    RingNeighbours(nodes, f.kids[p], k, k);
    KidsKept(nodes, nodes', f, TakenOut(f, p, k), p', out, out + {f.kids[p][k]}, stale, stale);
  }

  lemma ChildOutRoots(nodes: seq<Node>, nodes': seq<Node>, f: Forest, p: nat, k: nat, out: set<nat>, stale: set<nat>)
    requires Represents(nodes, f, out, stale) && p in f.members && k < |f.kids[p]|
    requires Unlinked(nodes, nodes', f.kids[p][k])
    ensures RootsOk(nodes', TakenOut(f, p, k), out + {f.kids[p][k]}, stale)
  {
    var x := f.kids[p][k];
    assert KidsOk(nodes, f, p, out, stale);
    RingNeighbours(nodes, f.kids[p], k, k);
    forall i | 0 <= i < |f.roots|
      ensures f.roots[i] !in f.kids[p]
      ensures nodes'[f.roots[i]].next == nodes[f.roots[i]].next && nodes'[f.roots[i]].prev == nodes[f.roots[i]].prev
    {
      assert f.roots[i] in f.members;
    }
    if Ring(nodes, f.roots) {
      RingKept(nodes, nodes', f.roots);
    }
  }

  /** Taking a child out. */
  lemma ChildTakenOut(nodes: seq<Node>, nodes': seq<Node>, f: Forest, p: nat, k: nat, out: set<nat>, stale: set<nat>)
    requires Represents(nodes, f, out, stale) && p in f.members && k < |f.kids[p]|
    requires Unlinked(nodes, nodes', f.kids[p][k])
    ensures Represents(nodes', TakenOut(f, p, k), out + {f.kids[p][k]}, stale)
  {
    var x := f.kids[p][k];
    var f' := TakenOut(f, p, k);
    assert KidsOk(nodes, f, p, out, stale);
    assert PlaceOk(nodes, f, x, stale);
    ChildOutRoots(nodes, nodes', f, p, k, out, stale);
    ChildOutOwnList(nodes, nodes', f, p, k, out, stale);
    forall p' | p' in f.members ensures KidsOk(nodes', f', p', out + {x}, stale) {
      if p' != p {
        ChildOutOtherList(nodes, nodes', f, p, k, out, stale, p');
      }
    }
    forall m | m in f.members && m !in out + {x} ensures PlaceOk(nodes', f', m, stale) {
      assert PlaceOk(nodes, f, m, stale);
    }
  }

  // ---------- Putting a node into a list ----------

  /** The forest once x follows the k-th element of the roots, or of the children of p. */
  ghost function PutIn(f: Forest, p: nat, k: nat, x: nat): Forest
    requires if p == NONE then k < |f.roots| else p < |f.kids| && k < |f.kids[p]|
  {
    if p == NONE then f.(roots := Inserted(f.roots, k, x))
    else f.(kids := f.kids[p := Inserted(f.kids[p], k, x)])
  }

  /** What fheap_node_add_sibling does to the nodes: x follows n and shares its parent. */
  ghost predicate Linked(nodes: seq<Node>, nodes': seq<Node>, n: nat, x: nat) {
    && n < |nodes| == |nodes'| && x < |nodes| && n != x
    && (forall y :: 0 <= y < |nodes| && y != x ==>
          && nodes'[y].next == (if y == n then x else nodes[y].next)
          && nodes'[y].prev == (if y == (if nodes[n].next == NONE then n else nodes[n].next) then x else nodes[y].prev)
          && nodes'[y].parent == nodes[y].parent && nodes'[y].key == nodes[y].key && nodes'[y].marked == nodes[y].marked
          && nodes'[y].rank == (if y == nodes[n].parent then nodes[y].rank + 1 else nodes[y].rank)
          && nodes'[y].firstChild == nodes[y].firstChild)
    && nodes'[x].prev == n && nodes'[x].next == (if nodes[n].next == NONE then n else nodes[n].next)
    && nodes'[x].parent == nodes[n].parent && nodes'[x].key == nodes[x].key && nodes'[x].marked == nodes[x].marked
    && nodes'[x].rank == nodes[x].rank && nodes'[x].firstChild == nodes[x].firstChild
  }

  lemma LinkedRing(nodes: seq<Node>, nodes': seq<Node>, s: seq<nat>, k: nat, x: nat)
    requires Ring(nodes, s) && k < |s| && x !in s && (forall i :: 0 <= i < |s| ==> s[i] < |nodes|) && |nodes| <= NONE
    requires Linked(nodes, nodes', s[k], x)
    ensures Ring(nodes', Inserted(s, k, x))
  {
    assert LinkAt(nodes, s, k);
    assert NoDup(s);
    RingInserted(nodes, nodes', s, k, x);
  }

  lemma RootInRoots(nodes: seq<Node>, nodes': seq<Node>, f: Forest, k: nat, x: nat, out: set<nat>, stale: set<nat>)
    requires Represents(nodes, f, out, stale) && k < |f.roots| && f.roots[k] !in stale && x in out
    requires Linked(nodes, nodes', f.roots[k], x)
    ensures RootsOk(nodes', PutIn(f, NONE, k, x), out - {x}, stale)
    ensures forall y :: y in Inserted(f.roots, k, x) <==> y in f.roots || y == x
  {
    InsertedElements(f.roots, k, x);
    var r := Inserted(f.roots, k, x);
    if Ring(nodes, f.roots) {
      LinkedRing(nodes, nodes', f.roots, k, x);
    } else {
      assert r == [f.roots[0], x];
      assert LinkAt(nodes', r, 0) && LinkAt(nodes', r, 1);
    }
    forall i | 0 <= i < |r|
      ensures r[i] < |nodes'| && r[i] in f.members && r[i] !in out - {x}
      ensures r[i] !in stale ==> nodes'[r[i]].parent == NONE
    {
      assert r[i] in r;
    }
  }

  lemma RootInKids(nodes: seq<Node>, nodes': seq<Node>, f: Forest, k: nat, x: nat, out: set<nat>, stale: set<nat>,
                   p: nat)
    requires Represents(nodes, f, out, stale) && k < |f.roots| && f.roots[k] !in stale && x in out && p in f.members
    requires Linked(nodes, nodes', f.roots[k], x)
    ensures p < |nodes'| && KidsOk(nodes', PutIn(f, NONE, k, x), p, out - {x}, stale)
  {
    assert KidsOk(nodes, f, p, out, stale);
    RootNeighboursAreRoots(nodes, f, k, out, stale, p);
    KidsKept(nodes, nodes', f, PutIn(f, NONE, k, x), p, out, out - {x}, stale, stale);
  }

  /** Making a node that is in no list a root. */
  lemma RootPutIn(nodes: seq<Node>, nodes': seq<Node>, f: Forest, k: nat, x: nat, out: set<nat>, stale: set<nat>)
    requires Represents(nodes, f, out, stale) && k < |f.roots| && f.roots[k] !in stale && x in out
    requires Linked(nodes, nodes', f.roots[k], x)
    ensures Represents(nodes', PutIn(f, NONE, k, x), out - {x}, stale)
  {
    var f' := PutIn(f, NONE, k, x);
    RootInRoots(nodes, nodes', f, k, x, out, stale);
    forall p | p in f.members ensures KidsOk(nodes', f', p, out - {x}, stale) {
      RootInKids(nodes, nodes', f, k, x, out, stale, p);
    }
    forall m | m in f.members && m !in out - {x} ensures PlaceOk(nodes', f', m, stale) {
      assert m != x ==> PlaceOk(nodes, f, m, stale);
    }
  }

  // A child

  lemma ChildInOwnList(nodes: seq<Node>, nodes': seq<Node>, f: Forest, p: nat, k: nat, x: nat, out: set<nat>,
                       stale: set<nat>)
    requires Represents(nodes, f, out, stale) && p in f.members && k < |f.kids[p]| && x in out && p != x
    requires Linked(nodes, nodes', f.kids[p][k], x)
    ensures KidsOk(nodes', PutIn(f, p, k, x), p, out - {x}, stale)
    ensures forall y :: y in PutIn(f, p, k, x).kids[p] <==> y in f.kids[p] || y == x
  {
    assert KidsOk(nodes, f, p, out, stale);
    var s := f.kids[p];
    var t := Inserted(s, k, x);
    InsertedElements(s, k, x);
    LinkedRing(nodes, nodes', s, k, x);
    forall i | 0 <= i < |t|
      ensures t[i] < |nodes'| && t[i] in f.members && t[i] !in out - {x} && t[i] !in stale && nodes'[t[i]].parent == p
    {
      assert t[i] in t;
    }
  }

  lemma ChildInOtherList(nodes: seq<Node>, nodes': seq<Node>, f: Forest, p: nat, k: nat, x: nat, out: set<nat>,
                         stale: set<nat>, p': nat)
    requires Represents(nodes, f, out, stale) && p in f.members && k < |f.kids[p]| && x in out && p' in f.members &&
             p' != p
    requires Linked(nodes, nodes', f.kids[p][k], x)
    ensures p' < |nodes'| && KidsOk(nodes', PutIn(f, p, k, x), p', out - {x}, stale)
  {
    assert KidsOk(nodes, f, p, out, stale) && KidsOk(nodes, f, p', out, stale);
    RingNeighbours(nodes, f.kids[p], k, k);
    KidsKept(nodes, nodes', f, PutIn(f, p, k, x), p', out, out - {x}, stale, stale);
  }

  lemma ChildInRoots(nodes: seq<Node>, nodes': seq<Node>, f: Forest, p: nat, k: nat, x: nat, out: set<nat>,
                     stale: set<nat>)
    requires Represents(nodes, f, out, stale) && p in f.members && k < |f.kids[p]| && x in out && p != NONE
    requires Linked(nodes, nodes', f.kids[p][k], x)
    ensures RootsOk(nodes', PutIn(f, p, k, x), out - {x}, stale)
  {
    assert KidsOk(nodes, f, p, out, stale);
    RingNeighbours(nodes, f.kids[p], k, k);
    forall i | 0 <= i < |f.roots|
      ensures f.roots[i] !in f.kids[p] && f.roots[i] != x
      ensures nodes'[f.roots[i]].next == nodes[f.roots[i]].next && nodes'[f.roots[i]].prev == nodes[f.roots[i]].prev
    {
      assert f.roots[i] in f.members;
    }
    if Ring(nodes, f.roots) {
      RingKept(nodes, nodes', f.roots);
    }
  }

  /** Making a node that is in no list one more child of p. */
  lemma ChildPutIn(nodes: seq<Node>, nodes': seq<Node>, f: Forest, p: nat, k: nat, x: nat, out: set<nat>,
                   stale: set<nat>)
    requires Represents(nodes, f, out, stale) && p in f.members && k < |f.kids[p]| && x in out && p != x
    requires Linked(nodes, nodes', f.kids[p][k], x)
    requires f.height[x] < f.height[p] && f.key[p] <= f.key[x]
    ensures Represents(nodes', PutIn(f, p, k, x), out - {x}, stale)
  {
    var f' := PutIn(f, p, k, x);
    assert KidsOk(nodes, f, p, out, stale);
    ChildInRoots(nodes, nodes', f, p, k, x, out, stale);
    ChildInOwnList(nodes, nodes', f, p, k, x, out, stale);
    forall p' | p' in f.members ensures KidsOk(nodes', f', p', out - {x}, stale) {
      if p' != p {
        ChildInOtherList(nodes, nodes', f, p, k, x, out, stale, p');
      }
    }
    forall m | m in f.members && m !in out - {x} ensures PlaceOk(nodes', f', m, stale) {
      assert m != x ==> PlaceOk(nodes, f, m, stale);
    }
  }

  /** Making a node that is in no list, and linked only with itself, the first child of p. */
  lemma FirstChildPutIn(nodes: seq<Node>, f: Forest, p: nat, x: nat, out: set<nat>, stale: set<nat>)
    requires Represents(nodes, f, out, stale) && p in f.members && f.kids[p] == [] && x in out && p != x
    requires nodes[x].next == x && nodes[x].prev == x
    requires f.height[x] < f.height[p] && f.key[p] <= f.key[x]
    requires Ring(nodes, f.roots)
    ensures var nodes' := nodes[x := nodes[x].(parent := p)]
                               [p := nodes[p].(firstChild := x, rank := 1)];
            Represents(nodes', f.(kids := f.kids[p := [x]]), out - {x}, stale)
  {
    var nodes' := nodes[x := nodes[x].(parent := p)][p := nodes[p].(firstChild := x, rank := 1)];
    var f' := f.(kids := f.kids[p := [x]]);
    RootsStay(nodes, nodes', f, f', p, x, out, stale);
    OnlyKid(nodes, nodes', f, f', p, x, out, stale);
    OtherKids(nodes, nodes', f, f', p, x, out, stale);
    AllPlaces(nodes, nodes', f, f', p, x, out, stale);
  }

  lemma AllPlaces(nodes: seq<Node>, nodes': seq<Node>, f: Forest, f': Forest, p: nat, x: nat, out: set<nat>,
                  stale: set<nat>)
    requires Represents(nodes, f, out, stale) && p in f.members && x in out && p != x && x < |nodes| && p < |nodes|
    requires nodes' == nodes[x := nodes[x].(parent := p)][p := nodes[p].(firstChild := x, rank := 1)]
    requires f' == f.(kids := f.kids[p := [x]]) && f.kids[p] == []
    requires f.height[x] < f.height[p] && f.key[p] <= f.key[x]
    ensures forall m :: m in f.members && m !in out - {x} ==> PlaceOk(nodes', f', m, stale)
  {
    forall m | m in f.members && m !in out - {x} ensures PlaceOk(nodes', f', m, stale) {
      assert m != x ==> PlaceOk(nodes, f, m, stale);
    }
  }

  lemma RootsStay(nodes: seq<Node>, nodes': seq<Node>, f: Forest, f': Forest, p: nat, x: nat, out: set<nat>,
                  stale: set<nat>)
    requires Represents(nodes, f, out, stale) && p in f.members && x in out && p != x && x < |nodes| && p < |nodes|
    requires nodes' == nodes[x := nodes[x].(parent := p)][p := nodes[p].(firstChild := x, rank := 1)]
    requires f' == f.(kids := f.kids[p := [x]]) && Ring(nodes, f.roots)
    ensures RootsOk(nodes', f', out - {x}, stale)
  {
    forall i | 0 <= i < |f.roots| ensures f.roots[i] != x {
      assert f.roots[i] !in out;
    }
    RingKept(nodes, nodes', f.roots);
  }

  lemma OnlyKid(nodes: seq<Node>, nodes': seq<Node>, f: Forest, f': Forest, p: nat, x: nat, out: set<nat>,
                stale: set<nat>)
    requires Represents(nodes, f, out, stale) && p in f.members && x in out && p != x && x < |nodes| && p < |nodes|
    requires nodes[x].next == x && nodes[x].prev == x
    requires nodes' == nodes[x := nodes[x].(parent := p)][p := nodes[p].(firstChild := x, rank := 1)]
    requires f' == f.(kids := f.kids[p := [x]])
    ensures KidsOk(nodes', f', p, out - {x}, stale)
  {
    assert LinkAt(nodes', [x], 0);
  }

  lemma OtherKids(nodes: seq<Node>, nodes': seq<Node>, f: Forest, f': Forest, p: nat, x: nat, out: set<nat>,
                  stale: set<nat>)
    requires Represents(nodes, f, out, stale) && p in f.members && x in out && p != x && x < |nodes| && p < |nodes|
    requires nodes' == nodes[x := nodes[x].(parent := p)][p := nodes[p].(firstChild := x, rank := 1)]
    requires f' == f.(kids := f.kids[p := [x]]) && f.kids[p] == []
    ensures forall p' :: p' in f.members && p' != p ==> KidsOk(nodes', f', p', out - {x}, stale)
  {
    forall p' | p' in f.members && p' != p ensures KidsOk(nodes', f', p', out - {x}, stale) {
      assert KidsOk(nodes, f, p', out, stale);
      KidsKept(nodes, nodes', f, f', p', out, out - {x}, stale, stale);
    }
  }

  /** A node without a parent may be given a greater height. */
  lemma Raise(nodes: seq<Node>, f: Forest, p: nat, h: nat, out: set<nat>, stale: set<nat>)
    requires Represents(nodes, f, out, stale) && p in f.members && f.height[p] <= h
    requires nodes[p].parent == NONE
    ensures Represents(nodes, f.(height := f.height[p := h]), out, stale)
  {
    var f' := f.(height := f.height[p := h]);
    forall q | q in f.members ensures KidsOk(nodes, f', q, out, stale) {
      assert KidsOk(nodes, f, q, out, stale);
    }
    forall m | m in f.members && m !in out ensures PlaceOk(nodes, f', m, stale) {
      assert PlaceOk(nodes, f, m, stale);
    }
  }

  /** The root list may be read from any of its elements on. */
  lemma RootsRotated(nodes: seq<Node>, f: Forest, k: nat, out: set<nat>, stale: set<nat>)
    requires Represents(nodes, f, out, stale) && k <= |f.roots|
    ensures Represents(nodes, f.(roots := Rotated(f.roots, k)), out, stale)
  {
    var f' := f.(roots := Rotated(f.roots, k));
    RotatedElements(f.roots, k);
    if Ring(nodes, f.roots) {
      RingRotated(nodes, f.roots, k);
    } else {
      assert f'.roots == f.roots;
    }
    forall i | 0 <= i < |f'.roots| ensures f'.roots[i] in f.roots {
      assert f'.roots[i] in f'.roots;
    }
    forall q | q in f.members ensures KidsOk(nodes, f', q, out, stale) {
      assert KidsOk(nodes, f, q, out, stale);
    }
    forall m | m in f.members && m !in out ensures PlaceOk(nodes, f', m, stale) {
      assert PlaceOk(nodes, f, m, stale);
    }
  }

  // ---------- Changes outside the lists ----------

  /** The key of a node in no list, or of a root, may be lowered. */
  lemma LowerKey(nodes: seq<Node>, f: Forest, x: nat, key: nat, out: set<nat>, stale: set<nat>)
    requires Represents(nodes, f, out, stale) && x in f.members && key <= f.key[x]
    requires x in out || nodes[x].parent == NONE
    ensures Represents(nodes, f.(key := f.key[x := key]), out, stale)
  {
    var f' := f.(key := f.key[x := key]);
    forall q | q in f.members ensures KidsOk(nodes, f', q, out, stale) {
      assert KidsOk(nodes, f, q, out, stale);
    }
    forall m | m in f.members && m !in out ensures PlaceOk(nodes, f', m, stale) {
      assert PlaceOk(nodes, f, m, stale);
    }
  }

  /** The forest does not depend on keys stored in the nodes, marks or valid bits. */
  lemma SameLinksSameForest(nodes: seq<Node>, nodes': seq<Node>, f: Forest, out: set<nat>, stale: set<nat>)
    requires Represents(nodes, f, out, stale) && |nodes'| == |nodes|
    requires forall y :: 0 <= y < |nodes| ==>
               nodes'[y] == nodes[y].(key := nodes'[y].key, marked := nodes'[y].marked, valid := nodes'[y].valid)
    ensures Represents(nodes', f, out, stale)
    ensures Ring(nodes, f.roots) ==> Ring(nodes', f.roots)
  {
    if Ring(nodes, f.roots) {
      RingKept(nodes, nodes', f.roots);
    }
    forall q | q in f.members ensures KidsOk(nodes', f, q, out, stale) {
      assert KidsOk(nodes, f, q, out, stale);
      KidsKept(nodes, nodes', f, f, q, out, out, stale, stale);
    }
    forall m | m in f.members && m !in out ensures PlaceOk(nodes', f, m, stale) {
      assert PlaceOk(nodes, f, m, stale);
    }
  }

  /** A childless node in no list may be forgotten. */
  lemma Forget(nodes: seq<Node>, f: Forest, x: nat, out: set<nat>, stale: set<nat>)
    requires Represents(nodes, f, out, stale) && x in out && f.kids[x] == []
    ensures Represents(nodes, f.(members := f.members - {x}), out - {x}, stale)
  {
    var f' := f.(members := f.members - {x});
    forall q | q in f'.members ensures KidsOk(nodes, f', q, out - {x}, stale) {
      assert KidsOk(nodes, f, q, out, stale);
      KidsKept(nodes, nodes, f, f', q, out, out - {x}, stale, stale);
    }
    forall m | m in f'.members && m !in out - {x} ensures PlaceOk(nodes, f', m, stale) {
      assert PlaceOk(nodes, f, m, stale);
    }
  }

  /** A freshly initialised node joins the members, in no list yet. */
  lemma Admit(nodes: seq<Node>, nodes': seq<Node>, f: Forest, x: nat, key: nat, stale: set<nat>)
    requires Represents(nodes, f, {}, stale) && x < |nodes| && x !in f.members
    requires |nodes'| == |nodes| && nodes' == nodes[x := nodes'[x]] && nodes'[x].firstChild == NONE &&
             nodes'[x].rank == 0
    ensures Represents(nodes', Admitted(f, x, key), {x}, stale)
  {
    var f' := Admitted(f, x, key);
    if Ring(nodes, f.roots) {
      RingKept(nodes, nodes', f.roots);
    }
    forall q | q in f'.members ensures KidsOk(nodes', f', q, {x}, stale) {
      if q != x {
        assert KidsOk(nodes, f, q, {}, stale);
        KidsKept(nodes, nodes', f, f', q, {}, {x}, stale, stale);
      }
    }
    forall m | m in f'.members && m !in {x} ensures PlaceOk(nodes', f', m, stale) {
      assert PlaceOk(nodes, f, m, stale);
    }
  }

  ghost function Admitted(f: Forest, x: nat, key: nat): Forest
    requires x < |f.kids| == |f.key| == |f.height|
  {
    Forest(f.members + {x}, f.roots, f.kids[x := []], f.key[x := key], f.height[x := 0])
  }

  // ---------- The minimum ----------

  function MaxOf(s: seq<nat>): (h: nat)
    ensures forall i :: 0 <= i < |s| ==> s[i] <= h
  {
    if s == [] then 0
    else
      var h := MaxOf(s[1..]);
      if s[0] > h then s[0] else h
  }

  /** Above every node there is a root with no greater key. */
  lemma {:induction false} RootAbove(nodes: seq<Node>, f: Forest, m: nat) returns (r: nat)
    requires Represents(nodes, f, {}, {}) && m in f.members
    ensures r in f.roots && f.key[r] <= f.key[m]
    decreases MaxOf(f.height) - f.height[m]
  {
    assert PlaceOk(nodes, f, m, {});
    if nodes[m].parent == NONE {
      r := m;
    } else {
      r := RootAbove(nodes, f, nodes[m].parent);
    }
  }

  // ---------- Operations ----------

  ghost function Nodes(s: seq<nat>): set<nat> {
    set y | y in s
  }

  /** There are keys, and all are the largest u32. */
  ghost predicate AllTop(keys: map<nat, nat>) {
    keys != map[] && forall m :: m in keys ==> keys[m] == NONE
  }

  class Fheap {
    var nodes: seq<Node>
    var rootListByRank: seq<nat>
    var minRoot: nat
    ghost var f: Forest

    /** Between operations: the links make up a forest, min_root has a least key among the
        roots, and the table of roots by rank is empty. */
    ghost predicate Valid()
      reads this
    {
      && Represents(nodes, f, {}, {}) && KeysAgree({})
      && (forall i :: 0 <= i < |rootListByRank| ==> rootListByRank[i] == NONE)
      && MinRootOk()
    }

    ghost predicate KeysAgree(except: set<nat>)
      reads this`nodes, this`f
    {
      forall m :: m in f.members && m !in except ==> m < |nodes| && m < |f.key| && nodes[m].key == f.key[m] <= NONE
    }

    ghost predicate MinRootOk()
      reads this`minRoot, this`f
    {
      if f.roots == [] then minRoot == NONE
      else minRoot == f.roots[0] < |f.key| && forall i :: 0 <= i < |f.roots| ==>
          f.roots[i] < |f.key| && f.key[minRoot] <= f.key[f.roots[i]]
    }

    /** What fheap_del_min leaves if all the keys left are ~0: it takes that for no key, and finds
        no root. */
    ghost predicate RootLost()
      reads this`minRoot, this`f
    {
      minRoot == NONE && f.roots != [] && forall r :: r in f.roots ==> r < |f.key| && f.key[r] == NONE
    }

    /** The finite map the heap stands for. */
    ghost function Keys(): map<nat, nat>
      requires forall m :: m in f.members ==> m < |nodes|
      reads this`nodes, this`f
    {
      map m | m in f.members :: nodes[m].key
    }

    constructor (n: nat)
      requires n <= NONE
      ensures Valid() && Keys() == map[] && |nodes| == n
    {
      var zero := Node(0, 0, 0, 0, 0, 0, false, false);
      nodes := seq(n, _ => zero);
      rootListByRank := [];
      minRoot := NONE;
      f := Forest({}, [], seq(n, _ => []), seq(n, _ => 0), seq(n, _ => 0));
    }

    lemma LeastKey()
      requires Represents(nodes, f, {}, {}) && MinRootOk()
      ensures f.roots == [] <==> f.members == {}
      ensures forall m :: m in f.members ==> f.key[minRoot] <= f.key[m]
    {
      forall m | m in f.members ensures f.roots != [] && f.key[minRoot] <= f.key[m] {
        var r := RootAbove(nodes, f, m);
      }
      assert f.roots != [] ==> f.roots[0] in f.members;
    }

    /** fheap_find_min is right: no key is smaller than that of min_root. */
    lemma FindMin()
      requires Valid()
      ensures minRoot == NONE <==> Keys() == map[]
      ensures minRoot != NONE ==> minRoot in Keys() && forall m :: m in Keys() ==> Keys()[minRoot] <= Keys()[m]
    {
      LeastKey();
      if f.roots == [] {
        assert Keys() == map[];
      } else {
        assert minRoot in Keys();
      }
    }

    method NodeAddSibling(n: nat, x: nat)
      requires n < |nodes| <= NONE && x < |nodes| && n != x
      requires nodes[n].next == NONE || (nodes[n].next < |nodes| && nodes[n].next != x)
      requires nodes[n].next == NONE ==> nodes[n].prev == NONE
      requires nodes[n].parent == NONE || (nodes[n].parent < |nodes| && nodes[n].parent != x)
      modifies this`nodes
      ensures Linked(old(nodes), nodes, n, x)
    {
      var next := nodes[n].next;
      if next == NONE {
        nodes := nodes[n := nodes[n].(next := x, prev := x)];
        nodes := nodes[x := nodes[x].(next := n, prev := n)];
      } else {
        nodes := nodes[x := nodes[x].(prev := n)];
        nodes := nodes[x := nodes[x].(next := nodes[n].next)];
        nodes := nodes[n := nodes[n].(next := x)];
        nodes := nodes[next := nodes[next].(prev := x)];
      }
      nodes := nodes[x := nodes[x].(parent := nodes[n].parent)];
      var p := nodes[n].parent;
      if p != NONE {
        nodes := nodes[p := nodes[p].(rank := nodes[p].rank + 1)];
      }
    }

    /** The parent, if there is one, loses a child, and its first child is now child. */
    method LeaveParent(p: nat, child: nat)
      requires p == NONE || (p < |nodes| && nodes[p].rank > 0)
      modifies this`nodes
      ensures nodes == if p == NONE then old(nodes) else
                old(nodes)[p := old(nodes)[p].(rank := old(nodes)[p].rank - 1, firstChild := child)]
    {
      if p != NONE {
        nodes := nodes[p := nodes[p].(rank := nodes[p].rank - 1)];
        nodes := nodes[p := nodes[p].(firstChild := child)];
      }
    }

    method NodeRemove(x: nat, invalidate: bool) returns (r: nat)
      requires x < |nodes| <= NONE
      requires nodes[x].prev == NONE || nodes[x].prev < |nodes|
      requires nodes[x].next == NONE || nodes[x].next < |nodes|
      requires nodes[x].prev == x <==> nodes[x].next == x
      requires nodes[x].parent == NONE ||
               (nodes[x].parent < |nodes| && nodes[x].parent != x && nodes[nodes[x].parent].rank > 0)
      modifies this`nodes
      ensures Unlinked(old(nodes), nodes, x)
      ensures r == if old(nodes[x].prev) == x then NONE else old(nodes[x].next)
      ensures nodes[x].valid == !invalidate
    {
      var prev, next := nodes[x].prev, nodes[x].next;
      var single := prev == x;
      LeaveParent(nodes[x].parent, if single then NONE else next);
      if prev != NONE {
        nodes := nodes[prev := nodes[prev].(next := next)];
      }
      if next != NONE {
        nodes := nodes[next := nodes[next].(prev := prev)];
      }
      nodes := nodes[x := nodes[x].(prev := x, next := x)];
      nodes := nodes[x := nodes[x].(parent := NONE)];
      nodes := nodes[x := nodes[x].(valid := !invalidate)];
      return if single then NONE else next;
    }

    /** Make x, which is in no list, a root next to the current minimum. */
    method AddRoot(x: nat, ghost out: set<nat>)
      requires Represents(nodes, f, out, {}) && x in out && f.roots != [] && minRoot == f.roots[0]
      modifies this`nodes, this`f
      ensures Represents(nodes, f, out - {x}, {}) && f == old(PutIn(f, NONE, 0, x))
      ensures |nodes| == |old(nodes)| && forall y :: 0 <= y < |nodes| ==> nodes[y].key == old(nodes)[y].key
      ensures forall y :: 0 <= y < |nodes| && y != x ==> nodes[y].parent == old(nodes)[y].parent
      ensures nodes[x].parent == NONE
      ensures forall y :: y in f.roots <==> y in old(f.roots) || y == x
    {
      RootLinks(nodes, f, 0, out, {});
      InsertedElements(f.roots, 0, x);
      NodeAddSibling(minRoot, x);
      RootPutIn(old(nodes), nodes, f, 0, x, out, {});
      f := PutIn(f, NONE, 0, x);
    }

    /** x, whose key may have changed, becomes min_root if its key is smaller. */
    method NewMin(x: nat)
      requires Represents(nodes, f, {}, {}) && KeysAgree({})
      requires f.roots != [] && minRoot == f.roots[0] && x in f.roots
      requires forall r :: r in f.roots && r != x ==> r < |f.key| && f.key[minRoot] <= f.key[r]
      modifies this`minRoot, this`f
      ensures Represents(nodes, f, {}, {}) && f == old(f).(roots := f.roots) && MinRootOk()
    {
      if nodes[x].key < nodes[minRoot].key {
        minRoot := x;
        ghost var j := IndexOf(f.roots, x);
        RotatedElements(f.roots, j);
        RootsRotated(nodes, f, j, {}, {});
        f := f.(roots := Rotated(f.roots, j));
        forall i | 0 <= i < |f.roots| ensures f.roots[i] in old(f.roots) {
          assert f.roots[i] in f.roots;
        }
      }
    }

    /** fheap_add: the map gains ni with this key. */
    method Add(ni: nat, key: nat)
      requires Valid() && ni < |nodes| && ni !in Keys() && key <= NONE
      modifies this
      ensures Valid() && Keys() == old(Keys())[ni := key] && |nodes| == |old(nodes)|
    {
      ghost var keys := Keys();
      nodes := nodes[ni := Node(NONE, NONE, NONE, NONE, key, 0, false, false)];
      Admit(old(nodes), nodes, f, ni, key, {});
      f := Admitted(f, ni, key);
      assert KeysAgree({});
      if minRoot == NONE {
        minRoot := ni;
        OnlyRoot(nodes, f, ni);
        f := f.(roots := [ni]);
      } else {
        AddAsRoot(ni);
      }
      KeysAre(keys[ni := key]);
    }

    /** The second half of fheap_add, and of fheap_decrease_key: x becomes a root, and
        min_root if its key is smaller. */
    method AddAsRoot(x: nat)
      requires Represents(nodes, f, {x}, {}) && KeysAgree({}) && MinRootOk() && f.roots != []
      modifies this`nodes, this`minRoot, this`f
      ensures Represents(nodes, f, {}, {}) && KeysAgree({}) && MinRootOk()
      ensures f.members == old(f.members) && f.key == old(f.key)
      ensures |nodes| == |old(nodes)|
    {
      AddRoot(x, {x});
      assert f.roots == [minRoot, x] + old(f.roots)[1..];
      assert x == f.roots[1] && {x} - {x} == {};
      forall r | r in f.roots && r != x ensures r < |f.key| && f.key[minRoot] <= f.key[r] {
        var i := IndexOf(old(f.roots), r);
      }
      NewMin(x);
    }

    // ---------- Moving a node to the root list ----------

    /** The k-th child of p, or the k-th root but the first. */
    ghost predicate IsAt(x: nat, p: nat, k: nat)
      reads this`f
    {
      if p == NONE then 0 < k < |f.roots| && x == f.roots[k]
      else p in f.members && p < |f.kids| && k < |f.kids[p]| && x == f.kids[p][k]
    }

    /** fheap_node_remove on such a node. */
    method TakeOut(x: nat, invalidate: bool, ghost p: nat, ghost k: nat)
      requires Represents(nodes, f, {}, {}) && IsAt(x, p, k)
      modifies this`nodes, this`f
      ensures f == old(TakenOut(f, p, k)) && Represents(nodes, f, {x}, {})
      ensures Unlinked(old(nodes), nodes, x)
    {
      if p == NONE {
        RootLinks(nodes, f, k, {}, {});
      } else {
        ChildLinks(nodes, f, p, k, {}, {});
      }
      var _ := NodeRemove(x, invalidate);
      if p == NONE {
        RootTakenOut(old(nodes), nodes, f, k, {}, {});
      } else {
        ChildTakenOut(old(nodes), nodes, f, p, k, {}, {});
      }
      f := TakenOut(f, p, k);
      assert {} + {x} == {x};
    }

    /** fheap_node_remove and fheap_node_add_sibling in a row: x becomes a root, right after
        min_root. */
    method Cut(x: nat, ghost p: nat, ghost k: nat)
      requires Represents(nodes, f, {}, {}) && f.roots != [] && minRoot == f.roots[0] && IsAt(x, p, k)
      modifies this`nodes, this`f
      ensures f == old(PutIn(TakenOut(f, p, k), NONE, 0, x)) && Represents(nodes, f, {}, {})
      ensures x < |nodes| == |old(nodes)| && nodes[x].parent == NONE
      ensures forall y :: 0 <= y < |nodes| ==>
              nodes[y].key == old(nodes)[y].key && (y != x ==> nodes[y].parent == old(nodes)[y].parent)
      ensures forall y :: y in f.roots <==> y in old(f.roots) || y == x
    {
      TakeOut(x, false, p, k);
      if p == NONE {
        WithoutElements(old(f.roots), k);
      }
      AddRoot(x, {x});
      assert {x} - {x} == {};
    }

    // ---------- Lowering a key ----------

    /** fheap_mark_parent.  The last test of the source reads the parent of pi after pi has
        joined the root list, so it never finds one: a cut does not cascade. */
    method MarkParent(pi: nat)
      requires Represents(nodes, f, {}, {}) && pi in f.members && f.roots != [] && minRoot == f.roots[0]
      modifies this`nodes, this`f
      ensures Represents(nodes, f, {}, {}) && f.roots != [] && minRoot == f.roots[0]
      ensures f.members == old(f.members) && f.key == old(f.key) && f.height == old(f.height) && |nodes| == |old(nodes)|
      ensures forall y :: 0 <= y < |nodes| ==>
              nodes[y].key == old(nodes)[y].key && (y != pi ==> nodes[y].parent == old(nodes)[y].parent)
      ensures forall q :: 0 <= q < |f.kids| && q != old(nodes)[pi].parent ==> f.kids[q] == old(f.kids)[q]
      ensures forall y :: y in old(f.roots) || (y == pi && old(nodes)[pi].parent != NONE && old(nodes)[pi].marked) <==>
              y in f.roots
      ensures nodes[pi].marked == (old(nodes)[pi].parent != NONE && !old(nodes)[pi].marked) ||
              (old(nodes)[pi].parent == NONE && nodes == old(nodes))
    {
      if nodes[pi].parent == NONE {
        return;
      }
      if !nodes[pi].marked {
        nodes := nodes[pi := nodes[pi].(marked := true)];
        SameLinksSameForest(old(nodes), nodes, f, {}, {});
        return;
      }
      assert PlaceOk(nodes, f, pi, {});
      ghost var p := nodes[pi].parent;
      ghost var k := IndexOf(f.kids[p], pi);
      assert KidsOk(nodes, f, p, {}, {});
      Cut(pi, p, k);
      assert f.roots == [minRoot, pi] + old(f.roots)[1..];
      ghost var cut := nodes;
      nodes := nodes[pi := nodes[pi].(marked := false)];
      SameLinksSameForest(cut, nodes, f, {}, {});
    }

    /** fheap_decrease_key: only the key of ni changes. */
    method DecreaseKey(ni: nat, newKey: nat)
      requires Valid() && ni in Keys() && newKey <= Keys()[ni]
      modifies this
      ensures Valid() && Keys() == old(Keys())[ni := newKey] && |nodes| == |old(nodes)|
    {
      ghost var keys := Keys();
      LeastKey();
      SetKey(ni, newKey);
      if nodes[ni].parent != NONE {
        LowerChild(ni, newKey);
      } else {
        LowerRoot(ni, newKey);
      }
      assert f.members == old(f.members) && f.key == old(f.key)[ni := newKey];
      KeysAre(keys[ni := newKey]);
    }

    /** Store the key; the forest still goes by the old one. */
    method SetKey(ni: nat, newKey: nat)
      requires Represents(nodes, f, {}, {}) && KeysAgree({}) && ni in f.members
      modifies this`nodes
      ensures Represents(nodes, f, {}, {}) && KeysAgree({ni}) && |nodes| == |old(nodes)|
      ensures ni < |nodes| && nodes[ni].key == newKey && (nodes[ni].parent == NONE ==> ni in f.roots)
    {
      nodes := nodes[ni := nodes[ni].(key := newKey)];
      SameLinksSameForest(old(nodes), nodes, f, {}, {});
      assert PlaceOk(nodes, f, ni, {});
    }

    /** The part of fheap_decrease_key for a root. */
    method LowerRoot(ni: nat, newKey: nat)
      requires Represents(nodes, f, {}, {}) && KeysAgree({ni}) && MinRootOk() && f.roots != []
      requires ni in f.roots && nodes[ni].parent == NONE && nodes[ni].key == newKey <= f.key[ni] <= NONE
      modifies this`minRoot, this`f
      ensures Represents(nodes, f, {}, {}) && KeysAgree({}) && MinRootOk()
      ensures f.members == old(f.members) && f.key == old(f.key)[ni := newKey]
    {
      LowerKey(nodes, f, ni, newKey, {}, {});
      f := f.(key := f.key[ni := newKey]);
      NewMin(ni);
    }

    lemma KeysAre(m: map<nat, nat>)
      requires (forall x :: x in f.members ==> x < |nodes| && x < |f.key|) && KeysAgree({})
      requires m.Keys == f.members && forall x :: x in f.members ==> m[x] == f.key[x]
      ensures Keys() == m
    {
    }

    /** The part of fheap_decrease_key for a node with a parent. */
    method LowerChild(ni: nat, newKey: nat)
      requires Represents(nodes, f, {}, {}) && KeysAgree({ni}) && MinRootOk() && f.roots != []
      requires ni in f.members && nodes[ni].parent != NONE && nodes[ni].key == newKey <= f.key[ni] <= NONE
      modifies this`nodes, this`minRoot, this`f
      ensures Represents(nodes, f, {}, {}) && KeysAgree({}) && MinRootOk()
      ensures f.members == old(f.members) && f.key == old(f.key)[ni := newKey]
      ensures |nodes| == |old(nodes)|
    {
      LeastKey();
      var p := nodes[ni].parent;
      assert PlaceOk(nodes, f, ni, {});
      MarkParent(p);
      forall i | 0 <= i < |f.roots| ensures f.roots[i] in f.members {
      }
      assert MinRootOk();
      DetachAndLower(ni, newKey, p);
    }

    /** The rest of fheap_decrease_key for a node with a parent. */
    method DetachAndLower(ni: nat, newKey: nat, ghost p: nat)
      requires Represents(nodes, f, {}, {}) && KeysAgree({ni}) && MinRootOk() && f.roots != []
      requires ni in f.members && nodes[ni].parent == p != NONE && nodes[ni].key == newKey <= f.key[ni] <= NONE
      modifies this`nodes, this`minRoot, this`f
      ensures Represents(nodes, f, {}, {}) && KeysAgree({}) && MinRootOk()
      ensures f.members == old(f.members) && f.key == old(f.key)[ni := newKey]
      ensures |nodes| == |old(nodes)|
    {
      assert PlaceOk(nodes, f, ni, {});
      ghost var k := IndexOf(f.kids[p], ni);
      TakeOut(ni, false, p, k);
      LowerKey(nodes, f, ni, newKey, {ni}, {});
      f := f.(key := f.key[ni := newKey]);
      assert KeysAgree({});
      forall i | 0 <= i < |f.roots| ensures f.roots[i] != ni {
      }
      AddAsRoot(ni);
    }

    // ---------- Deleting the minimum ----------

    /** Splice the children of root r into the root list. */
    method Splice(r: nat, c: nat)
      requires r < |nodes| && c < |nodes| && nodes[r].next < |nodes| && nodes[c].next < |nodes|
      requires nodes[r].next != nodes[c].next && r != c
      modifies this`nodes
      ensures Spliced(old(nodes), nodes, r, c)
    {
      var cn, rn := nodes[c].next, nodes[r].next;
      nodes := nodes[r := nodes[r].(next := cn)];
      nodes := nodes[c := nodes[c].(next := rn)];
      nodes := nodes[cn := nodes[cn].(prev := r)];
      nodes := nodes[rn := nodes[rn].(prev := c)];
    }

    /** Replace min_root in the root list by its children; ri is the first of the new list. */
    method DeleteRoot() returns (ri: nat)
      requires Represents(nodes, f, {}, {}) && f.roots != [] && minRoot == f.roots[0]
      modifies this`nodes, this`f
      ensures f == old(RootDeleted(f)) && Represents(nodes, f, {}, old(Orphans(f))) && Ring(nodes, f.roots)
      ensures ri == if f.roots == [] then NONE else f.roots[0]
      ensures |nodes| == |old(nodes)| && forall y :: 0 <= y < |nodes| ==> nodes[y].key == old(nodes)[y].key
    {
      RootFirstChild(nodes, f);
      ghost var nodes0 := nodes;
      if nodes[minRoot].firstChild != NONE {
        Splice(minRoot, nodes[minRoot].firstChild);
      }
      ghost var nodes1 := nodes;
      RemovableRoot(nodes0, nodes1, f);
      ri := NodeRemove(minRoot, true);
      if f.kids[minRoot] == [] {
        BareRootUnlinked(nodes0, nodes, f);
      } else {
        SplicedRootUnlinked(nodes0, nodes1, nodes, f);
        SplicedRootLinks(nodes0, nodes1, nodes, f);
      }
      RootGone(nodes0, nodes, f);
      f := RootDeleted(f);
    }

    /** Make the k-th root a child of another root with no greater key: the body of the loop in
        fheap_link_root. */
    method LinkUnder(hi: nat, lo: nat, ghost k: nat, ghost stale: set<nat>)
      requires Represents(nodes, f, {}, stale) && Ring(nodes, f.roots) && k < |f.roots| && hi == f.roots[k]
      requires lo in f.roots && lo != hi && hi !in stale && lo !in stale && f.key[lo] <= f.key[hi]
      modifies this`nodes, this`f
      ensures Represents(nodes, f, {}, stale) && Ring(nodes, f.roots)
      ensures f.members == old(f.members) && f.key == old(f.key) && f.roots == Without(old(f.roots), k)
      ensures |nodes| == |old(nodes)|
      ensures nodes[lo].rank == old(nodes)[lo].rank + 1
      ensures forall y :: 0 <= y < |nodes| ==>
              nodes[y].key == old(nodes)[y].key && (y != lo ==> nodes[y].rank == old(nodes)[y].rank)
      ensures forall y :: 0 <= y < |nodes| && y != hi ==> nodes[y].parent == old(nodes)[y].parent
    {
      ghost var nodes0 := nodes;
      RootLinks(nodes, f, k, {}, stale);
      WithoutElements(f.roots, k);
      var _ := NodeRemove(hi, false);
      RootTakenOut(nodes0, nodes, f, k, {}, stale);
      f := TakenOut(f, NONE, k);
      assert {} + {hi} == {hi};
      ghost var h := if f.height[lo] > f.height[hi] then f.height[lo] else f.height[hi] + 1;
      Raise(nodes, f, lo, h, {hi}, stale);
      f := f.(height := f.height[lo := h]);
      AdoptRoot(hi, lo, stale);
      ghost var nodes1 := nodes;
      nodes := nodes[hi := nodes[hi].(marked := false)];
      SameLinksSameForest(nodes1, nodes, f, {}, stale);
    }

    /** Add hi, which is in no list, to the children of root lo. */
    method AdoptRoot(hi: nat, lo: nat, ghost stale: set<nat>)
      requires Represents(nodes, f, {hi}, stale) && Ring(nodes, f.roots)
      requires hi != lo && lo in f.roots && lo !in stale && nodes[hi].next == hi && nodes[hi].prev == hi
      requires f.height[hi] < f.height[lo] && f.key[lo] <= f.key[hi]
      modifies this`nodes, this`f
      ensures Represents(nodes, f, {}, stale) && Ring(nodes, f.roots)
      ensures f == old(f).(kids := f.kids) && |nodes| == |old(nodes)|
      ensures nodes[lo].rank == old(nodes)[lo].rank + 1
      ensures forall y :: 0 <= y < |nodes| ==>
              nodes[y].key == old(nodes)[y].key && (y != lo ==> nodes[y].rank == old(nodes)[y].rank)
      ensures forall y :: 0 <= y < |nodes| && y != hi ==> nodes[y].parent == old(nodes)[y].parent
    {
      assert KidsOk(nodes, f, lo, {hi}, stale);
      assert {hi} - {hi} == {};
      if nodes[lo].firstChild == NONE {
        FirstChildPutIn(nodes, f, lo, hi, {hi}, stale);
        nodes := nodes[hi := nodes[hi].(parent := lo)];
        nodes := nodes[lo := nodes[lo].(firstChild := hi, rank := 1)];
        f := f.(kids := f.kids[lo := [hi]]);
      } else {
        ChildLinks(nodes, f, lo, 0, {hi}, stale);
        assert forall i :: 0 <= i < |f.kids[lo]| ==> f.kids[lo][i] != hi;
        NodeAddSibling(nodes[lo].firstChild, hi);
        ChildPutIn(old(nodes), nodes, f, lo, 0, hi, {hi}, stale);
        f := PutIn(f, lo, 0, hi);
      }
      assert f.kids[lo] != [];
    }

    /** No key field has changed. */
    ghost predicate SameKeys(was: seq<Node>)
      reads this`nodes
    {
      |nodes| == |was| && forall y {:trigger nodes[y]} :: 0 <= y < |was| ==> nodes[y].key == was[y].key
    }

    /** root_list_by_rank holds exactly the nodes of q, each under its rank. */
    ghost predicate TableOk(q: set<nat>)
      reads this`nodes, this`rootListByRank
    {
      && (forall y :: y in q ==> y < |nodes| && nodes[y].rank < |rootListByRank| && rootListByRank[nodes[y].rank] == y)
      && (forall k :: 0 <= k < |rootListByRank| && rootListByRank[k] != NONE ==>
            rootListByRank[k] in q && nodes[rootListByRank[k]].rank == k)
    }

    /** Midway through fheap_del_min: the roots done so far, all of different rank, and then
        those still to come. */
    ghost predicate Linking(done: seq<nat>, todo: seq<nat>, stale: set<nat>)
      reads this`nodes, this`f
    {
      && Represents(nodes, f, {}, stale) && Ring(nodes, f.roots) && KeysAgree({})
      && f.roots == done + todo && (forall x :: x in stale ==> x in todo)
    }

    /** fheap_link_root: ni joins the roots done; as long as another root has the same rank the
        one with the larger key becomes a child of the other. */
    method LinkRoot(ni: nat, ghost done0: seq<nat>, ghost todo: seq<nat>, ghost stale: set<nat>)
      returns (ghost done: seq<nat>)
      requires Linking(done0 + [ni], todo, stale) && TableOk(Nodes(done0))
      modifies this`nodes, this`rootListByRank, this`f
      ensures Linking(done, todo, stale) && TableOk(Nodes(done)) && done != []
      ensures f.members == old(f.members) && f.key == old(f.key) && SameKeys(old(nodes))
    {
      done := done0 + [ni];
      var cur := ni;
      AllButLast(f.roots, done0, ni, todo);
      while true
        invariant Linking(done, todo, stale) && cur in done && TableOk(Nodes(done) - {cur})
        invariant f.members == old(f.members) && f.key == old(f.key) && SameKeys(old(nodes))
        decreases |done|
      {
        ghost var q := Nodes(done);
        assert cur in f.roots && cur in q;
        var ri := FileUnderRank(cur, q);
        if ri == NONE {
          return;
        }
        var lo, hi := ri, cur;
        if nodes[hi].key < nodes[lo].key {
          lo, hi := hi, lo;
        }
        assert {lo, hi} == {cur, ri};
        done := Merge(lo, hi, done, todo, stale);
        cur := lo;
      }
    }

    /** Look up the rank of cur in the table: file cur there, or take out the root found. */
    method FileUnderRank(cur: nat, ghost q: set<nat>) returns (ri: nat)
      requires cur in q && cur < |nodes| <= NONE && TableOk(q - {cur})
      modifies this`rootListByRank
      ensures ri == NONE ==> TableOk(q)
      ensures ri != NONE ==>
              ri in q && ri != cur && ri < |nodes| && nodes[ri].rank == nodes[cur].rank && TableOk(q - {cur, ri})
    {
      var k := nodes[cur].rank;
      if k >= |rootListByRank| {
        rootListByRank := rootListByRank + seq(k + 1 - |rootListByRank|, _ => NONE);
      }
      ri := rootListByRank[k];
      rootListByRank := rootListByRank[k := if ri == NONE then cur else NONE];
    }

    /** One round of fheap_link_root on two roots of equal rank. */
    method Merge(lo: nat, hi: nat, ghost done0: seq<nat>, ghost todo: seq<nat>, ghost stale: set<nat>)
      returns (ghost done: seq<nat>)
      requires Linking(done0, todo, stale) && lo in done0 && hi in done0 && lo != hi
      requires lo < |nodes| && hi < |nodes| && nodes[lo].key <= nodes[hi].key
      requires TableOk(Nodes(done0) - {lo, hi})
      modifies this`nodes, this`f
      ensures Linking(done, todo, stale) && |done| < |done0|
      ensures forall y :: y in done <==> y in done0 && y != hi
      ensures TableOk(Nodes(done) - {lo})
      ensures f.members == old(f.members) && f.key == old(f.key) && SameKeys(old(nodes))
    {
      ghost var k := IndexOf(done0, hi);
      assert f.roots[k] == hi && lo in f.roots;
      DistinctParts(f.roots, done0, todo);
      done := Without(done0, k);
      WithoutElements(done0, k);
      WithoutFirst(done0, todo, k);
      LinkUnder(hi, lo, k, stale);
      assert f.roots == done + todo;
      SetWithout(done0, done, lo, hi);
    }

    /** The same, and the table is right for the roots done. */
    ghost predicate Walked(done: seq<nat>, todo: seq<nat>, stale: set<nat>)
      reads this`nodes, this`rootListByRank, this`f
    {
      forall k {:trigger Open(k)} :: Open(k) ==> Linking(done, todo, stale) && TableOk(Nodes(done))
    }

    /** Walk the root list from ri on, linking roots of equal rank. */
    method LinkAll(ri0: nat, ghost stale0: set<nat>)
      requires Linking([], f.roots, stale0) && f.roots != [] && ri0 == f.roots[0] && TableOk({})
      modifies this`nodes, this`rootListByRank, this`f
      ensures Linking(f.roots, [], {}) && TableOk(Nodes(f.roots)) && f.roots != []
      ensures f.members == old(f.members) && f.key == old(f.key) && SameKeys(old(nodes))
    {
      var ri := ri0;
      RingEnds(nodes, f.roots);
      var last := nodes[ri].prev;
      ghost var done: seq<nat>, todo, stale := [], f.roots, stale0;
      assert Nodes(done) == {};
      while true
        invariant Walked(done, todo, stale)
        invariant todo != [] && ri == todo[0] && last == todo[|todo| - 1]
        invariant f.members == old(f.members) && f.key == old(f.key) && SameKeys(old(nodes))
        decreases |todo|
      {
        var next;
        next, done, todo, stale := LinkNext(ri, done, todo, stale);
        if ri == last {
          AllDone(done, stale);
          return;
        }
        ri := next;
      }
    }

    /** One round of the walk: look ahead, and link the root ri. */
    method LinkNext(ri: nat, ghost done0: seq<nat>, ghost todo0: seq<nat>, ghost stale0: set<nat>)
      returns (next: nat, ghost done: seq<nat>, ghost todo: seq<nat>, ghost stale: set<nat>)
      requires Walked(done0, todo0, stale0) && todo0 != [] && ri == todo0[0]
      modifies this`nodes, this`rootListByRank, this`f
      ensures Walked(done, todo, stale) && done != [] && todo == todo0[1..]
      ensures ri == todo0[|todo0| - 1] <==> todo == []
      ensures todo != [] ==> next == todo[0] && todo[|todo| - 1] == todo0[|todo0| - 1]
      ensures f.members == old(f.members) && f.key == old(f.key) && SameKeys(old(nodes))
    {
      assert Open(0);
      next := StartRoot(ri, done0, todo0, stale0);
      todo, stale := todo0[1..], stale0 - {ri};
      done := LinkRoot(ri, done0, todo, stale);
    }

    lemma AllDone(done: seq<nat>, stale: set<nat>)
      requires Walked(done, [], stale)
      ensures f.roots == done && stale == {} && Linking(f.roots, [], {}) && TableOk(Nodes(f.roots))
    {
      assert Open(0);
      assert done + [] == done;
      assert f.roots + [] == f.roots;
    }

    /** Forget the stale parent of the next root and look ahead before its links change. */
    method StartRoot(ri: nat, ghost done: seq<nat>, ghost todo: seq<nat>, ghost stale: set<nat>) returns (next: nat)
      requires Linking(done, todo, stale) && TableOk(Nodes(done)) && todo != [] && ri == todo[0]
      modifies this`nodes
      ensures Linking(done + [ri], todo[1..], stale - {ri}) && TableOk(Nodes(done))
      ensures |todo| > 1 ==> next == todo[1]
      ensures ri == todo[|todo| - 1] <==> |todo| == 1
      ensures SameKeys(old(nodes))
    {
      assert f.roots[|done|] == ri;
      assert LinkAt(nodes, f.roots, |done|);
      DistinctParts(f.roots, done, todo);
      nodes := nodes[ri := nodes[ri].(parent := NONE)];
      next := nodes[ri].next;
      ParentForgotten(old(nodes), nodes, f, ri, stale);
      assert done + [ri] + todo[1..] == f.roots;
    }

    /** All the roots are in the table, each under its rank. */
    lemma Tabled()
      requires Linking(f.roots, [], {}) && TableOk(Nodes(f.roots))
      ensures forall r :: r in f.roots ==>
                && r < |nodes| && r in f.members && nodes[r].key == f.key[r] <= NONE
                && nodes[r].rank < |rootListByRank| && rootListByRank[nodes[r].rank] == r
      ensures forall k :: 0 <= k < |rootListByRank| && rootListByRank[k] != NONE ==>
                rootListByRank[k] in f.roots && nodes[rootListByRank[k]].rank == k
    {
      forall r | r in f.roots ensures r < |nodes| && r in f.members && nodes[r].key == f.key[r] <= NONE {
        var i := IndexOf(f.roots, r);
      }
    }

    /** Take the least root out of the table, if a key is less than ~0, and empty the table. */
    method ScanTable()
      requires Linking(f.roots, [], {}) && TableOk(Nodes(f.roots)) && f.roots != []
      modifies this`rootListByRank, this`minRoot, this`f
      ensures Represents(nodes, f, {}, {}) && KeysAgree({}) && f.roots != []
      ensures RootLost() || (MinRootOk() && f.key[minRoot] < NONE)
      ensures forall i :: 0 <= i < |rootListByRank| ==> rootListByRank[i] == NONE
      ensures f == old(f).(roots := f.roots)
      ensures forall x, y :: x in f.roots && y in f.roots && x != y ==>
              x < |nodes| && y < |nodes| && nodes[x].rank != nodes[y].rank
    {
      EmptyTable();
      if minRoot != NONE {
        StartAt(minRoot);
      }
    }

    method EmptyTable()
      requires Linking(f.roots, [], {}) && TableOk(Nodes(f.roots)) && f.roots != []
      modifies this`rootListByRank, this`minRoot
      ensures forall i :: 0 <= i < |rootListByRank| ==> rootListByRank[i] == NONE
      ensures forall x, y :: x in f.roots && y in f.roots && x != y ==>
              x < |nodes| && y < |nodes| && nodes[x].rank != nodes[y].rank
      ensures forall r :: r in f.roots ==> r < |f.key|
      ensures minRoot == NONE ==> forall r :: r in f.roots ==> f.key[r] == NONE
      ensures minRoot != NONE ==>
              minRoot in f.roots && f.key[minRoot] < NONE && forall r :: r in f.roots ==> f.key[minRoot] <= f.key[r]
    {
      Tabled();
      ghost var table := rootListByRank;
      minRoot := NONE;
      var minDs := NONE;
      var i := 0;
      while i < |rootListByRank|
        invariant 0 <= i <= |rootListByRank| == |table|
        invariant forall j :: 0 <= j < i ==> rootListByRank[j] == NONE
        invariant forall j :: i <= j < |table| ==> rootListByRank[j] == table[j]
        invariant if minRoot == NONE then minDs == NONE
                  else minRoot in f.roots && minRoot < |nodes| && minDs == nodes[minRoot].key < NONE
        invariant forall r :: r in f.roots ==> r < |nodes| && (nodes[r].rank < i ==> minDs <= nodes[r].key)
      {
        var ni := rootListByRank[i];
        if ni != NONE {
          rootListByRank := rootListByRank[i := NONE];
          if nodes[ni].key < minDs {
            minRoot := ni;
            minDs := nodes[ni].key;
          }
        }
        i := i + 1;
      }
    }

    /** The root list is read from its least root on. */
    ghost method StartAt(m: nat)
      requires Linking(f.roots, [], {}) && m in f.roots && m == minRoot
      requires forall r :: r in f.roots ==> m < |f.key| && r < |f.key| && f.key[m] <= f.key[r]
      modifies this`f
      ensures Represents(nodes, f, {}, {}) && MinRootOk() && f.roots != []
      ensures f == old(f).(roots := f.roots) && forall r :: r in f.roots <==> r in old(f.roots)
    {
      var k := IndexOf(f.roots, m);
      RotatedElements(f.roots, k);
      RootsRotated(nodes, f, k, {}, {});
      f := f.(roots := Rotated(f.roots, k));
      forall j | 0 <= j < |f.roots| ensures f.roots[j] in old(f.roots) {
        assert f.roots[j] in f.roots;
      }
    }

    /** fheap_del_min: remove and return a node of least key, with that key.  Afterwards no two
        roots have the same rank.  The heap is in order unless nodes are left and all their keys
        are ~0: then they are lost, since no root is known. */
    method DelMin() returns (r: nat, minKey: nat)
      requires Valid()
      modifies this
      ensures |nodes| == |old(nodes)| && r == old(minRoot) && (r == NONE <==> old(Keys()) == map[])
      ensures r == NONE ==> Valid() && Keys() == old(Keys())
      ensures r != NONE ==>
                && (forall m :: m in f.members ==> m < |nodes|)
                && r in old(Keys()) && minKey == old(Keys())[r] && Keys() == old(Keys()) - {r}
                && (forall m :: m in old(Keys()) ==> minKey <= old(Keys())[m])
                && (forall x, y :: x in f.roots && y in f.roots && x != y ==>
                    x < |nodes| && y < |nodes| && nodes[x].rank != nodes[y].rank)
      ensures Valid() <==> !AllTop(old(Keys()) - {r})
      ensures !Valid() ==> RootLost()
    {
      FindMin();
      if minRoot == NONE {
        assert old(Keys()) - {NONE} == map[];
        return NONE, 0;
      }
      r := minRoot;
      DelMinRoot();
      minKey := nodes[r].key;
    }

    /** fheap_del_min on a heap that is not empty. */
    method DelMinRoot()
      requires Valid() && minRoot != NONE
      modifies this
      ensures forall m :: m in f.members ==> m < |nodes|
      ensures |nodes| == |old(nodes)| && Keys() == old(Keys()) - {old(minRoot)}
      ensures old(minRoot) < |nodes| && nodes[old(minRoot)].key == old(nodes)[old(minRoot)].key
      ensures if AllTop(Keys()) then RootLost() && !Valid() else Valid()
      ensures forall x, y :: x in f.roots && y in f.roots && x != y ==>
              x < |nodes| && y < |nodes| && nodes[x].rank != nodes[y].rank
    {
      ghost var keys := Keys();
      var ri := DeleteRoot();
      minRoot := NONE;
      Relink(ri, old(Orphans(f)));
      KeysAre(keys - {old(minRoot)});
      WhenLost();
    }

    /** A root is lost if and only if all keys are ~0 and there are some. */
    lemma WhenLost()
      requires Represents(nodes, f, {}, {}) && KeysAgree({})
      requires RootLost() || (MinRootOk() && (f.roots != [] ==> f.key[minRoot] < NONE))
      ensures AllTop(Keys()) <==> RootLost()
      ensures RootLost() ==> !MinRootOk()
    {
      if f.roots != [] {
        assert f.roots[0] in Keys() && Keys()[f.roots[0]] == f.key[f.roots[0]];
      }
      forall m | m in f.members ensures f.roots != [] && (RootLost() ==> Keys()[m] == NONE) {
        var r := RootAbove(nodes, f, m);
      }
    }

    /** The rest of fheap_del_min: link the roots from ri on. */
    method Relink(ri: nat, ghost stale: set<nat>)
      requires Represents(nodes, f, {}, stale) && Ring(nodes, f.roots) && KeysAgree({}) &&
               stale <= Nodes(f.roots)
      requires forall i :: 0 <= i < |rootListByRank| ==> rootListByRank[i] == NONE
      requires minRoot == NONE && ri == if f.roots == [] then NONE else f.roots[0]
      modifies this
      ensures Represents(nodes, f, {}, {}) && KeysAgree({}) && SameKeys(old(nodes))
      ensures RootLost() || (MinRootOk() && (f.roots != [] ==> f.key[minRoot] < NONE))
      ensures forall i :: 0 <= i < |rootListByRank| ==> rootListByRank[i] == NONE
      ensures f.members == old(f.members) && f.key == old(f.key)
      ensures forall x, y :: x in f.roots && y in f.roots && x != y ==>
              x < |nodes| && y < |nodes| && nodes[x].rank != nodes[y].rank
    {
      if ri != NONE {
        assert f.roots == [] + f.roots;
        LinkAll(ri, stale);
        ScanTable();
      } else {
        assert f.roots == [] && stale == {};
      }
    }

    // ---------- Deleting any node ----------

    /** fheap_del.  For a root the source asserts that it is min_root, which held tells, and deletes
        the minimum: so ni is what is deleted if and only if it has a parent or is min_root. */
    method Del(ni: nat) returns (held: bool)
      requires Valid() && ni in Keys()
      modifies this
      ensures (forall m :: m in f.members ==> m < |nodes|) && |nodes| == |old(nodes)|
      ensures held <==> old(nodes)[ni].parent != NONE || ni == old(minRoot)
      ensures held <==> Keys() == old(Keys()) - {ni}
      ensures !held ==> Keys() == old(Keys()) - {old(minRoot)}
      ensures Valid() <==> old(nodes)[ni].parent != NONE || !AllTop(Keys())
    {
      FindMin();
      if nodes[ni].parent == NONE {
        held := ni == minRoot;
        ghost var keys := Keys();
        var _, _ := DelMin();
      } else {
        held := true;
        DelChild(ni);
      }
    }

    /** The part of fheap_del for a node with a parent. */
    method DelChild(ni: nat)
      requires Valid() && ni in f.members && nodes[ni].parent != NONE
      modifies this
      ensures Valid() && Keys() == old(Keys()) - {ni} && |nodes| == |old(nodes)|
    {
      ghost var keys := Keys();
      LeastKey();
      assert PlaceOk(nodes, f, ni, {});
      MarkParent(nodes[ni].parent);
      assert Walking(ni);
      var _ := KidsToRoots(ni);
      Discard(ni);
      KeysAre(keys - {ni});
    }

    /** During fheap_del: min_root has a least key, and ni has a parent. */
    ghost predicate Walking(ni: nat)
      reads this`nodes, this`f, this`minRoot
    {
      && Represents(nodes, f, {}, {}) && KeysAgree({})
      && f.roots != [] && minRoot == f.roots[0] &&
          (forall m :: m in f.members ==> m < |f.key| && f.key[minRoot] <= f.key[m])
      && ni in f.members && nodes[ni].parent != NONE
    }

    /** Take ni, which has no children left, off the heap. */
    method Discard(ni: nat)
      requires Walking(ni) && f.kids[ni] == []
      modifies this`nodes, this`f
      ensures Represents(nodes, f, {}, {}) && KeysAgree({}) && MinRootOk()
      ensures f.members == old(f.members) - {ni} && f.key == old(f.key) && |nodes| == |old(nodes)|
    {
      ghost var p := nodes[ni].parent;
      assert PlaceOk(nodes, f, ni, {});
      ghost var k := IndexOf(f.kids[p], ni);
      TakeOut(ni, true, p, k);
      Forget(nodes, f, ni, {ni}, {});
      assert {ni} - {ni} == {};
      f := f.(members := f.members - {ni});
    }

    /** The loop of fheap_del over the children of ni.  It takes nodes off the ring it walks, and
        stops only when it is led back to the first child: it visits the children in order, and
        then, now among the roots, from the last back to the second. */
    method KidsToRoots(ni: nat) returns (ghost rounds: nat)
      requires Walking(ni)
      modifies this`nodes, this`f
      ensures Walking(ni) && f.kids[ni] == [] && SameKeys(old(nodes))
      ensures f.members == old(f.members) && f.key == old(f.key)
      ensures rounds == if old(f.kids[ni]) == [] then 0 else 2 * |old(f.kids[ni])| - 1
      ensures rounds > 0 ==> f.roots == RootsSoFar(old(f.roots), old(f.kids[ni]), rounds)
    {
      var first := nodes[ni].firstChild;
      assert KidsOk(nodes, f, ni, {}, {});
      if first == NONE {
        return 0;
      }
      rounds := WalkKids(ni, first, f.roots, f.kids[ni]);
    }

    method WalkKids(ni: nat, first: nat, ghost r: seq<nat>, ghost c: seq<nat>) returns (ghost rounds: nat)
      requires Walking(ni) && f.kids[ni] == c && c != [] && first == c[0] && NoDup(c) && f.roots == r && r != []
      modifies this`nodes, this`f
      ensures Walking(ni) && f.kids[ni] == [] && SameKeys(old(nodes))
      ensures f.members == old(f.members) && f.key == old(f.key)
      ensures rounds == 2 * |c| - 1 && f.roots == RootsSoFar(r, c, rounds)
    {
      rounds := 0;
      assert RootsSoFar(r, c, 0) == r;
      var cur := first;
      while true
        invariant rounds < 2 * |c| - 1 && cur == Visited(c, rounds)
        invariant Walking(ni) && SameKeys(old(nodes))
        invariant f.kids[ni] == KidsLeft(c, rounds) && f.roots == RootsSoFar(r, c, rounds)
        invariant f.members == old(f.members) && f.key == old(f.key)
        decreases 2 * |c| - 1 - rounds
      {
        var next := MoveToRoots(cur, ni, r, c, rounds);
        rounds := rounds + 1;
        if next == first {
          break;
        }
        cur := next;
      }
    }

    /** One round of that loop. */
    method MoveToRoots(cur: nat, ni: nat, ghost r: seq<nat>, ghost c: seq<nat>, ghost rounds: nat) returns (next: nat)
      requires Walking(ni) && r != [] && rounds < 2 * |c| - 1 && cur == Visited(c, rounds) && NoDup(c)
      requires f.kids[ni] == KidsLeft(c, rounds) && f.roots == RootsSoFar(r, c, rounds)
      modifies this`nodes, this`f
      ensures Walking(ni) && SameKeys(old(nodes))
      ensures f.members == old(f.members) && f.key == old(f.key)
      ensures f.kids[ni] == KidsLeft(c, rounds + 1) && f.roots == RootsSoFar(r, c, rounds + 1)
      ensures next == c[0] <==> rounds + 1 == 2 * |c| - 1
      ensures next != c[0] ==> next == Visited(c, rounds + 1)
    {
      NextVisited(ni, r, c, rounds);
      next := nodes[cur].next;
      ghost var p, k := if rounds < |c| then ni else NONE, if rounds < |c| then 0 else rounds - |c| + 1;
      Moved(cur, ni, r, c, rounds, p, k);
      Cut(cur, p, k);
    }

    /** What a round does to the lists. */
    lemma Moved(cur: nat, ni: nat, r: seq<nat>, c: seq<nat>, rounds: nat, p: nat, k: nat)
      requires Walking(ni) && ni < |f.kids| && ni < NONE && r != [] && rounds < 2 * |c| - 1 && cur == Visited(c, rounds)
      requires f.kids[ni] == KidsLeft(c, rounds) && f.roots == RootsSoFar(r, c, rounds)
      requires p == (if rounds < |c| then ni else NONE) && k == if rounds < |c| then 0 else rounds - |c| + 1
      ensures IsAt(cur, p, k)
      ensures var f' := PutIn(TakenOut(f, p, k), NONE, 0, cur);
              && f'.members == f.members && f'.key == f.key
              && ni < |f'.kids| && f'.kids[ni] == KidsLeft(c, rounds + 1)
              && f'.roots == RootsSoFar(r, c, rounds + 1) && f'.roots[0] == f.roots[0]
    {
      if rounds < |c| {
        MoveDown(r, c, rounds);
      } else {
        MoveUp(r, c, rounds);
      }
    }

    /** Where the walk goes next. */
    lemma NextVisited(ni: nat, r: seq<nat>, c: seq<nat>, rounds: nat)
      requires Walking(ni) && r != [] && rounds < 2 * |c| - 1 && NoDup(c)
      requires f.kids[ni] == KidsLeft(c, rounds) && f.roots == RootsSoFar(r, c, rounds)
      ensures Visited(c, rounds) < |nodes| && Visited(c, rounds) != ni
      ensures var next := nodes[Visited(c, rounds)].next;
              && (next == c[0] <==> rounds + 1 == 2 * |c| - 1)
              && (next != c[0] ==> next == Visited(c, rounds + 1))
    {
      if rounds < |c| {
        MoveDown(r, c, rounds);
        ChildLinks(nodes, f, ni, 0, {}, {});
      } else {
        MoveUp(r, c, rounds);
        assert LinkAt(nodes, f.roots, rounds - |c| + 1);
        assert PlaceOk(nodes, f, ni, {});
      }
    }
  }

  // ---------- The walk of fheap_del ----------

  function Reverse(s: seq<nat>): (r: seq<nat>)
    ensures |r| == |s| && forall i :: 0 <= i < |s| ==> r[i] == s[|s| - 1 - i]
  {
    if s == [] then [] else [s[|s| - 1]] + Reverse(s[..|s| - 1])
  }

  /** The children left after so many rounds, c being all of them. */
  function KidsLeft(c: seq<nat>, rounds: nat): seq<nat> {
    if rounds < |c| then c[rounds..] else []
  }

  /** The root list after so many rounds; before the first it is r. */
  function RootsSoFar(r: seq<nat>, c: seq<nat>, rounds: nat): seq<nat>
    requires r != [] && rounds < 2 * |c|
  {
    if rounds < |c| then [r[0]] + Reverse(c[..rounds]) + r[1..]
    else [r[0]] + c[2 * |c| - rounds..] + Reverse(c[..2 * |c| - rounds]) + r[1..]
  }

  /** The child visited in the next round. */
  function Visited(c: seq<nat>, rounds: nat): nat
    requires rounds < 2 * |c| - 1
  {
    if rounds < |c| then c[rounds] else c[2 * |c| - 1 - rounds]
  }

  lemma MoveDown(r: seq<nat>, c: seq<nat>, s: nat)
    requires r != [] && s < |c|
    ensures KidsLeft(c, s)[0] == c[s]
    ensures Rotated(Without(KidsLeft(c, s), 0), 0) == KidsLeft(c, s + 1)
    ensures Inserted(RootsSoFar(r, c, s), 0, c[s]) == RootsSoFar(r, c, s + 1)
  {
    OneMoreReversed(c, s);
    InsertedSecond(r[0], Reverse(c[..s]), c[s], r[1..]);
    if s + 1 == |c| {
      LastDown(r, c);
    }
  }

  lemma OneMoreReversed(c: seq<nat>, s: nat)
    requires s < |c|
    ensures Reverse(c[..s + 1]) == [c[s]] + Reverse(c[..s])
  {
    assert c[..s + 1][..s] == c[..s];
  }

  lemma InsertedSecond(h: nat, a: seq<nat>, x: nat, d: seq<nat>)
    ensures Inserted([h] + a + d, 0, x) == [h] + ([x] + a) + d
  {
  }

  /** Where the two halves of the walk meet. */
  lemma LastDown(r: seq<nat>, c: seq<nat>)
    requires r != [] && c != []
    ensures RootsSoFar(r, c, |c|) == [r[0]] + Reverse(c[..|c|]) + r[1..]
  {
    assert c[|c|..] == [];
    assert c[..2 * |c| - |c|] == c[..|c|];
    assert [r[0]] + [] == [r[0]];
  }

  lemma MovedToSecond(h: nat, a: seq<nat>, x: nat, b: seq<nat>, d: seq<nat>)
    ensures var t := [h] + a + ([x] + b) + d; var q := |a| + 1;
            && q < |t| && t[q] == x && (b != [] ==> q + 1 < |t| && t[q + 1] == b[0])
            && Inserted(Without(t, q), 0, x) == [h] + ([x] + a) + b + d
  {
    var t := [h] + a + ([x] + b) + d;
    assert Without(t, |a| + 1) == [h] + a + b + d;
  }

  /** The root list of the second half of the walk, just before c[j] is visited and just after. */
  lemma UpwardLists(r: seq<nat>, c: seq<nat>, j: nat)
    requires r != [] && 0 < j < |c|
    ensures RootsSoFar(r, c, 2 * |c| - 1 - j) == [r[0]] + c[j + 1..] + ([c[j]] + Reverse(c[..j])) + r[1..]
    ensures RootsSoFar(r, c, 2 * |c| - j) == [r[0]] + ([c[j]] + c[j + 1..]) + Reverse(c[..j]) + r[1..]
  {
    var p := c[..j + 1];
    assert p[j] == c[j] && p[..j] == c[..j];
    assert Reverse(p) == [c[j]] + Reverse(c[..j]);
    assert c[j..] == [c[j]] + c[j + 1..];
  }

  lemma MoveUp(r: seq<nat>, c: seq<nat>, s: nat)
    requires r != [] && |c| <= s < 2 * |c| - 1
    ensures var q := s - |c| + 1; var t := RootsSoFar(r, c, s);
            && 0 < q < |t| - 1 && t[q] == Visited(c, s) && t[q + 1] == c[2 * |c| - 2 - s]
            && Inserted(Without(t, q), 0, t[q]) == RootsSoFar(r, c, s + 1)
  {
    var j := 2 * |c| - 1 - s;
    UpwardLists(r, c, j);
    var b := Reverse(c[..j]);
    assert b[0] == c[j - 1];
    MovedToSecond(r[0], c[j + 1..], c[j], b, r[1..]);
  }

  lemma RingEnds(nodes: seq<Node>, s: seq<nat>)
    requires Ring(nodes, s) && s != []
    ensures s[0] < |nodes| && nodes[s[0]].prev == s[|s| - 1]
  {
    assert LinkAt(nodes, s, |s| - 1);
  }

  /** A root's stale parent field may be cleared. */
  lemma ParentForgotten(nodes: seq<Node>, nodes': seq<Node>, f: Forest, x: nat, stale: set<nat>)
    requires Represents(nodes, f, {}, stale) && Ring(nodes, f.roots) && x in f.roots
    requires x < |nodes| && nodes' == nodes[x := nodes[x].(parent := NONE)]
    ensures Represents(nodes', f, {}, stale - {x}) && Ring(nodes', f.roots)
  {
    RingKept(nodes, nodes', f.roots);
    assert PlaceOk(nodes, f, x, stale);
    forall q | q in f.members ensures KidsOk(nodes', f, q, {}, stale - {x}) {
      assert KidsOk(nodes, f, q, {}, stale);
      RootNotChild(nodes, f, x, q, stale);
      KidsKept(nodes, nodes', f, f, q, {}, {}, stale, stale - {x});
    }
    forall m | m in f.members ensures PlaceOk(nodes', f, m, stale - {x}) {
      assert PlaceOk(nodes, f, m, stale);
    }
  }

  lemma RootNotChild(nodes: seq<Node>, f: Forest, x: nat, q: nat, stale: set<nat>)
    requires Represents(nodes, f, {}, stale) && x in f.roots && q in f.members
    ensures x !in f.kids[q]
  {
    assert KidsOk(nodes, f, q, {}, stale);
  }

  lemma SetWithout(s: seq<nat>, t: seq<nat>, lo: nat, hi: nat)
    requires forall y :: y in t <==> y in s && y != hi
    ensures Nodes(t) - {lo} == Nodes(s) - {lo, hi}
  {
  }

  lemma AllButLast(s: seq<nat>, p: seq<nat>, x: nat, q: seq<nat>)
    requires NoDup(s) && s == p + [x] + q
    ensures Nodes(p + [x]) - {x} == Nodes(p)
  {
    assert s == p + ([x] + q);
    DistinctParts(s, p, [x] + q);
  }

  lemma WithoutFirst(s: seq<nat>, t: seq<nat>, k: nat)
    requires k < |s|
    ensures Without(s + t, k) == Without(s, k) + t
  {
  }

  lemma DistinctParts(s: seq<nat>, p: seq<nat>, q: seq<nat>)
    requires NoDup(s) && s == p + q
    ensures NoDup(p) && NoDup(q) && forall x :: x in p ==> x !in q
  {
    assert forall i :: 0 <= i < |p| ==> s[i] == p[i];
    assert forall i :: 0 <= i < |q| ==> s[|p| + i] == q[i];
  }

  lemma RootFirstChild(nodes: seq<Node>, f: Forest)
    requires Represents(nodes, f, {}, {}) && f.roots != []
    ensures f.roots[0] < |nodes| && f.roots[0] in f.members && nodes[f.roots[0]].parent == NONE
    ensures nodes[f.roots[0]].firstChild == NONE <==> f.kids[f.roots[0]] == []
    ensures f.kids[f.roots[0]] != [] ==>
              var c := f.kids[f.roots[0]][0];
              && nodes[f.roots[0]].firstChild == c < |nodes| && nodes[f.roots[0]].next < |nodes| &&
                  nodes[c].next < |nodes|
              && nodes[f.roots[0]].next != nodes[c].next && f.roots[0] != c
  {
    assert KidsOk(nodes, f, f.roots[0], {}, {});
    if f.kids[f.roots[0]] != [] {
      RingNeighbours(nodes, f.kids[f.roots[0]], 0, 0);
      RingNeighbours(nodes, f.roots, 0, 0);
    }
  }

  /** After the splice, or without one, the root can be unlinked. */
  lemma RemovableRoot(nodes: seq<Node>, nodes1: seq<Node>, f: Forest)
    requires Represents(nodes, f, {}, {}) && f.roots != []
    requires if f.kids[f.roots[0]] == [] then nodes1 == nodes
             else Spliced(nodes, nodes1, f.roots[0], f.kids[f.roots[0]][0])
    ensures |nodes1| == |nodes| && nodes1[f.roots[0]].parent == NONE
    ensures nodes1[f.roots[0]].prev == NONE || nodes1[f.roots[0]].prev < |nodes|
    ensures nodes1[f.roots[0]].next == NONE || nodes1[f.roots[0]].next < |nodes|
    ensures nodes1[f.roots[0]].prev == f.roots[0] <==> nodes1[f.roots[0]].next == f.roots[0]
  {
    RootLinks(nodes, f, 0, {}, {});
    if f.kids[f.roots[0]] != [] {
      PromotedElements(nodes, f);
      SplicedRing(nodes, nodes1, f);
      RingNeighbours(nodes1, [f.roots[0]] + Promoted(f), 0, 0);
    }
  }

  /** The links of a root lead to roots, or nowhere. */
  lemma RootLinks(nodes: seq<Node>, f: Forest, k: nat, out: set<nat>, stale: set<nat>)
    requires Represents(nodes, f, out, stale) && k < |f.roots|
    ensures nodes[f.roots[k]].next == NONE || nodes[f.roots[k]].next in f.roots
    ensures nodes[f.roots[k]].prev == NONE || nodes[f.roots[k]].prev in f.roots
    ensures nodes[f.roots[k]].next == NONE <==> nodes[f.roots[k]].prev == NONE
    ensures nodes[f.roots[k]].next == f.roots[k] <==> nodes[f.roots[k]].prev == f.roots[k]
    ensures nodes[f.roots[k]].next != NONE ==> Ring(nodes, f.roots)
  {
    if Ring(nodes, f.roots) {
      RingNeighbours(nodes, f.roots, k, k);
      forall i | 0 <= i < |f.roots| ensures f.roots[i] < NONE {
      }
    }
  }

  /** A first member is a root without links. */
  lemma OnlyRoot(nodes: seq<Node>, f: Forest, x: nat)
    requires Represents(nodes, f, {x}, {}) && f.roots == [] && f.kids[x] == []
    requires nodes[x].next == NONE && nodes[x].prev == NONE && nodes[x].parent == NONE
    ensures Represents(nodes, f.(roots := [x]), {}, {})
  {
    var f' := f.(roots := [x]);
    forall q | q in f.members ensures KidsOk(nodes, f', q, {}, {}) {
      assert KidsOk(nodes, f, q, {x}, {});
    }
    forall m | m in f.members ensures PlaceOk(nodes, f', m, {}) {
      assert m != x ==> PlaceOk(nodes, f, m, {});
    }
  }

  /** The links of a child lead to its siblings, and its parent counts it. */
  lemma ChildLinks(nodes: seq<Node>, f: Forest, p: nat, k: nat, out: set<nat>, stale: set<nat>)
    requires Represents(nodes, f, out, stale) && p in f.members && k < |f.kids[p]|
    ensures f.kids[p][k] < |nodes| && f.kids[p][k] in f.members && nodes[f.kids[p][k]].parent == p && p != f.kids[p][k]
    ensures nodes[f.kids[p][k]].next in f.kids[p] && nodes[f.kids[p][k]].prev in f.kids[p]
    ensures nodes[f.kids[p][k]].next < |nodes| && nodes[f.kids[p][k]].prev < |nodes|
    ensures nodes[f.kids[p][k]].next == f.kids[p][k] <==> nodes[f.kids[p][k]].prev == f.kids[p][k]
    ensures nodes[f.kids[p][k]].next == f.kids[p][if k + 1 == |f.kids[p]| then 0 else k + 1]
    ensures nodes[p].rank == |f.kids[p]| && nodes[p].firstChild == f.kids[p][0]
  {
    assert KidsOk(nodes, f, p, out, stale);
    RingNeighbours(nodes, f.kids[p], k, k);
    assert LinkAt(nodes, f.kids[p], k);
    assert PlaceOk(nodes, f, f.kids[p][k], stale);
  }

  // ---------- Deleting a root: its children become roots ----------

  /** What the first step of fheap_del_min does to the nodes: the ring of r and the ring of its
      child c are cut open and joined. */
  ghost predicate Spliced(nodes: seq<Node>, nodes': seq<Node>, r: nat, c: nat) {
    && r < |nodes| == |nodes'| && c < |nodes|
    && forall y :: 0 <= y < |nodes| ==>
         nodes'[y] == nodes[y].(
           next := if y == r then nodes[c].next else if y == c then nodes[r].next else nodes[y].next,
           prev := if y == nodes[c].next then r else if y == nodes[r].next then c else nodes[y].prev)
  }

  /** The root list without its first element but with that one's children in its place. */
  function Promoted(f: Forest): seq<nat>
    requires f.roots != [] && f.roots[0] < |f.kids|
  {
    var c := f.kids[f.roots[0]];
    (if c == [] then [] else c[1..] + [c[0]]) + f.roots[1..]
  }

  ghost function Orphans(f: Forest): set<nat>
    requires f.roots != [] && f.roots[0] < |f.kids|
  {
    set x | x in f.kids[f.roots[0]]
  }

  lemma SplicedRing(nodes: seq<Node>, nodes': seq<Node>, f: Forest)
    requires Represents(nodes, f, {}, {}) && f.roots != [] && f.kids[f.roots[0]] != []
    requires Spliced(nodes, nodes', f.roots[0], f.kids[f.roots[0]][0])
    ensures Ring(nodes', [f.roots[0]] + Promoted(f))
  {
    var r, c := f.roots, f.kids[f.roots[0]];
    assert KidsOk(nodes, f, r[0], {}, {});
    RingNeighbours(nodes, r, 0, 0);
    RingNeighbours(nodes, c, 0, 0);
    forall i | 0 <= i < |r| ensures r[i] !in c {
    }
    RingsJoined(nodes, nodes', r, c);
    assert [r[0]] + Promoted(f) == [r[0]] + c[1..] + [c[0]] + r[1..];
  }

  lemma PromotedElements(nodes: seq<Node>, f: Forest)
    requires Represents(nodes, f, {}, {}) && f.roots != []
    ensures NoDup(Promoted(f)) && f.roots[0] !in Promoted(f)
    ensures forall x :: x in Promoted(f) <==> (x in f.roots && x != f.roots[0]) || x in Orphans(f)
    ensures forall x :: x in Promoted(f) ==>
            x < |nodes| && x in f.members && (x !in Orphans(f) ==> nodes[x].parent == NONE)
  {
    assert KidsOk(nodes, f, f.roots[0], {}, {});
    PromotedSeq(f.roots, f.kids[f.roots[0]]);
  }

  lemma PromotedSeq(r: seq<nat>, c: seq<nat>)
    requires NoDup(r) && NoDup(c) && r != [] && forall i :: 0 <= i < |r| ==> r[i] !in c
    ensures var p := (if c == [] then [] else c[1..] + [c[0]]) + r[1..];
            NoDup(p) && r[0] !in p && forall x :: x in p <==> (x in r && x != r[0]) || x in c
  {
    var p := (if c == [] then [] else c[1..] + [c[0]]) + r[1..];
    assert r == [r[0]] + r[1..];
    if c != [] {
      assert c == [c[0]] + c[1..];
      JoinedNoDup(r, c);
      assert [r[0]] + c[1..] + [c[0]] + r[1..] == [r[0]] + p;
    }
    DistinctParts([r[0]] + p, [r[0]], p);
  }

  /** The forest after the root has gone. */
  ghost function RootDeleted(f: Forest): Forest
    requires f.roots != [] && f.roots[0] < |f.kids|
  {
    f.(members := f.members - {f.roots[0]}, roots := Promoted(f))
  }

  /** From the splice on, links of roots and of the deleted root's children are the only ones
      that change. */
  ghost predicate OnlyRootLinks(nodes: seq<Node>, nodes': seq<Node>, f: Forest)
    requires |nodes| == |f.kids|
  {
    && |nodes'| == |nodes| && f.roots != [] && f.roots[0] < |nodes|
    && forall y :: 0 <= y < |nodes| && y != f.roots[0] ==>
         && nodes'[y].parent == nodes[y].parent && nodes'[y].key == nodes[y].key
         && nodes'[y].rank == nodes[y].rank && nodes'[y].firstChild == nodes[y].firstChild
         && (y !in f.roots && y !in Orphans(f) ==> nodes'[y].next == nodes[y].next && nodes'[y].prev == nodes[y].prev)
  }

  lemma RootGone(nodes: seq<Node>, nodes': seq<Node>, f: Forest)
    requires Represents(nodes, f, {}, {}) && f.roots != []
    requires OnlyRootLinks(nodes, nodes', f) && Ring(nodes', Promoted(f))
    ensures Represents(nodes', RootDeleted(f), {}, Orphans(f))
  {
    var f' := RootDeleted(f);
    var stale := Orphans(f);
    PromotedElements(nodes, f);
    forall i | 0 <= i < |f'.roots|
      ensures f'.roots[i] < |nodes'| && f'.roots[i] in f'.members &&
              (f'.roots[i] !in stale ==> nodes'[f'.roots[i]].parent == NONE)
    {
      assert f'.roots[i] in Promoted(f);
    }
    assert KidsOk(nodes, f, f.roots[0], {}, {});
    forall q | q in f'.members ensures KidsOk(nodes', f', q, {}, stale) {
      assert KidsOk(nodes, f, q, {}, {});
      KidsKept(nodes, nodes', f, f', q, {}, {}, {}, stale);
    }
    forall m | m in f'.members ensures PlaceOk(nodes', f', m, stale) {
      assert PlaceOk(nodes, f, m, {});
    }
  }

  /** Unlinking a childless first root. */
  lemma BareRootUnlinked(nodes: seq<Node>, nodes': seq<Node>, f: Forest)
    requires Represents(nodes, f, {}, {}) && f.roots != [] && f.kids[f.roots[0]] == []
    requires Unlinked(nodes, nodes', f.roots[0])
    ensures OnlyRootLinks(nodes, nodes', f) && Ring(nodes', Promoted(f))
    ensures (if nodes[f.roots[0]].prev == f.roots[0] then NONE else nodes[f.roots[0]].next) == if Promoted(f) == []
            then NONE else Promoted(f)[0]
  {
    RootLinks(nodes, f, 0, {}, {});
    if Ring(nodes, f.roots) {
      assert f.roots == [f.roots[0]] + Promoted(f);
      assert forall i :: 0 <= i < |Promoted(f)| ==> Promoted(f)[i] == f.roots[i + 1];
      UnlinkFirst(nodes, nodes', f.roots[0], Promoted(f));
    } else {
      assert Promoted(f) == [];
    }
  }

  lemma UnlinkFirst(nodes: seq<Node>, nodes': seq<Node>, x: nat, rest: seq<nat>)
    requires Ring(nodes, [x] + rest) && x < |nodes| && (forall i :: 0 <= i < |rest| ==> rest[i] < |nodes|)
    requires Unlinked(nodes, nodes', x)
    ensures Ring(nodes', rest)
    ensures nodes[x].next in rest + [x] && nodes[x].prev in rest + [x]
    ensures nodes[x].next == (if rest == [] then x else rest[0]) && (rest == [] <==> nodes[x].prev == x)
  {
    assert Without([x] + rest, 0) == rest;
    UnlinkedRing(nodes, nodes', [x] + rest, 0);
    FirstLinks(nodes, x, rest);
  }

  lemma FirstLinks(nodes: seq<Node>, x: nat, rest: seq<nat>)
    requires Ring(nodes, [x] + rest) && x < |nodes|
    ensures nodes[x].next in rest + [x] && nodes[x].prev in rest + [x]
    ensures nodes[x].next == (if rest == [] then x else rest[0]) && (rest == [] <==> nodes[x].prev == x)
  {
    var t := [x] + rest;
    assert LinkAt(nodes, t, 0) && LinkAt(nodes, t, |t| - 1);
    if rest != [] {
      assert t[1] == rest[0] && t[|t| - 1] == rest[|rest| - 1];
    }
  }

  /** Unlinking a first root whose children have been spliced in. */
  lemma SplicedRootUnlinked(nodes: seq<Node>, nodes1: seq<Node>, nodes2: seq<Node>, f: Forest)
    requires Represents(nodes, f, {}, {}) && f.roots != [] && f.kids[f.roots[0]] != []
    requires Spliced(nodes, nodes1, f.roots[0], f.kids[f.roots[0]][0]) && Unlinked(nodes1, nodes2, f.roots[0])
    ensures Ring(nodes2, Promoted(f))
    ensures nodes1[f.roots[0]].next in Promoted(f) + [f.roots[0]] &&
            nodes1[f.roots[0]].prev in Promoted(f) + [f.roots[0]]
    ensures nodes1[f.roots[0]].next == Promoted(f)[0] && nodes1[f.roots[0]].prev != f.roots[0]
  {
    PromotedElements(nodes, f);
    SplicedRing(nodes, nodes1, f);
    assert forall i :: 0 <= i < |Promoted(f)| ==> Promoted(f)[i] in Promoted(f);
    UnlinkFirst(nodes1, nodes2, f.roots[0], Promoted(f));
  }

  lemma SplicedRootLinks(nodes: seq<Node>, nodes1: seq<Node>, nodes2: seq<Node>, f: Forest)
    requires Represents(nodes, f, {}, {}) && f.roots != [] && f.kids[f.roots[0]] != []
    requires Spliced(nodes, nodes1, f.roots[0], f.kids[f.roots[0]][0]) && Unlinked(nodes1, nodes2, f.roots[0])
    requires nodes1[f.roots[0]].next in Promoted(f) + [f.roots[0]] &&
             nodes1[f.roots[0]].prev in Promoted(f) + [f.roots[0]]
    ensures OnlyRootLinks(nodes, nodes2, f)
  {
    var r, c := f.roots, f.kids[f.roots[0]];
    PromotedElements(nodes, f);
    assert KidsOk(nodes, f, r[0], {}, {});
    RingNeighbours(nodes, c, 0, 0);
    RootLinks(nodes, f, 0, {}, {});
    assert c[0] in Orphans(f) && r[0] in r;
  }
}
