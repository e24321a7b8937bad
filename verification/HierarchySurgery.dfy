/**
  Rewriting the Cell hierarchy after pairs of Cells have been merged
  (materialize_pair_merges in python/train_geometric_cells.py): every output Cell is hung at
  its placement, subtrees without Cells disappear, and the result is laid out in preorder.
 */
module HierarchySurgery {
  import opened Common
  import opened HierarchyTree

  /** The rewritten hierarchy as a tree: a node with no kids is a leaf and lists Cells. */
  datatype OutTree = OutTree(centroid: seq<real>, radius: real, kids: seq<OutTree>, cells: seq<nat>)

  // ---------- The preorder layout of a tree ----------

  function Size(t: OutTree): (n: nat)
    ensures n > 0
  {
    1 + SizeAll(t.kids)
  }

  function SizeAll(ts: seq<OutTree>): nat {
    if |ts| == 0 then 0 else Size(ts[0]) + SizeAll(ts[1..])
  }

  /** The Cells at and below a node, in layout order. */
  function CellsOf(t: OutTree): seq<nat> {
    t.cells + CellsOfAll(t.kids)
  }

  function CellsOfAll(ts: seq<OutTree>): seq<nat> {
    if |ts| == 0 then [] else CellsOf(ts[0]) + CellsOfAll(ts[1..])
  }

  /** The number of vectors in the listed Cells. */
  function Population(cells: seq<nat>, sizes: seq<nat>): nat
    requires forall i :: 0 <= i < |cells| ==> cells[i] < |sizes|
  {
    if |cells| == 0 then 0 else sizes[cells[0]] + Population(cells[1..], sizes)
  }

  ghost predicate InRange(cells: seq<nat>, n: nat) {
    forall i :: 0 <= i < |cells| ==> cells[i] < n
  }

  /** The ids of the roots of `ts` when they are laid out one after another from `lo`. */
  function RootIds(ts: seq<OutTree>, lo: nat): (ids: seq<nat>)
    ensures |ids| == |ts|
  {
    if |ts| == 0 then [] else [lo] + RootIds(ts[1..], lo + Size(ts[0]))
  }

  function RootNode(t: OutTree, lo: nat, sizes: seq<nat>): HNode
    requires InRange(CellsOf(t), |sizes|)
  {
    if |t.kids| == 0 then HNode(t.centroid, t.cells, true, Population(CellsOf(t), sizes), t.radius)
    else HNode(t.centroid, RootIds(t.kids, lo + 1), false, Population(CellsOf(t), sizes), t.radius)
  }

  /** The nodes of `t` in preorder when its root gets the id `lo`. */
  function Layout(t: OutTree, lo: nat, sizes: seq<nat>): (nodes: seq<HNode>)
    requires InRange(CellsOf(t), |sizes|)
    ensures |nodes| == Size(t)
    decreases t, 0
  {
    InRangeParts(t.cells, CellsOfAll(t.kids), |sizes|);
    [RootNode(t, lo, sizes)] + LayoutAll(t.kids, lo + 1, sizes)
  }

  function LayoutAll(ts: seq<OutTree>, lo: nat, sizes: seq<nat>): (nodes: seq<HNode>)
    requires InRange(CellsOfAll(ts), |sizes|)
    ensures |nodes| == SizeAll(ts)
    decreases ts, 1
  {
    if |ts| == 0 then []
    else
      InRangeParts(CellsOf(ts[0]), CellsOfAll(ts[1..]), |sizes|);
      Layout(ts[0], lo, sizes) + LayoutAll(ts[1..], lo + Size(ts[0]), sizes)
  }

  lemma InRangeParts(a: seq<nat>, b: seq<nat>, n: nat)
    ensures InRange(a + b, n) <==> InRange(a, n) && InRange(b, n)
  {
    if InRange(a + b, n) {
      assert forall i :: 0 <= i < |a| ==> a[i] == (a + b)[i];
      assert forall i :: 0 <= i < |b| ==> b[i] == (a + b)[|a| + i];
    }
  }

  lemma {:induction false} PopulationAdds(a: seq<nat>, b: seq<nat>, sizes: seq<nat>)
    requires InRange(a, |sizes|) && InRange(b, |sizes|)
    ensures InRange(a + b, |sizes|)
    ensures Population(a + b, sizes) == Population(a, sizes) + Population(b, sizes)
  {
    InRangeParts(a, b, |sizes|);
    if |a| == 0 {
      assert a + b == b;
    } else {
      assert (a + b)[1..] == a[1..] + b;
      PopulationAdds(a[1..], b, sizes);
    }
  }

  // ---------- What a layout is as an array ----------

  /** `v` is listed as a child exactly once in `nodes`, which start at id `lo`. */
  function Listings(nodes: seq<HNode>, v: nat): nat {
    if |nodes| == 0 then 0
    else Listings(nodes[..|nodes| - 1], v)
         + if nodes[|nodes| - 1].cells then 0 else Occurrences(nodes[|nodes| - 1].children, v)
  }

  function Occurrences(s: seq<nat>, v: nat): nat {
    multiset(s)[v]
  }

  /** How often `k` is listed as a Cell of a leaf in `nodes`. */
  function CellListings(nodes: seq<HNode>, k: nat): nat {
    if |nodes| == 0 then 0
    else CellListings(nodes[..|nodes| - 1], k)
         + if nodes[|nodes| - 1].cells then Occurrences(nodes[|nodes| - 1].children, k) else 0
  }

  lemma {:induction false} ListingsAdd(a: seq<HNode>, b: seq<HNode>, v: nat)
    ensures Listings(a + b, v) == Listings(a, v) + Listings(b, v)
    ensures CellListings(a + b, v) == CellListings(a, v) + CellListings(b, v)
  {
    if |b| == 0 {
      assert a + b == a;
    } else {
      assert (a + b)[..|a + b| - 1] == a + b[..|b| - 1];
      ListingsAdd(a, b[..|b| - 1], v);
    }
  }

  /** Trees whose inner nodes list no Cells and whose leaves list some. */
  predicate Proper(t: OutTree) {
    && (|t.kids| > 0 <==> |t.cells| == 0)
    && ProperAll(t.kids)
  }

  predicate ProperAll(ts: seq<OutTree>) {
    |ts| == 0 || (Proper(ts[0]) && ProperAll(ts[1..]))
  }

  /** Within a layout every id but the root's is listed as a child exactly once. */
  lemma {:induction false} LayoutListsOnce(t: OutTree, lo: nat, sizes: seq<nat>, v: nat)
    requires InRange(CellsOf(t), |sizes|)
    ensures Listings(Layout(t, lo, sizes), v) == if lo < v < lo + Size(t) then 1 else 0
    decreases t, 0
  {
    InRangeParts(t.cells, CellsOfAll(t.kids), |sizes|);
    var root, rest := [RootNode(t, lo, sizes)], LayoutAll(t.kids, lo + 1, sizes);
    ListingsAdd(root, rest, v);
    LayoutAllLists(t.kids, lo + 1, sizes, v);
    assert Listings(root, v) == if |t.kids| == 0 then 0 else Occurrences(RootIds(t.kids, lo + 1), v) by {
      assert root[..0] == [];
    }
  }

  lemma {:induction false} LayoutAllLists(ts: seq<OutTree>, lo: nat, sizes: seq<nat>, v: nat)
    requires InRange(CellsOfAll(ts), |sizes|)
    ensures Occurrences(RootIds(ts, lo), v) + Listings(LayoutAll(ts, lo, sizes), v)
         == if lo <= v < lo + SizeAll(ts) then 1 else 0
    decreases ts, 1
  {
    hide Listings, Occurrences, Layout, LayoutAll, RootIds, CellsOf, CellsOfAll, Size, SizeAll;
    if |ts| > 0 {
      SplitInRange(ts, |sizes|);
      var next := lo + Size(ts[0]);
      LayoutListsOnce(ts[0], lo, sizes, v);
      LayoutAllLists(ts[1..], next, sizes, v);
      LayoutAllCons(ts, lo, sizes);
      ListingsAdd(Layout(ts[0], lo, sizes), LayoutAll(ts[1..], next, sizes), v);
      OccurrencesCons(lo, RootIds(ts[1..], next), v);
    } else {
      LayoutAllNone(lo, sizes);
      NothingListed(v);
    }
  }

  lemma LayoutAllCons(ts: seq<OutTree>, lo: nat, sizes: seq<nat>)
    requires |ts| > 0 && InRange(CellsOfAll(ts), |sizes|)
    ensures InRange(CellsOf(ts[0]), |sizes|) && InRange(CellsOfAll(ts[1..]), |sizes|)
    ensures LayoutAll(ts, lo, sizes) == Layout(ts[0], lo, sizes) + LayoutAll(ts[1..], lo + Size(ts[0]), sizes)
    ensures RootIds(ts, lo) == [lo] + RootIds(ts[1..], lo + Size(ts[0]))
    ensures SizeAll(ts) == Size(ts[0]) + SizeAll(ts[1..])
  {
    SplitInRange(ts, |sizes|);
  }

  lemma LayoutAllNone(lo: nat, sizes: seq<nat>)
    ensures InRange(CellsOfAll([]), |sizes|)
    ensures LayoutAll([], lo, sizes) == [] && RootIds([], lo) == [] && SizeAll([]) == 0
  {
  }

  lemma SplitInRange(ts: seq<OutTree>, n: nat)
    requires |ts| > 0 && InRange(CellsOfAll(ts), n)
    ensures InRange(CellsOf(ts[0]), n) && InRange(CellsOfAll(ts[1..]), n)
  {
    InRangeParts(CellsOf(ts[0]), CellsOfAll(ts[1..]), n);
  }

  lemma OccurrencesCons(x: nat, s: seq<nat>, v: nat)
    ensures Occurrences([x] + s, v) == (if x == v then 1 else 0) + Occurrences(s, v)
  {
  }

  lemma NothingListed(v: nat)
    ensures Listings([], v) == 0 && CellListings([], v) == 0 && Occurrences([], v) == 0
  {
  }

  /** The leaves of a layout list exactly the Cells of the tree. */
  lemma {:induction false} LayoutListsCells(t: OutTree, lo: nat, sizes: seq<nat>, k: nat)
    requires InRange(CellsOf(t), |sizes|) && Proper(t)
    ensures CellListings(Layout(t, lo, sizes), k) == Occurrences(CellsOf(t), k)
    decreases t, 0
  {
    InRangeParts(t.cells, CellsOfAll(t.kids), |sizes|);
    var root, rest := [RootNode(t, lo, sizes)], LayoutAll(t.kids, lo + 1, sizes);
    ListingsAdd(root, rest, k);
    LayoutAllListsCells(t.kids, lo + 1, sizes, k);
    assert CellListings(root, k) == if |t.kids| == 0 then Occurrences(t.cells, k) else 0 by {
      assert root[..0] == [];
    }
    assert multiset(CellsOf(t)) == multiset(t.cells) + multiset(CellsOfAll(t.kids));
  }

  lemma {:induction false} LayoutAllListsCells(ts: seq<OutTree>, lo: nat, sizes: seq<nat>, k: nat)
    requires InRange(CellsOfAll(ts), |sizes|) && ProperAll(ts)
    ensures CellListings(LayoutAll(ts, lo, sizes), k) == Occurrences(CellsOfAll(ts), k)
    decreases ts, 1
  {
    hide CellListings, Occurrences, Layout, LayoutAll, CellsOf, CellsOfAll, Size, SizeAll, Proper, RootIds;
    if |ts| > 0 {
      var next := lo + Size(ts[0]);
      LayoutAllCons(ts, lo, sizes);
      CellsOfCons(ts);
      LayoutListsCells(ts[0], lo, sizes, k);
      LayoutAllListsCells(ts[1..], next, sizes, k);
      ListingsAdd(Layout(ts[0], lo, sizes), LayoutAll(ts[1..], next, sizes), k);
      OccurrencesAdd(CellsOf(ts[0]), CellsOfAll(ts[1..]), k);
    } else {
      LayoutAllNone(lo, sizes);
      NothingListed(k);
      NoCellsOfNone();
    }
  }

  lemma NoCellsOfNone()
    ensures CellsOfAll([]) == []
  {
  }

  lemma {:induction false} RootIdsRange(ts: seq<OutTree>, lo: nat, i: nat)
    requires i < |ts|
    ensures lo <= RootIds(ts, lo)[i] < lo + SizeAll(ts)
  {
    if i > 0 {
      RootIdsRange(ts[1..], lo + Size(ts[0]), i - 1);
    }
  }

  /** Children come after their parent and inside its stretch of the layout; no node is empty. */
  ghost predicate Forward(nodes: seq<HNode>, lo: nat, hi: nat) {
    forall j :: 0 <= j < |nodes| ==>
      && |nodes[j].children| > 0
      && (!nodes[j].cells ==> forall i :: 0 <= i < |nodes[j].children| ==> lo + j < nodes[j].children[i] < hi)
  }

  lemma ForwardJoins(a: seq<HNode>, b: seq<HNode>, lo: nat, mid: nat, hi: nat)
    requires Forward(a, lo, mid) && Forward(b, lo + |a|, hi) && mid <= hi
    ensures Forward(a + b, lo, hi)
  {
    forall j | 0 <= j < |a + b|
      ensures |(a + b)[j].children| > 0
      ensures !(a + b)[j].cells ==> forall i :: 0 <= i < |(a + b)[j].children| ==> lo + j < (a + b)[j].children[i] < hi
    {
      if j < |a| {
        assert (a + b)[j] == a[j];
      } else {
        assert (a + b)[j] == b[j - |a|];
      }
    }
  }

  lemma {:induction false} LayoutForward(t: OutTree, lo: nat, sizes: seq<nat>)
    requires InRange(CellsOf(t), |sizes|) && Proper(t)
    ensures Forward(Layout(t, lo, sizes), lo, lo + Size(t))
    decreases t, 0
  {
    InRangeParts(t.cells, CellsOfAll(t.kids), |sizes|);
    var root := RootNode(t, lo, sizes);
    LayoutAllForward(t.kids, lo + 1, sizes);
    var ids := RootIds(t.kids, lo + 1);
    forall i | 0 <= i < |ids| ensures lo < ids[i] < lo + Size(t) {
      RootIdsRange(t.kids, lo + 1, i);
    }
    assert Forward([root], lo, lo + Size(t));
    ForwardJoins([root], LayoutAll(t.kids, lo + 1, sizes), lo, lo + Size(t), lo + Size(t));
  }

  lemma {:induction false} LayoutAllForward(ts: seq<OutTree>, lo: nat, sizes: seq<nat>)
    requires InRange(CellsOfAll(ts), |sizes|) && ProperAll(ts)
    ensures Forward(LayoutAll(ts, lo, sizes), lo, lo + SizeAll(ts))
    decreases ts, 1
  {
    hide Forward;
    if |ts| > 0 {
      SplitInRange(ts, |sizes|);
      var next := lo + Size(ts[0]);
      LayoutForward(ts[0], lo, sizes);
      LayoutAllForward(ts[1..], next, sizes);
      ForwardJoins(Layout(ts[0], lo, sizes), LayoutAll(ts[1..], next, sizes), lo, next, lo + SizeAll(ts));
    } else {
      EmptyForward(lo);
    }
  }

  lemma EmptyForward(lo: nat)
    ensures Forward([], lo, lo)
  {
  }

  // ---------- The surgery ----------

  /** What becomes of the subtree at `v` when `at[u]` lists the output Cells placed at node `u`. */
  function Pruned(s: Source, at: seq<seq<nat>>, v: nat): Option<OutTree>
    requires IsTree(s) && v < |s.h| == |at|
    decreases s.bound - s.depths[v], 1, 0
  {
    NodeFacts(s, v);
    var kids := if s.h[v].cells then [] else PrunedKids(s, at, v, |s.h[v].children|);
    var direct := at[v];
    var node := s.h[v];
    if |kids| == 0 && |direct| == 0 then None
    else if |kids| == 0 then Some(OutTree(node.centroid, node.radius, [], direct))
    else if |direct| > 0 then
      Some(OutTree(node.centroid, node.radius, kids + [OutTree(node.centroid, 0.0, [], direct)], []))
    else Some(OutTree(node.centroid, node.radius, kids, []))
  }

  /** What is left of the first `n` children of `v`. */
  function PrunedKids(s: Source, at: seq<seq<nat>>, v: nat, n: nat): seq<OutTree>
    requires IsTree(s) && v < |s.h| == |at| && !s.h[v].cells && n <= |s.h[v].children|
    decreases s.bound - s.depths[v], 0, n
  {
    if n == 0 then []
    else
      ChildFacts(s, v, n - 1);
      NodeFacts(s, s.h[v].children[n - 1]);
      match Pruned(s, at, s.h[v].children[n - 1])
      case None => PrunedKids(s, at, v, n - 1)
      case Some(t) => PrunedKids(s, at, v, n - 1) + [t]
  }

  lemma ChildFacts(s: Source, v: int, i: int)
    requires IsTree(s) && 0 <= v < |s.h| && !s.h[v].cells && 0 <= i < |s.h[v].children|
    ensures var c := s.h[v].children[i];
      && |s.depths| == |s.parents| == |s.h|
      && c < |s.h| && s.parents[c] == v && s.depths[c] == s.depths[v] + 1 && s.depths[c] <= s.bound
    ensures NoDup(s.h[v].children)
  {
    assert Complete(s.h, s.parents, s.depths, s.leaves, v);
  }

  // ---------- Every placed Cell appears once, under its placement ----------

  /** `place[k]` is the node at which output Cell `k` is listed, and it is listed there once. */
  ghost predicate PlacedAt(s: Source, at: seq<seq<nat>>, place: seq<nat>) {
    && |at| == |s.h|
    && (forall k :: 0 <= k < |place| ==> place[k] < |s.h|)
    && (forall u, k :: 0 <= u < |at| && 0 <= k < |place| ==> Occurrences(at[u], k) == if place[k] == u then 1 else 0)
    && (forall u, i :: 0 <= u < |at| && 0 <= i < |at[u]| ==> at[u][i] < |place|)
  }

  /** A node other than `v` is under `v` exactly when it is under one of the children. */
  lemma UnderChild(s: Source, v: int, u: int)
    requires IsTree(s) && 0 <= v < |s.h| && 0 <= u < |s.h| && u != v && Under(s, v, u)
    ensures !s.h[v].cells
    ensures exists i :: 0 <= i < |s.h[v].children| && s.h[v].children[i] < |s.h| && Under(s, s.h[v].children[i], u)
  {
    hide IsTree;
    NodeFacts(s, v);
    NodeFacts(s, u);
    assert s.depths[u] > s.depths[v];
    var c := AncestorAt(s, u, s.depths[v] + 1);
    NodeFacts(s, c);
    var p := s.parents[c];
    NodeFacts(s, p);
    AncestorOfAncestor(s, u, s.depths[v] + 1, s.depths[v]);
    assert AncestorAt(s, p, s.depths[v]) == p;
    var i :| 0 <= i < |s.h[v].children| && s.h[v].children[i] == c;
  }

  lemma ChildUnder(s: Source, v: int, i: int, u: int)
    requires IsTree(s) && 0 <= v < |s.h| && !s.h[v].cells && 0 <= i < |s.h[v].children| && 0 <= u < |s.h|
    requires s.h[v].children[i] < |s.h| && Under(s, s.h[v].children[i], u)
    ensures Under(s, v, u) && u != v
  {
    var c := s.h[v].children[i];
    ChildFacts(s, v, i);
    NodeFacts(s, v);
    NodeFacts(s, u);
    AncestorOfAncestor(s, u, s.depths[c], s.depths[v]);
    assert AncestorAt(s, c, s.depths[v]) == AncestorAt(s, v, s.depths[v]) == v;
  }

  /** `u` is under one of the first `n` children of `v`. */
  ghost predicate UnderSome(s: Source, v: int, n: nat, u: int)
    requires IsTree(s) && 0 <= v < |s.h| && 0 <= u < |s.h| && n <= |s.h[v].children|
  {
    exists i :: 0 <= i < n && s.h[v].children[i] < |s.h| && Under(s, s.h[v].children[i], u)
  }

  lemma UnderOneChild(s: Source, v: int, i: int, j: int, u: int)
    requires IsTree(s) && 0 <= v < |s.h| && !s.h[v].cells && 0 <= u < |s.h|
    requires 0 <= i < |s.h[v].children| && 0 <= j < |s.h[v].children|
    requires s.h[v].children[i] < |s.h| && Under(s, s.h[v].children[i], u)
    requires s.h[v].children[j] < |s.h| && Under(s, s.h[v].children[j], u)
    ensures i == j
  {
    ChildFacts(s, v, i);
    ChildFacts(s, v, j);
  }

  lemma CellsOfAllAppend(ts: seq<OutTree>, t: OutTree)
    ensures CellsOfAll(ts + [t]) == CellsOfAll(ts) + CellsOf(t)
    ensures ProperAll(ts + [t]) <==> ProperAll(ts) && Proper(t)
    ensures SizeAll(ts + [t]) == SizeAll(ts) + Size(t)
  {
    if |ts| == 0 {
      assert ts + [t] == [t] && [t][1..] == [];
    } else {
      assert (ts + [t])[1..] == ts[1..] + [t];
      CellsOfAllAppend(ts[1..], t);
      assert (ts + [t])[0] == ts[0];
    }
  }

  lemma OccurrencesAdd(a: seq<nat>, b: seq<nat>, k: nat)
    ensures Occurrences(a + b, k) == Occurrences(a, k) + Occurrences(b, k)
  {
  }

  /** Each Cell is left exactly once when its placement is under the node, and not at all otherwise. */
  ghost predicate KeepsOwn(s: Source, place: seq<nat>, cells: seq<nat>, inside: iset<nat>) {
    && InRange(cells, |place|)
    && forall k :: 0 <= k < |place| ==> Occurrences(cells, k) == if place[k] in inside then 1 else 0
  }

  ghost function SubtreeNodes(s: Source, v: nat): iset<nat>
    requires IsTree(s) && v < |s.h|
  {
    iset u | 0 <= u < |s.h| && Under(s, v, u)
  }

  ghost function KidNodes(s: Source, v: nat, n: nat): iset<nat>
    requires IsTree(s) && v < |s.h| && n <= |s.h[v].children|
  {
    iset u | 0 <= u < |s.h| && UnderSome(s, v, n, u)
  }

  function CellsLeft(t: Option<OutTree>): seq<nat> {
    if t.None? then [] else CellsOf(t.value)
  }

  lemma KeepsOwnJoins(s: Source, place: seq<nat>, a: seq<nat>, b: seq<nat>, i: iset<nat>, j: iset<nat>)
    requires KeepsOwn(s, place, a, i) && KeepsOwn(s, place, b, j) && i !! j
    ensures KeepsOwn(s, place, a + b, i + j)
  {
    InRangeParts(a, b, |place|);
    forall k | 0 <= k < |place| ensures Occurrences(a + b, k) == if place[k] in i + j then 1 else 0 {
      OccurrencesAdd(a, b, k);
    }
  }

  lemma DirectKeepsOwn(s: Source, at: seq<seq<nat>>, place: seq<nat>, v: nat)
    requires PlacedAt(s, at, place) && v < |at|
    ensures KeepsOwn(s, place, at[v], iset{v})
  {
    forall i | 0 <= i < |at[v]| ensures at[v][i] < |place| {
    }
  }

  lemma KidNodesStep(s: Source, v: nat, n: nat)
    requires IsTree(s) && v < |s.h| && !s.h[v].cells && n < |s.h[v].children|
    ensures s.h[v].children[n] < |s.h|
    ensures KidNodes(s, v, n + 1) == KidNodes(s, v, n) + SubtreeNodes(s, s.h[v].children[n])
    ensures KidNodes(s, v, n) !! SubtreeNodes(s, s.h[v].children[n])
  {
    hide IsTree, Under;
    ChildFacts(s, v, n);
    var c := s.h[v].children[n];
    forall u | u in KidNodes(s, v, n + 1) ensures u in KidNodes(s, v, n) || u in SubtreeNodes(s, c) {
      var i :| 0 <= i < n + 1 && s.h[v].children[i] < |s.h| && Under(s, s.h[v].children[i], u);
      assert i < n ==> UnderSome(s, v, n, u);
    }
    forall u | u in KidNodes(s, v, n) ensures u in KidNodes(s, v, n + 1) && u !in SubtreeNodes(s, c) {
      var i :| 0 <= i < n && s.h[v].children[i] < |s.h| && Under(s, s.h[v].children[i], u);
      assert UnderSome(s, v, n + 1, u);
      if Under(s, c, u) {
        UnderOneChild(s, v, i, n, u);
      }
    }
    forall u | u in SubtreeNodes(s, c) ensures u in KidNodes(s, v, n + 1) {
      assert UnderSome(s, v, n + 1, u);
    }
  }

  lemma SelfUnder(s: Source, v: nat)
    requires IsTree(s) && v < |s.h|
    ensures Under(s, v, v)
  {
    NodeFacts(s, v);
  }

  lemma SubtreeIsKidsAndSelf(s: Source, v: nat)
    requires IsTree(s) && v < |s.h|
    ensures s.h[v].cells ==> SubtreeNodes(s, v) == iset{v}
    ensures !s.h[v].cells ==>
      && SubtreeNodes(s, v) == KidNodes(s, v, |s.h[v].children|) + iset{v}
      && v !in KidNodes(s, v, |s.h[v].children|)
  {
    hide IsTree, Under;
    SelfUnder(s, v);
    var n := |s.h[v].children|;
    forall u | u in SubtreeNodes(s, v) && u != v ensures !s.h[v].cells && u in KidNodes(s, v, n) {
      UnderChild(s, v, u);
      assert UnderSome(s, v, n, u);
    }
    if !s.h[v].cells {
      forall u | u in KidNodes(s, v, n) ensures u in SubtreeNodes(s, v) && u != v {
        var i :| 0 <= i < n && s.h[v].children[i] < |s.h| && Under(s, s.h[v].children[i], u);
        ChildUnder(s, v, i, u);
      }
    }
  }

  lemma {:induction false} PrunedKeepsOwn(s: Source, at: seq<seq<nat>>, place: seq<nat>, v: nat)
    requires IsTree(s) && PlacedAt(s, at, place) && v < |s.h|
    ensures KeepsOwn(s, place, CellsLeft(Pruned(s, at, v)), SubtreeNodes(s, v))
    ensures Pruned(s, at, v).Some? ==> Proper(Pruned(s, at, v).value)
    decreases s.bound - s.depths[v], 1, 0
  {
    hide IsTree, PlacedAt, KeepsOwn, SubtreeNodes, KidNodes;
    NodeFacts(s, v);
    SubtreeIsKidsAndSelf(s, v);
    PlacedShape(s, at, place);
    DirectKeepsOwn(s, at, place, v);
    var direct := at[v];
    if s.h[v].cells {
      assert CellsOfAll([]) == [] && direct + [] == direct;
      assert CellsLeft(Pruned(s, at, v)) == direct;
    } else {
      var n := |s.h[v].children|;
      var kids := PrunedKids(s, at, v, n);
      PrunedKidsKeepOwn(s, at, place, v, n);
      KeepsOwnJoins(s, place, CellsOfAll(kids), direct, KidNodes(s, v, n), iset{v});
      var leaf := OutTree(s.h[v].centroid, 0.0, [], direct);
      CellsOfAllAppend(kids, leaf);
      assert CellsOf(leaf) == direct;
      assert CellsLeft(Pruned(s, at, v)) == CellsOfAll(kids) + direct;
    }
  }

  lemma PlacedShape(s: Source, at: seq<seq<nat>>, place: seq<nat>)
    requires PlacedAt(s, at, place)
    ensures |at| == |s.h|
  {
  }

  lemma {:induction false} PrunedKidsKeepOwn(s: Source, at: seq<seq<nat>>, place: seq<nat>, v: nat, n: nat)
    requires IsTree(s) && PlacedAt(s, at, place) && v < |s.h| && !s.h[v].cells && n <= |s.h[v].children|
    ensures KeepsOwn(s, place, CellsOfAll(PrunedKids(s, at, v, n)), KidNodes(s, v, n))
    ensures ProperAll(PrunedKids(s, at, v, n))
    decreases s.bound - s.depths[v], 0, n
  {
    hide IsTree, PlacedAt, KeepsOwn, SubtreeNodes, KidNodes;
    PlacedShape(s, at, place);
    if n == 0 {
      NothingKept(s, place, v);
    } else {
      var c := s.h[v].children[n - 1];
      ChildFacts(s, v, n - 1);
      NodeFacts(s, c);
      KidNodesStep(s, v, n - 1);
      PrunedKidsKeepOwn(s, at, place, v, n - 1);
      PrunedKeepsOwn(s, at, place, c);
      var before, t := PrunedKids(s, at, v, n - 1), Pruned(s, at, c);
      KeepsOwnJoins(s, place, CellsOfAll(before), CellsLeft(t), KidNodes(s, v, n - 1), SubtreeNodes(s, c));
      if t.Some? {
        CellsOfAllAppend(before, t.value);
      } else {
        assert CellsOfAll(before) + [] == CellsOfAll(before);
      }
    }
  }

  lemma NothingKept(s: Source, place: seq<nat>, v: nat)
    requires IsTree(s) && v < |s.h|
    ensures KeepsOwn(s, place, [], KidNodes(s, v, 0))
  {
    hide IsTree;
    assert forall u :: 0 <= u < |s.h| ==> !UnderSome(s, v, 0, u);
  }

  /** From the root, every output Cell is kept exactly once, and the root goes only if there are no Cells. */
  lemma RootKeepsEveryCell(s: Source, at: seq<seq<nat>>, place: seq<nat>, k: nat)
    requires IsTree(s) && PlacedAt(s, at, place) && k < |place|
    ensures var t := Pruned(s, at, s.root);
      t.Some? && Proper(t.value) && InRange(CellsOf(t.value), |place|) && Occurrences(CellsOf(t.value), k) == 1
  {
    PrunedKeepsOwn(s, at, place, s.root);
    RootIsAboveAll(s, place[k]);
    hide IsTree, Pruned;
  }

  lemma RootIsAboveAll(s: Source, u: nat)
    requires IsTree(s) && u < |s.h|
    ensures 0 <= s.root < |s.h| && Under(s, s.root, u)
  {
    NodeFacts(s, u);
    NodeFacts(s, s.root);
    NodeFacts(s, AncestorAt(s, u, 0));
    hide IsTree;
  }

  // ---------- The recursive writer ----------

  /** The list that the recursive closure appends to, rewrites and pops. */
  class HierarchyWriter {
    const s: Source
    const at: seq<seq<nat>>
    const sizes: seq<nat>
    var out: seq<HNode>

    ghost predicate Valid() {
      && IsTree(s) && |at| == |s.h|
      && forall u :: 0 <= u < |at| ==> InRange(at[u], |sizes|)
    }

    constructor (source: Source, placements: seq<seq<nat>>, sz: seq<nat>)
      requires IsTree(source) && |placements| == |source.h|
      requires forall u :: 0 <= u < |placements| ==> InRange(placements[u], |sz|)
      ensures Valid() && out == [] && s == source && at == placements && sizes == sz
    {
      s, at, sizes, out := source, placements, sz, [];
    }

    /** Append what is left of the subtree at `v`; a subtree with no Cells leaves the list as it was. */
    method Append(v: nat) returns (id: Option<nat>)
      requires Valid() && v < |s.h|
      modifies this`out
      ensures var t := Pruned(s, at, v);
        && InRange(CellsLeft(t), |sizes|)
        && (t.None? ==> id == None && out == old(out))
        && (t.Some? ==> id == Some(|old(out)|) && out == old(out) + Layout(t.value, |old(out)|, sizes))
      decreases s.bound - s.depths[v], 1
    {
      hide IsTree, Layout, LayoutAll, Pruned, PrunedKids, RootIds, CellsOf, CellsOfAll, InRange, Population;
      var node, direct := s.h[v], at[v];
      var outputId := |out|;
      ghost var before := out;
      ghost var kids: seq<OutTree> := [];
      NodeFacts(s, v);
      out := out + [HNode(node.centroid, [], false, 0, node.radius)];
      var childOutputs: seq<nat> := [];
      LayoutAllNone(outputId + 1, sizes);
      if !node.cells {
        childOutputs := AppendKids(v);
        kids := PrunedKids(s, at, v, |node.children|);
      }
      assert out == before + [HNode(node.centroid, [], false, 0, node.radius)] + LayoutAll(kids, outputId + 1, sizes);
      PrunedFrom(s, at, v, kids, sizes);
      RootIdsNone(kids, outputId + 1);
      if |childOutputs| == 0 && |direct| == 0 {
        out := out[..|out| - 1];
        assert out == before;
        return None;
      }
      if |childOutputs| == 0 {
        var leaf := HNode(node.centroid, direct, true, PopulationOf(direct, sizes), node.radius);
        out := out[outputId := leaf];
        LeafLayout(node.centroid, node.radius, direct, outputId, sizes);
        assert out == before + [leaf];
        return Some(outputId);
      }
      if |direct| > 0 {
        var leafId := |out|;
        ghost var leaf := OutTree(node.centroid, 0.0, [], direct);
        LeafLayout(node.centroid, 0.0, direct, leafId, sizes);
        LayoutAllAppend(kids, leaf, outputId + 1, sizes);
        out := out + [HNode(node.centroid, direct, true, PopulationOf(direct, sizes), 0.0)];
        childOutputs := childOutputs + [leafId];
        kids := kids + [leaf];
      }
      assert out == before + [HNode(node.centroid, [], false, 0, node.radius)] + LayoutAll(kids, outputId + 1, sizes);
      KidsDescendants(out, kids, outputId + 1, sizes, before, HNode(node.centroid, [], false, 0, node.radius));
      var total := DescendantSum(out, childOutputs);
      NodeLayout(node.centroid, node.radius, kids, outputId, sizes);
      FillGap(before, HNode(node.centroid, [], false, 0, node.radius), LayoutAll(kids, outputId + 1, sizes),
              HNode(node.centroid, childOutputs, false, total, node.radius));
      out := out[outputId := HNode(node.centroid, childOutputs, false, total, node.radius)];
      return Some(outputId);
    }

    method AppendKids(v: nat) returns (ids: seq<nat>)
      requires Valid() && v < |s.h| && !s.h[v].cells
      modifies this`out
      ensures var kids := PrunedKids(s, at, v, |s.h[v].children|);
        && InRange(CellsOfAll(kids), |sizes|)
        && ids == RootIds(kids, |old(out)|) && out == old(out) + LayoutAll(kids, |old(out)|, sizes)
      decreases s.bound - s.depths[v], 0
    {
      hide IsTree, Layout, Pruned, PrunedKids, LayoutAll, RootIds, CellsOf, CellsOfAll, SizeAll, InRange;
      ids := [];
      var n := |s.h[v].children|;
      NoKidsYet(s, at, v);
      LayoutAllNone(|out|, sizes);
      assert out + [] == out;
      ghost var start := |out|;
      ghost var before := out;
      for i := 0 to n
        invariant 0 <= i <= n
        invariant InRange(CellsOfAll(PrunedKids(s, at, v, i)), |sizes|)
        invariant ids == RootIds(PrunedKids(s, at, v, i), start)
        invariant out == before + LayoutAll(PrunedKids(s, at, v, i), start, sizes)
      {
        ChildFacts(s, v, i);
        NodeFacts(s, s.h[v].children[i]);
        var id := Append(s.h[v].children[i]);
        AppendedKid(s, at, sizes, v, i, start);
        if id.Some? {
          LayoutAllLength(PrunedKids(s, at, v, i), start, sizes);
          ids := ids + [id.value];
        }
      }
    }
  }

  lemma NoKidsYet(s: Source, at: seq<seq<nat>>, v: nat)
    requires IsTree(s) && v < |s.h| == |at| && !s.h[v].cells
    ensures PrunedKids(s, at, v, 0) == []
  {
  }

  lemma LayoutAllLength(ts: seq<OutTree>, lo: nat, sizes: seq<nat>)
    requires InRange(CellsOfAll(ts), |sizes|)
    ensures |LayoutAll(ts, lo, sizes)| == SizeAll(ts)
  {
  }

  lemma AppendedKid(s: Source, at: seq<seq<nat>>, sizes: seq<nat>, v: nat, i: nat, lo: nat)
    requires IsTree(s) && v < |s.h| == |at| && !s.h[v].cells && i < |s.h[v].children| && s.h[v].children[i] < |s.h|
    requires InRange(CellsOfAll(PrunedKids(s, at, v, i)), |sizes|)
    requires InRange(CellsLeft(Pruned(s, at, s.h[v].children[i])), |sizes|)
    ensures var ts, t := PrunedKids(s, at, v, i), Pruned(s, at, s.h[v].children[i]);
      var after := PrunedKids(s, at, v, i + 1);
      && InRange(CellsOfAll(after), |sizes|)
      && after == (if t.None? then ts else ts + [t.value])
      && (t.Some? ==>
            && RootIds(after, lo) == RootIds(ts, lo) + [lo + SizeAll(ts)]
            && LayoutAll(after, lo, sizes) == LayoutAll(ts, lo, sizes) + Layout(t.value, lo + SizeAll(ts), sizes))
  {
    hide IsTree, Pruned;
    var ts, t := PrunedKids(s, at, v, i), Pruned(s, at, s.h[v].children[i]);
    if t.Some? {
      LayoutAllAppend(ts, t.value, lo, sizes);
    }
  }

  lemma {:induction false} LayoutAllAppend(ts: seq<OutTree>, t: OutTree, lo: nat, sizes: seq<nat>)
    requires InRange(CellsOfAll(ts), |sizes|) && InRange(CellsOf(t), |sizes|)
    ensures InRange(CellsOfAll(ts + [t]), |sizes|)
    ensures RootIds(ts + [t], lo) == RootIds(ts, lo) + [lo + SizeAll(ts)]
    ensures LayoutAll(ts + [t], lo, sizes) == LayoutAll(ts, lo, sizes) + Layout(t, lo + SizeAll(ts), sizes)
  {
    hide Layout, InRange, LayoutAll, RootIds, SizeAll, Size, CellsOfAll, CellsOf;
    CellsOfAllAppend(ts, t);
    InRangeParts(CellsOfAll(ts), CellsOf(t), |sizes|);
    if |ts| == 0 {
      LayoutAllOne(t, lo, sizes);
      LayoutAllNone(lo, sizes);
      assert ts == [] && ts + [t] == [t];
    } else {
      assert (ts + [t])[1..] == ts[1..] + [t] && (ts + [t])[0] == ts[0];
      LayoutAllCons(ts, lo, sizes);
      LayoutAllCons(ts + [t], lo, sizes);
      LayoutAllAppend(ts[1..], t, lo + Size(ts[0]), sizes);
    }
  }

  lemma LayoutAllOne(t: OutTree, lo: nat, sizes: seq<nat>)
    requires InRange(CellsOf(t), |sizes|)
    ensures InRange(CellsOfAll([t]), |sizes|) && RootIds([t], lo) == [lo]
    ensures LayoutAll([t], lo, sizes) == Layout(t, lo, sizes)
  {
    hide Layout, InRange;
    assert CellsOfAll([t]) == CellsOf(t) by {
      assert CellsOfAll([t]) == CellsOf(t) + CellsOfAll([]);
      assert CellsOfAll([]) == [];
    }
    LayoutAllCons([t], lo, sizes);
    LayoutAllNone(lo + Size(t), sizes);
  }

  lemma RootIdsNone(kids: seq<OutTree>, lo: nat)
    ensures |RootIds(kids, lo)| == |kids|
  {
  }

  lemma PrunedFrom(s: Source, at: seq<seq<nat>>, v: nat, kids: seq<OutTree>, sizes: seq<nat>)
    requires IsTree(s) && v < |s.h| == |at| && InRange(CellsOfAll(kids), |sizes|) && InRange(at[v], |sizes|)
    requires kids == if s.h[v].cells then [] else PrunedKids(s, at, v, |s.h[v].children|)
    ensures InRange(CellsLeft(Pruned(s, at, v)), |sizes|)
    ensures var node := s.h[v];
      Pruned(s, at, v) ==
        if |kids| == 0 && |at[v]| == 0 then None
        else if |kids| == 0 then Some(OutTree(node.centroid, node.radius, [], at[v]))
        else if |at[v]| > 0 then
          Some(OutTree(node.centroid, node.radius, kids + [OutTree(node.centroid, 0.0, [], at[v])], []))
        else Some(OutTree(node.centroid, node.radius, kids, []))
  {
    hide IsTree, InRange, PrunedKids;
    InRangeParts(CellsOfAll(kids), at[v], |sizes|);
    var leaf := OutTree(s.h[v].centroid, 0.0, [], at[v]);
    CellsOfAllAppend(kids, leaf);
    assert CellsOfAll([]) == [] && at[v] + [] == at[v] && CellsOf(leaf) == at[v];
    assert [] + CellsOfAll(kids) == CellsOfAll(kids);
    assert [] + CellsOfAll(kids + [leaf]) == CellsOfAll(kids) + at[v];
    NoneInRange(|sizes|);
  }

  lemma NoneInRange(n: nat)
    ensures InRange([], n)
  {
  }

  lemma LeafLayout(centroid: seq<real>, radius: real, cells: seq<nat>, lo: nat, sizes: seq<nat>)
    requires InRange(cells, |sizes|)
    ensures var leaf := OutTree(centroid, radius, [], cells);
      && InRange(CellsOf(leaf), |sizes|)
      && Layout(leaf, lo, sizes) == [HNode(centroid, cells, true, PopulationOf(cells, sizes), radius)]
  {
    assert CellsOfAll([]) == [] && cells + [] == cells;
    LayoutAllNone(lo + 1, sizes);
  }

  /** The vectors in a list of Cells, as the leaf code sums them. */
  function PopulationOf(cells: seq<nat>, sizes: seq<nat>): nat
    requires InRange(cells, |sizes|)
  {
    Population(cells, sizes)
  }

  function DescendantSum(out: seq<HNode>, ids: seq<nat>): nat
    requires forall i :: 0 <= i < |ids| ==> ids[i] < |out|
  {
    if |ids| == 0 then 0 else out[ids[0]].descendants + DescendantSum(out, ids[1..])
  }

  /** Summing the counts of the child nodes counts the vectors of all Cells below them. */
  lemma {:induction false} KidsDescendants(out: seq<HNode>, ts: seq<OutTree>, lo: nat, sizes: seq<nat>,
                                           before: seq<HNode>, gap: HNode)
    requires InRange(CellsOfAll(ts), |sizes|) && lo == |before| + 1
    requires out == before + [gap] + LayoutAll(ts, lo, sizes)
    ensures forall i :: 0 <= i < |RootIds(ts, lo)| ==> RootIds(ts, lo)[i] < |out|
    ensures DescendantSum(out, RootIds(ts, lo)) == Population(CellsOfAll(ts), sizes)
  {
    SliceDescendants(out, ts, lo, sizes);
  }

  lemma {:induction false} SliceDescendants(out: seq<HNode>, ts: seq<OutTree>, lo: nat, sizes: seq<nat>)
    requires InRange(CellsOfAll(ts), |sizes|) && lo + SizeAll(ts) <= |out|
    requires out[lo..lo + SizeAll(ts)] == LayoutAll(ts, lo, sizes)
    ensures forall i :: 0 <= i < |RootIds(ts, lo)| ==> RootIds(ts, lo)[i] < |out|
    ensures DescendantSum(out, RootIds(ts, lo)) == Population(CellsOfAll(ts), sizes)
    decreases ts
  {
    hide Layout, LayoutAll, RootIds, SizeAll, Size, CellsOf, CellsOfAll, InRange, Population;
    if |ts| > 0 {
      LayoutAllCons(ts, lo, sizes);
      var next := lo + Size(ts[0]);
      var first, rest := Layout(ts[0], lo, sizes), LayoutAll(ts[1..], next, sizes);
      var all := out[lo..lo + SizeAll(ts)];
      assert all[..|first|] == first && all[|first|..] == rest;
      assert out[next..next + SizeAll(ts[1..])] == all[|first|..];
      assert out[lo] == all[0] == first[0];
      LayoutRoot(ts[0], lo, sizes);
      SliceDescendants(out, ts[1..], next, sizes);
      CellsOfCons(ts);
      PopulationAdds(CellsOf(ts[0]), CellsOfAll(ts[1..]), sizes);
      assert RootIds(ts, lo)[0] == lo && RootIds(ts, lo)[1..] == RootIds(ts[1..], next);
    } else {
      NoDescendants(out, lo, sizes);
    }
  }

  lemma NoDescendants(out: seq<HNode>, lo: nat, sizes: seq<nat>)
    ensures RootIds([], lo) == [] && CellsOfAll([]) == [] && InRange([], |sizes|) && Population([], sizes) == 0
  {
  }

  lemma CellsOfCons(ts: seq<OutTree>)
    requires |ts| > 0
    ensures CellsOfAll(ts) == CellsOf(ts[0]) + CellsOfAll(ts[1..])
  {
  }

  lemma LayoutRoot(t: OutTree, lo: nat, sizes: seq<nat>)
    requires InRange(CellsOf(t), |sizes|)
    ensures |Layout(t, lo, sizes)| == Size(t) && Layout(t, lo, sizes)[0].descendants == Population(CellsOf(t), sizes)
  {
  }

  lemma FillGap(before: seq<HNode>, gap: HNode, rest: seq<HNode>, x: HNode)
    ensures (before + [gap] + rest)[|before| := x] == before + ([x] + rest)
  {
  }

  lemma InnerCells(centroid: seq<real>, radius: real, kids: seq<OutTree>)
    ensures CellsOf(OutTree(centroid, radius, kids, [])) == CellsOfAll(kids)
  {
    hide CellsOfAll;
    assert [] + CellsOfAll(kids) == CellsOfAll(kids);
  }

  lemma LayoutUnfolds(t: OutTree, lo: nat, sizes: seq<nat>)
    requires InRange(CellsOf(t), |sizes|) && |t.kids| > 0
    ensures InRange(CellsOfAll(t.kids), |sizes|)
    ensures Layout(t, lo, sizes) ==
      [HNode(t.centroid, RootIds(t.kids, lo + 1), false, Population(CellsOf(t), sizes), t.radius)]
      + LayoutAll(t.kids, lo + 1, sizes)
  {
    hide LayoutAll, RootIds, CellsOfAll, InRange, Population;
    InRangeParts(t.cells, CellsOfAll(t.kids), |sizes|);
  }

  /** An inner node in front of its laid-out kids is the layout of the whole subtree. */
  lemma NodeLayout(centroid: seq<real>, radius: real, kids: seq<OutTree>, lo: nat, sizes: seq<nat>)
    requires |kids| > 0 && InRange(CellsOfAll(kids), |sizes|)
    ensures var t := OutTree(centroid, radius, kids, []);
      && InRange(CellsOf(t), |sizes|)
      && [HNode(centroid, RootIds(kids, lo + 1), false, Population(CellsOfAll(kids), sizes), radius)]
         + LayoutAll(kids, lo + 1, sizes) == Layout(t, lo, sizes)
  {
    hide LayoutAll, RootIds, CellsOfAll, CellsOf, Layout, RootNode, Population, Size, SizeAll;
    InnerCells(centroid, radius, kids);
    LayoutUnfolds(OutTree(centroid, radius, kids, []), lo, sizes);
  }
}
