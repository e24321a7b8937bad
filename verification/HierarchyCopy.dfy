/**
  The short path of materialize_pair_merges in python/train_geometric_cells.py: without pairs
  the hierarchy below the root is copied in preorder. What the copy is, for any hierarchy in
  which the recursion ends, and for a tree in particular.
 */
module HierarchyCopy {
  import opened Common
  import opened HierarchyTree
  import opened HierarchySurgery
  import opened HierarchyOutput

  /** No path of listed nodes from `v` is longer than `d`, so the recursion ends. */
  predicate Ends(h: seq<HNode>, v: nat, d: nat)
    decreases d
  {
    || v >= |h| || h[v].cells || |h[v].children| == 0
    || (d > 0 && forall i :: 0 <= i < |h[v].children| ==> Ends(h, h[v].children[i], d - 1))
  }

  /** The recursion ends and every node that it meets exists. */
  predicate Sound(h: seq<HNode>, v: nat, d: nat)
    decreases d
  {
    && v < |h|
    && (|| h[v].cells || |h[v].children| == 0
        || (d > 0 && forall i :: 0 <= i < |h[v].children| ==> Sound(h, h[v].children[i], d - 1)))
  }

  lemma {:induction false} SoundAtAnyDepth(h: seq<HNode>, v: nat, d: nat, e: nat)
    requires Sound(h, v, d) && Ends(h, v, e)
    ensures Sound(h, v, e)
    decreases d
  {
    if !h[v].cells && |h[v].children| > 0 {
      forall i | 0 <= i < |h[v].children| ensures Sound(h, h[v].children[i], e - 1) {
        SoundAtAnyDepth(h, h[v].children[i], d - 1, e - 1);
      }
    }
  }

  // ---------- The copy ----------

  /** The copy of what hangs under `v`, `d` levels deep at most, when its root gets the id `lo`. */
  function Unfold(h: seq<HNode>, v: nat, lo: nat, d: nat): (nodes: seq<HNode>)
    decreases d, 0, 0
  {
    if v >= |h| then []
    else if h[v].cells || d == 0 then [h[v]]
    else
      var node, n := h[v], |h[v].children|;
      [HNode(node.centroid, UnfoldIds(h, node.children, n, lo + 1, d - 1), false, node.descendants, node.radius)]
      + UnfoldKids(h, node.children, n, lo + 1, d - 1)
  }

  /** The copies of the first `n` listed nodes, one after another from `lo`. */
  function UnfoldKids(h: seq<HNode>, kids: seq<nat>, n: nat, lo: nat, d: nat): seq<HNode>
    requires n <= |kids|
    decreases d, 1, n
  {
    if n == 0 then []
    else
      var before := UnfoldKids(h, kids, n - 1, lo, d);
      before + Unfold(h, kids[n - 1], lo + |before|, d)
  }

  function UnfoldIds(h: seq<HNode>, kids: seq<nat>, n: nat, lo: nat, d: nat): (ids: seq<nat>)
    requires n <= |kids|
    ensures |ids| == n
    decreases d, 1, n
  {
    if n == 0 then [] else UnfoldIds(h, kids, n - 1, lo, d) + [lo + |UnfoldKids(h, kids, n - 1, lo, d)|]
  }

  lemma UnfoldLeaf(h: seq<HNode>, v: nat, lo: nat, d: nat)
    requires v < |h| && (h[v].cells || h[v].children == [])
    ensures Unfold(h, v, lo, d) == [h[v]]
  {
    if !h[v].cells && d > 0 {
      assert Unfold(h, v, lo, d) == [h[v]] + [];
    }
  }

  lemma UnfoldInner(h: seq<HNode>, v: nat, lo: nat, d: nat)
    requires v < |h| && !h[v].cells && d > 0
    ensures var node, n := h[v], |h[v].children|;
      Unfold(h, v, lo, d) ==
        [HNode(node.centroid, UnfoldIds(h, node.children, n, lo + 1, d - 1), false, node.descendants, node.radius)]
        + UnfoldKids(h, node.children, n, lo + 1, d - 1)
  {
    hide UnfoldKids, UnfoldIds;
  }

  // ---------- The writer ----------

  class HierarchyCopier {
    const h: seq<HNode>
    var out: seq<HNode>

    constructor (nodes: seq<HNode>)
      ensures out == [] && h == nodes
    {
      h, out := nodes, [];
    }

    /** Append the copy of the subtree at `v`; None when a listed node does not exist. */
    method Append(v: nat, ghost d: nat) returns (id: Option<nat>)
      requires Ends(h, v, d)
      modifies this`out
      ensures id.Some? <==> Sound(h, v, d)
      ensures id.Some? ==> id.value == |old(out)| && out == old(out) + Unfold(h, v, id.value, d)
      decreases d, 0
    {
      hide Unfold, UnfoldKids, UnfoldIds;
      if v >= |h| {
        return None;
      }
      var node, at := h[v], |out|;
      ghost var before := out;
      out := out + [HNode(node.centroid, if node.cells then node.children else [], node.cells, node.descendants, node.radius)];
      if !node.cells && |node.children| > 0 {
        var ids := AppendKids(node.children, d - 1);
        if ids.None? {
          return None;
        }
        UnfoldInner(h, v, at, d);
        FillGap(before, HNode(node.centroid, [], false, node.descendants, node.radius),
                UnfoldKids(h, node.children, |node.children|, at + 1, d - 1),
                HNode(node.centroid, ids.value, false, node.descendants, node.radius));
        out := out[at := out[at].(children := ids.value)];
      } else {
        UnfoldLeaf(h, v, at, d);
      }
      return Some(at);
    }

    method AppendKids(kids: seq<nat>, ghost d: nat) returns (ids: Option<seq<nat>>)
      requires forall i :: 0 <= i < |kids| ==> Ends(h, kids[i], d)
      modifies this`out
      ensures ids.Some? <==> forall i :: 0 <= i < |kids| ==> Sound(h, kids[i], d)
      ensures ids.Some? ==>
        && ids.value == UnfoldIds(h, kids, |kids|, |old(out)|, d)
        && out == old(out) + UnfoldKids(h, kids, |kids|, |old(out)|, d)
      decreases d, 1
    {
      hide Unfold, Ends, Sound;
      var list: seq<nat> := [];
      ghost var before := out;
      for i := 0 to |kids|
        invariant list == UnfoldIds(h, kids, i, |before|, d) && out == before + UnfoldKids(h, kids, i, |before|, d)
        invariant forall j :: 0 <= j < i ==> Sound(h, kids[j], d)
      {
        var id := Append(kids[i], d);
        if id.None? {
          return None;
        }
        list := list + [id.value];
      }
      return Some(list);
    }
  }

  // ---------- The copy renumbers the source in preorder ----------

  /** The source nodes in the order in which they are copied. */
  function Preorder(h: seq<HNode>, v: nat, d: nat): (order: seq<nat>)
    decreases d, 0, 0
  {
    if v >= |h| then []
    else if h[v].cells || d == 0 then [v]
    else [v] + PreorderKids(h, h[v].children, |h[v].children|, d - 1)
  }

  function PreorderKids(h: seq<HNode>, kids: seq<nat>, n: nat, d: nat): (order: seq<nat>)
    requires n <= |kids|
    decreases d, 1, n
  {
    if n == 0 then [] else PreorderKids(h, kids, n - 1, d) + Preorder(h, kids[n - 1], d)
  }

  /** `node`, the copy of `order[i]`, has the id `lo + i`; its children are copies of the listed nodes, behind it. */
  ghost predicate CopyOf(h: seq<HNode>, order: seq<nat>, lo: nat, node: HNode, i: nat) {
    && i < |order| && order[i] < |h|
    && var source := h[order[i]];
      && node.centroid == source.centroid && node.cells == source.cells
      && node.descendants == source.descendants && node.radius == source.radius
      && if source.cells then node.children == source.children
         else
           && |node.children| == |source.children|
           && forall j :: 0 <= j < |source.children| ==>
                && lo + i < node.children[j] < lo + |order|
                && order[node.children[j] - lo] == source.children[j]
  }

  ghost predicate Renumbers(h: seq<HNode>, order: seq<nat>, lo: nat, nodes: seq<HNode>) {
    |nodes| == |order| && forall i :: 0 <= i < |nodes| ==> CopyOf(h, order, lo, nodes[i], i)
  }

  lemma RenumbersJoins(h: seq<HNode>, a: seq<nat>, b: seq<nat>, lo: nat, x: seq<HNode>, y: seq<HNode>)
    requires Renumbers(h, a, lo, x) && Renumbers(h, b, lo + |a|, y)
    ensures Renumbers(h, a + b, lo, x + y)
  {
    forall i | 0 <= i < |x + y| ensures CopyOf(h, a + b, lo, (x + y)[i], i) {
      if i < |x| {
        assert CopyOf(h, a, lo, x[i], i);
      } else {
        assert CopyOf(h, b, lo + |a|, y[i - |x|], i - |x|);
      }
    }
  }

  /** The ids written into a node are those of the copies of its listed nodes. */
  ghost predicate PointsTo(order: seq<nat>, kids: seq<nat>, ids: seq<nat>, n: nat, lo: nat) {
    n <= |kids| && n <= |ids|
    && forall j :: 0 <= j < n ==> lo <= ids[j] < lo + |order| && order[ids[j] - lo] == kids[j]
  }

  /** The copy is the source renumbered in preorder. */
  lemma {:induction false} UnfoldRenumbers(h: seq<HNode>, v: nat, lo: nat, d: nat)
    requires Sound(h, v, d)
    ensures Renumbers(h, Preorder(h, v, d), lo, Unfold(h, v, lo, d))
    ensures |Preorder(h, v, d)| > 0 && Preorder(h, v, d)[0] == v
    decreases d, 0, 0
  {
    hide UnfoldKids, UnfoldIds, PreorderKids, Renumbers, PointsTo, Ends;
    if h[v].cells || d == 0 {
      UnfoldLeaf(h, v, lo, d);
      RenumbersLeaf(h, v, lo);
    } else {
      var kids, n := h[v].children, |h[v].children|;
      KidsRenumber(h, kids, n, lo + 1, d - 1);
      RenumbersRoot(h, v, lo, PreorderKids(h, kids, n, d - 1), UnfoldIds(h, kids, n, lo + 1, d - 1),
                    UnfoldKids(h, kids, n, lo + 1, d - 1));
    }
  }

  lemma RenumbersLeaf(h: seq<HNode>, v: nat, lo: nat)
    requires v < |h| && (h[v].cells || h[v].children == [])
    ensures Renumbers(h, [v], lo, [h[v]])
  {
  }

  lemma RenumbersRoot(h: seq<HNode>, v: nat, lo: nat, order: seq<nat>, ids: seq<nat>, rest: seq<HNode>)
    requires v < |h| && !h[v].cells && |ids| == |h[v].children|
    requires Renumbers(h, order, lo + 1, rest) && PointsTo(order, h[v].children, ids, |ids|, lo + 1)
    ensures Renumbers(h, [v] + order, lo, [HNode(h[v].centroid, ids, false, h[v].descendants, h[v].radius)] + rest)
  {
    var root, all := HNode(h[v].centroid, ids, false, h[v].descendants, h[v].radius), [v] + order;
    assert CopyOf(h, all, lo, root, 0);
    forall i | 0 < i < |all| ensures CopyOf(h, all, lo, ([root] + rest)[i], i) {
      assert CopyOf(h, order, lo + 1, rest[i - 1], i - 1);
    }
  }

  lemma {:induction false} KidsRenumber(h: seq<HNode>, kids: seq<nat>, n: nat, lo: nat, d: nat)
    requires n <= |kids| && forall i :: 0 <= i < n ==> Sound(h, kids[i], d)
    ensures Renumbers(h, PreorderKids(h, kids, n, d), lo, UnfoldKids(h, kids, n, lo, d))
    ensures PointsTo(PreorderKids(h, kids, n, d), kids, UnfoldIds(h, kids, n, lo, d), n, lo)
    decreases d, 1, n
  {
    hide Unfold, Preorder, Renumbers, PointsTo, Sound;
    if n == 0 {
      RenumbersNothing(h, kids, lo);
    } else {
      KidsRenumber(h, kids, n - 1, lo, d);
      var order, nodes := PreorderKids(h, kids, n - 1, d), UnfoldKids(h, kids, n - 1, lo, d);
      RenumbersLength(h, order, lo, nodes);
      UnfoldRenumbers(h, kids[n - 1], lo + |nodes|, d);
      RenumbersJoins(h, order, Preorder(h, kids[n - 1], d), lo, nodes, Unfold(h, kids[n - 1], lo + |nodes|, d));
      PointsToJoins(order, Preorder(h, kids[n - 1], d), kids, UnfoldIds(h, kids, n - 1, lo, d), n - 1, lo);
    }
  }

  lemma RenumbersNothing(h: seq<HNode>, kids: seq<nat>, lo: nat)
    ensures Renumbers(h, [], lo, []) && PointsTo([], kids, [], 0, lo)
  {
  }

  lemma RenumbersLength(h: seq<HNode>, order: seq<nat>, lo: nat, nodes: seq<HNode>)
    requires Renumbers(h, order, lo, nodes)
    ensures |order| == |nodes|
  {
  }

  lemma PointsToJoins(order: seq<nat>, more: seq<nat>, kids: seq<nat>, ids: seq<nat>, n: nat, lo: nat)
    requires PointsTo(order, kids, ids, n, lo) && n < |kids| && |ids| == n && |more| > 0 && more[0] == kids[n]
    ensures PointsTo(order + more, kids, ids + [lo + |order|], n + 1, lo)
  {
  }

  // ---------- The copy of a tree ----------

  /** The copy of the subtree at `v` of a tree when its root gets the id `lo`. */
  function Copy(s: Source, v: nat, lo: nat): seq<HNode>
    requires IsTree(s) && v < |s.h|
  {
    NodeFacts(s, v);
    Unfold(s.h, v, lo, s.bound - s.depths[v])
  }

  ghost function Order(s: Source, v: nat): seq<nat>
    requires IsTree(s) && v < |s.h|
  {
    NodeFacts(s, v);
    Preorder(s.h, v, s.bound - s.depths[v])
  }

  ghost function KidsOrder(s: Source, v: nat, n: nat): seq<nat>
    requires IsTree(s) && v < |s.h| && !s.h[v].cells && n <= |s.h[v].children|
  {
    if n == 0 then []
    else
      ChildFacts(s, v, 0);
      PreorderKids(s.h, s.h[v].children, n, s.bound - s.depths[v] - 1)
  }

  lemma {:induction false} TreeIsSound(s: Source, v: nat)
    requires IsTree(s) && v < |s.h|
    ensures 0 <= s.depths[v] <= s.bound && Sound(s.h, v, s.bound - s.depths[v])
    decreases |s.h|, s.bound - s.depths[v]
  {
    hide IsTree;
    NodeFacts(s, v);
    var d := s.bound - s.depths[v];
    if !s.h[v].cells && |s.h[v].children| > 0 {
      ChildFacts(s, v, 0);
      forall i | 0 <= i < |s.h[v].children| ensures Sound(s.h, s.h[v].children[i], d - 1) {
        ChildFacts(s, v, i);
        TreeIsSound(s, s.h[v].children[i]);
      }
    }
  }

  /** The order lists these nodes, each once. */
  ghost predicate Orders(s: Source, order: seq<nat>, inside: iset<nat>) {
    && InRange(order, |s.h|)
    && forall u :: 0 <= u < |s.h| ==> Occurrences(order, u) == if u in inside then 1 else 0
  }

  lemma OrdersJoins(s: Source, a: seq<nat>, b: seq<nat>, i: iset<nat>, j: iset<nat>)
    requires Orders(s, a, i) && Orders(s, b, j) && i !! j
    ensures Orders(s, a + b, i + j)
  {
    InRangeParts(a, b, |s.h|);
    forall u | 0 <= u < |s.h| ensures Occurrences(a + b, u) == if u in i + j then 1 else 0 {
      OccurrencesAdd(a, b, u);
    }
  }

  lemma OrdersOne(s: Source, v: nat)
    requires v < |s.h|
    ensures Orders(s, [v], iset{v})
  {
  }

  /** Every node of the subtree is copied exactly once. */
  lemma {:induction false} OrderIsSubtree(s: Source, v: nat)
    requires IsTree(s) && v < |s.h|
    ensures Orders(s, Order(s, v), SubtreeNodes(s, v))
    decreases |s.h|, s.bound - s.depths[v], 1, 0
  {
    hide IsTree, Orders, SubtreeNodes, KidNodes;
    NodeFacts(s, v);
    SubtreeIsKidsAndSelf(s, v);
    OrdersOne(s, v);
    if !s.h[v].cells {
      var n := |s.h[v].children|;
      KidsOrderIsSubtrees(s, v, n);
      OrdersJoins(s, [v], KidsOrder(s, v, n), iset{v}, KidNodes(s, v, n));
      OrderInner(s, v);
      assert iset{v} + KidNodes(s, v, n) == KidNodes(s, v, n) + iset{v};
    }
  }

  lemma OrderInner(s: Source, v: nat)
    requires IsTree(s) && v < |s.h| && !s.h[v].cells
    ensures Order(s, v) == [v] + KidsOrder(s, v, |s.h[v].children|)
  {
    hide IsTree;
    NodeFacts(s, v);
    if |s.h[v].children| > 0 {
      ChildFacts(s, v, 0);
    } else if s.bound > s.depths[v] {
      assert PreorderKids(s.h, s.h[v].children, 0, s.bound - s.depths[v] - 1) == [];
    }
  }

  lemma KidsOrderStep(s: Source, v: nat, n: nat)
    requires IsTree(s) && v < |s.h| && !s.h[v].cells && n < |s.h[v].children|
    ensures s.h[v].children[n] < |s.h|
    ensures KidsOrder(s, v, n + 1) == KidsOrder(s, v, n) + Order(s, s.h[v].children[n])
  {
    ChildFacts(s, v, 0);
    ChildFacts(s, v, n);
    NodeFacts(s, v);
    var kids, d := s.h[v].children, s.bound - s.depths[v] - 1;
    assert PreorderKids(s.h, kids, n + 1, d) == PreorderKids(s.h, kids, n, d) + Preorder(s.h, kids[n], d);
    assert KidsOrder(s, v, n) == PreorderKids(s.h, kids, n, d);
  }

  lemma {:induction false} KidsOrderIsSubtrees(s: Source, v: nat, n: nat)
    requires IsTree(s) && v < |s.h| && !s.h[v].cells && n <= |s.h[v].children|
    ensures Orders(s, KidsOrder(s, v, n), KidNodes(s, v, n))
    decreases |s.h|, s.bound - s.depths[v], 0, n
  {
    hide IsTree, Orders, SubtreeNodes, KidNodes, KidsOrder, Order;
    if n == 0 {
      NothingOrdered(s, v);
    } else {
      var c := s.h[v].children[n - 1];
      ChildFacts(s, v, n - 1);
      NodeFacts(s, c);
      KidNodesStep(s, v, n - 1);
      KidsOrderStep(s, v, n - 1);
      KidsOrderIsSubtrees(s, v, n - 1);
      OrderIsSubtree(s, c);
      OrdersJoins(s, KidsOrder(s, v, n - 1), Order(s, c), KidNodes(s, v, n - 1), SubtreeNodes(s, c));
    }
  }

  lemma NothingOrdered(s: Source, v: nat)
    requires IsTree(s) && v < |s.h| && !s.h[v].cells
    ensures KidsOrder(s, v, 0) == [] && Orders(s, KidsOrder(s, v, 0), KidNodes(s, v, 0))
  {
    hide IsTree;
    assert forall u :: 0 <= u < |s.h| ==> !UnderSome(s, v, 0, u);
  }

  /** The order of a whole tree lists every node once, the root first. */
  ghost predicate Bijection(order: seq<nat>, n: nat, root: int) {
    && |order| > 0 && order[0] == root && NoDup(order)
    && (forall i :: 0 <= i < |order| ==> order[i] < n)
    && (forall u :: 0 <= u < n ==> u in order)
  }

  lemma OrderIsBijection(s: Source)
    requires IsTree(s) && 0 <= s.root < |s.h|
    ensures Bijection(Order(s, s.root), |s.h|, s.root)
  {
    hide IsTree, Under, Preorder;
    NodeFacts(s, s.root);
    var order := Order(s, s.root);
    OrderIsSubtree(s, s.root);
    TreeIsSound(s, s.root);
    UnfoldRenumbers(s.h, s.root, 0, s.bound - s.depths[s.root]);
    forall u | 0 <= u < |s.h| ensures Occurrences(order, u) == 1 && u in order {
      RootIsAboveAll(s, u);
      assert u in SubtreeNodes(s, s.root);
    }
    forall i, j | 0 <= i < j < |order| ensures order[i] != order[j] {
      if order[i] == order[j] {
        RepeatOccurs(order, i, j);
      }
    }
  }

  /** The tables of the copy: the source's, renumbered. */
  ghost function CopyTables(s: Source): (c: Source)
    requires IsTree(s) && 0 <= s.root < |s.h| && Bijection(Order(s, s.root), |s.h|, s.root)
    ensures c.root == 0 && c.h == Copy(s, s.root, 0) && c.bound == s.bound
    ensures |c.parents| == |c.depths| == |Order(s, s.root)| && |c.leaves| == |s.leaves|
    ensures var order := Order(s, s.root);
      && (forall i :: 0 <= i < |order| ==> c.parents[i] == Renumbered(order, s.parents[order[i]]))
      && (forall i :: 0 <= i < |order| ==> c.depths[i] == s.depths[order[i]])
      && (forall k :: 0 <= k < |s.leaves| ==> c.leaves[k] == Renumbered(order, s.leaves[k]))
  {
    var order := Order(s, s.root);
    Source(0, Copy(s, s.root, 0),
           seq(|order|, i requires 0 <= i < |order| => Renumbered(order, s.parents[order[i]])),
           seq(|order|, i requires 0 <= i < |order| => s.depths[order[i]]),
           seq(|s.leaves|, k requires 0 <= k < |s.leaves| => Renumbered(order, s.leaves[k])), s.bound)
  }

  /** The new id of a node; -1 stays -1. */
  function Renumbered(order: seq<nat>, u: int): int {
    if u < 0 then -1 else IndexOf(order, u)
  }

  /** The copy of a tree is a tree; parents, depths and leaves are the source's under the new numbers. */
  lemma CopyIsTree(s: Source)
    requires IsTree(s) && 0 <= s.root < |s.h|
    ensures Bijection(Order(s, s.root), |s.h|, s.root) && IsTree(CopyTables(s))
    ensures Renumbers(s.h, Order(s, s.root), 0, Copy(s, s.root, 0))
    ensures HasTree(0, Copy(s, s.root, 0), |s.leaves|)
  {
    hide IsTree, Renumbers, Preorder, Unfold;
    NodeFacts(s, s.root);
    OrderIsBijection(s);
    TreeIsSound(s, s.root);
    UnfoldRenumbers(s.h, s.root, 0, s.bound - s.depths[s.root]);
    RenumbersLength(s.h, Order(s, s.root), 0, Copy(s, s.root, 0));
    var order, c := Order(s, s.root), CopyTables(s);
    assert IsTree(c) by {
      RenumberedIsTree(s, order, c);
    }
  }

  /** `c` is `s` under the new numbers. */
  ghost predicate Retables(s: Source, order: seq<nat>, c: Source) {
    && c.root == 0 && c.bound == s.bound && |s.parents| == |s.depths| == |s.h|
    && |c.h| == |c.parents| == |c.depths| == |order| && |c.leaves| == |s.leaves|
    && (forall i :: 0 <= i < |order| ==>
          && order[i] < |s.h|
          && c.parents[i] == Renumbered(order, s.parents[order[i]]) && c.depths[i] == s.depths[order[i]])
    && (forall k :: 0 <= k < |s.leaves| ==> c.leaves[k] == Renumbered(order, s.leaves[k]))
  }

  lemma PositionIs(order: seq<nat>, n: nat, root: int, i: nat)
    requires Bijection(order, n, root) && i < |order|
    ensures Renumbered(order, order[i]) == i
  {
    var j := IndexOf(order, order[i]);
    assert order[i] in order;
    assert order[j] == order[i];
  }

  lemma PositionOf(order: seq<nat>, n: nat, root: int, u: int)
    requires Bijection(order, n, root) && 0 <= u < n
    ensures 0 <= Renumbered(order, u) < |order| && order[Renumbered(order, u)] == u
  {
    assert u in order;
  }

  lemma RenumberedIsTree(s: Source, order: seq<nat>, c: Source)
    requires IsTree(s) && Bijection(order, |s.h|, s.root) && Retables(s, order, c)
    requires Renumbers(s.h, order, 0, c.h)
    ensures IsTree(c)
  {
    hide Complete, Bijection, IsTree, Renumbered;
    RootFacts(s, order, c);
    forall i | 0 <= i < |c.h| ensures Complete(c.h, c.parents, c.depths, c.leaves, i) && c.depths[i] <= c.bound {
      NodeFacts(s, order[i]);
      CopyIsComplete(s, order, c, i);
    }
    forall i | 0 <= i < |c.h|
      ensures c.depths[i] >= 0 && (i == 0 ==> c.parents[i] == -1 && c.depths[i] == 0)
      ensures i != 0 ==>
        var p := c.parents[i];
        0 <= p < |c.h| && !c.h[p].cells && i in c.h[p].children && c.depths[i] == c.depths[p] + 1
    {
      ParentRenumbered(s, order, c, i);
    }
    forall k | 0 <= k < |c.leaves|
      ensures 0 <= c.leaves[k] < |c.h| && c.h[c.leaves[k]].cells && k in c.h[c.leaves[k]].children
    {
      LeafRenumbered(s, order, c, k);
    }
    FromParts(c);
  }

  lemma RootFacts(s: Source, order: seq<nat>, c: Source)
    requires IsTree(s) && Bijection(order, |s.h|, s.root) && Retables(s, order, c)
    ensures |order| > 0
  {
  }

  lemma FromParts(c: Source)
    requires |c.parents| == |c.depths| == |c.h| && c.root == 0 && |c.h| > 0
    requires forall i :: 0 <= i < |c.h| ==> Complete(c.h, c.parents, c.depths, c.leaves, i) && c.depths[i] <= c.bound
    requires forall i :: 0 <= i < |c.h| ==> c.depths[i] >= 0 && (i == 0 ==> c.parents[i] == -1 && c.depths[i] == 0)
    requires forall i :: 0 < i < |c.h| ==>
      var p := c.parents[i];
      0 <= p < |c.h| && !c.h[p].cells && i in c.h[p].children && c.depths[i] == c.depths[p] + 1
    requires forall k :: 0 <= k < |c.leaves| ==>
      0 <= c.leaves[k] < |c.h| && c.h[c.leaves[k]].cells && k in c.h[c.leaves[k]].children
    ensures IsTree(c)
  {
    hide Complete;
  }

  lemma ParentRenumbered(s: Source, order: seq<nat>, c: Source, i: nat)
    requires IsTree(s) && Bijection(order, |s.h|, s.root) && Retables(s, order, c)
    requires Renumbers(s.h, order, 0, c.h) && i < |c.h|
    ensures c.depths[i] >= 0 && (i == 0 ==> c.parents[i] == -1 && c.depths[i] == 0)
    ensures i != 0 ==>
      var p := c.parents[i];
      0 <= p < |c.h| && !c.h[p].cells && i in c.h[p].children && c.depths[i] == c.depths[p] + 1
  {
    hide CopyOf, Renumbered, Complete;
    var u := order[i];
    NodeFacts(s, u);
    if i == 0 {
      NoParent(order, s.parents[s.root]);
    } else {
      assert u != s.root;
      var w := s.parents[u];
      PositionOf(order, |s.h|, s.root, w);
      var p := Renumbered(order, w);
      var j :| 0 <= j < |s.h[w].children| && s.h[w].children[j] == u;
      ChildRenumbered(s, order, c, p, j);
      assert order[c.h[p].children[j]] == u;
    }
  }

  lemma NoParent(order: seq<nat>, p: int)
    requires p == -1
    ensures Renumbered(order, p) == -1
  {
  }

  lemma ChildRenumbered(s: Source, order: seq<nat>, c: Source, i: nat, j: nat)
    requires Renumbers(s.h, order, 0, c.h) && i < |c.h|
    requires i < |order| && order[i] < |s.h| && j < |s.h[order[i]].children| && !s.h[order[i]].cells
    ensures !c.h[i].cells && j < |c.h[i].children| == |s.h[order[i]].children|
    ensures c.h[i].children[j] < |order| && order[c.h[i].children[j]] == s.h[order[i]].children[j]
  {
    assert CopyOf(s.h, order, 0, c.h[i], i);
  }

  lemma LeafRenumbered(s: Source, order: seq<nat>, c: Source, k: nat)
    requires IsTree(s) && Bijection(order, |s.h|, s.root) && Retables(s, order, c)
    requires Renumbers(s.h, order, 0, c.h) && k < |c.leaves|
    ensures 0 <= c.leaves[k] < |c.h| && c.h[c.leaves[k]].cells && k in c.h[c.leaves[k]].children
  {
    hide Renumbered;
    var w := s.leaves[k];
    PositionOf(order, |s.h|, s.root, w);
    assert CopyOf(s.h, order, 0, c.h[c.leaves[k]], c.leaves[k]);
  }

  lemma CopyIsComplete(s: Source, order: seq<nat>, c: Source, i: nat)
    requires IsTree(s) && Bijection(order, |s.h|, s.root) && Retables(s, order, c)
    requires Renumbers(s.h, order, 0, c.h) && i < |c.h|
    ensures Complete(c.h, c.parents, c.depths, c.leaves, i)
  {
    hide Renumbered;
    var u := order[i];
    NodeFacts(s, u);
    assert Complete(s.h, s.parents, s.depths, s.leaves, u);
    assert CopyOf(s.h, order, 0, c.h[i], i);
    PositionIs(order, |s.h|, s.root, i);
  }

  /** All depths at which the recursion ends give the same copy. */
  lemma {:induction false} SameUnfold(h: seq<HNode>, v: nat, lo: nat, d: nat, e: nat)
    requires Sound(h, v, d) && Sound(h, v, e)
    ensures Unfold(h, v, lo, d) == Unfold(h, v, lo, e)
    decreases d, 0, 0
  {
    hide UnfoldKids, UnfoldIds;
    if h[v].cells || h[v].children == [] {
      UnfoldLeaf(h, v, lo, d);
      UnfoldLeaf(h, v, lo, e);
    } else {
      SameUnfoldKids(h, h[v].children, |h[v].children|, lo + 1, d - 1, e - 1);
    }
  }

  lemma {:induction false} SameUnfoldKids(h: seq<HNode>, kids: seq<nat>, n: nat, lo: nat, d: nat, e: nat)
    requires n <= |kids| && forall i :: 0 <= i < n ==> Sound(h, kids[i], d) && Sound(h, kids[i], e)
    ensures UnfoldKids(h, kids, n, lo, d) == UnfoldKids(h, kids, n, lo, e)
    ensures UnfoldIds(h, kids, n, lo, d) == UnfoldIds(h, kids, n, lo, e)
    decreases d, 1, n
  {
    hide Unfold, Sound;
    if n > 0 {
      SameUnfoldKids(h, kids, n - 1, lo, d, e);
      SameUnfold(h, kids[n - 1], lo + |UnfoldKids(h, kids, n - 1, lo, d)|, d, e);
    }
  }
}
