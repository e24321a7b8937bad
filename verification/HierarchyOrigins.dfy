/**
  Where the nodes of a merged hierarchy (materialize_pair_merges in python/train_geometric_cells.py)
  come from: each is the image of a source node with output Cells under it, or the one leaf spliced in
  behind a node's children for the Cells placed at the node itself.
 */
module HierarchyOrigins {
  import opened Common
  import opened HierarchyTree
  import opened HierarchySurgery
  import opened HierarchyMerge
  import opened HierarchyOutput

  datatype Origin = Image(v: nat) | Spliced(v: nat)

  /** The source nodes of the output in the order in which the output lists their images. */
  function Origins(s: Source, at: seq<seq<nat>>, v: nat): (order: seq<Origin>)
    requires IsTree(s) && v < |s.h| == |at|
    decreases s.bound - s.depths[v], 1, 0
  {
    NodeFacts(s, v);
    var kids := if s.h[v].cells then [] else KidOrigins(s, at, v, |s.h[v].children|);
    if |kids| == 0 && |at[v]| == 0 then []
    else [Image(v)] + kids + if |kids| > 0 && |at[v]| > 0 then [Spliced(v)] else []
  }

  function KidOrigins(s: Source, at: seq<seq<nat>>, v: nat, n: nat): (order: seq<Origin>)
    requires IsTree(s) && v < |s.h| == |at| && !s.h[v].cells && n <= |s.h[v].children|
    decreases s.bound - s.depths[v], 0, n
  {
    if n == 0 then []
    else
      ChildFacts(s, v, n - 1);
      NodeFacts(s, s.h[v].children[n - 1]);
      KidOrigins(s, at, v, n - 1) + Origins(s, at, s.h[v].children[n - 1])
  }

  /** Those of the first `n` children of `v` that have an image. */
  function LeftKids(s: Source, at: seq<seq<nat>>, v: nat, n: nat): (kids: seq<nat>)
    requires IsTree(s) && v < |s.h| == |at| && !s.h[v].cells && n <= |s.h[v].children|
  {
    if n == 0 then []
    else
      ChildFacts(s, v, n - 1);
      LeftKids(s, at, v, n - 1)
        + if Pruned(s, at, s.h[v].children[n - 1]).Some? then [s.h[v].children[n - 1]] else []
  }

  function AllLeftKids(s: Source, at: seq<seq<nat>>, v: nat): (kids: seq<nat>)
    requires IsTree(s) && v < |s.h| == |at|
  {
    if s.h[v].cells then [] else LeftKids(s, at, v, |s.h[v].children|)
  }

  /** Output id `id` stands for origin `o`, when the ids of `order` start at `lo`. */
  ghost predicate StandsFor(order: seq<Origin>, lo: int, id: int, o: Origin) {
    0 <= id - lo < |order| && order[id - lo] == o
  }

  /** Output ids for the kids of a node, in their order. */
  ghost predicate StandForAll(order: seq<Origin>, lo: int, ids: seq<nat>, kids: seq<nat>) {
    |ids| >= |kids| && forall i :: 0 <= i < |kids| ==> StandsFor(order, lo, ids[i], Image(kids[i]))
  }

  /**
    `node` is what becomes of the origin. An image keeps centroid and radius and lists the images of
    the children that have one, in their order, and behind them the leaf spliced in, if any; without
    such children it lists the Cells placed there. The spliced leaf lists these Cells and has radius 0.
   */
  ghost predicate Becomes(s: Source, at: seq<seq<nat>>, order: seq<Origin>, lo: int, o: Origin, node: HNode)
    requires IsTree(s) && |s.h| == |at|
  {
    && o.v < |s.h| && node.centroid == s.h[o.v].centroid
    && match o
       case Spliced(v) => node.radius == 0.0 && node.cells && node.children == at[v]
       case Image(v) =>
         && node.radius == s.h[v].radius
         && var kids := AllLeftKids(s, at, v);
           if |kids| == 0 then node.cells && node.children == at[v]
           else
             && !node.cells && |node.children| == |kids| + (if |at[v]| > 0 then 1 else 0)
             && StandForAll(order, lo, node.children, kids)
             && (|at[v]| > 0 ==> StandsFor(order, lo, node.children[|kids|], Spliced(v)))
  }

  ghost predicate BecomeAll(s: Source, at: seq<seq<nat>>, order: seq<Origin>, lo: int, part: seq<Origin>,
                            nodes: seq<HNode>)
    requires IsTree(s) && |s.h| == |at|
  {
    |part| == |nodes| && forall j :: 0 <= j < |part| ==> Becomes(s, at, order, lo, part[j], nodes[j])
  }

  // ---------- Seen in a longer output ----------

  lemma StandsInLonger(a: seq<Origin>, order: seq<Origin>, b: seq<Origin>, lo: int, id: int, o: Origin)
    requires StandsFor(order, lo, id, o)
    ensures StandsFor(a + order + b, lo - |a|, id, o)
  {
    assert (a + order + b)[|a| + (id - lo)] == order[id - lo];
  }

  lemma AllStandInLonger(a: seq<Origin>, order: seq<Origin>, b: seq<Origin>, lo: int, ids: seq<nat>, kids: seq<nat>)
    requires StandForAll(order, lo, ids, kids)
    ensures StandForAll(a + order + b, lo - |a|, ids, kids)
  {
    forall i | 0 <= i < |kids| ensures StandsFor(a + order + b, lo - |a|, ids[i], Image(kids[i])) {
      StandsInLonger(a, order, b, lo, ids[i], Image(kids[i]));
    }
  }

  lemma BecomesInLonger(s: Source, at: seq<seq<nat>>, a: seq<Origin>, order: seq<Origin>, b: seq<Origin>, lo: int,
                        o: Origin, node: HNode)
    requires IsTree(s) && |s.h| == |at| && Becomes(s, at, order, lo, o, node)
    ensures Becomes(s, at, a + order + b, lo - |a|, o, node)
  {
    hide IsTree, StandsFor, StandForAll, AllLeftKids;
    if o.Image? && |AllLeftKids(s, at, o.v)| > 0 {
      AllStandInLonger(a, order, b, lo, node.children, AllLeftKids(s, at, o.v));
      if |at[o.v]| > 0 {
        StandsInLonger(a, order, b, lo, node.children[|AllLeftKids(s, at, o.v)|], Spliced(o.v));
      }
    }
  }

  lemma AllBecomeInLonger(s: Source, at: seq<seq<nat>>, a: seq<Origin>, order: seq<Origin>, b: seq<Origin>, lo: int,
                          part: seq<Origin>, nodes: seq<HNode>)
    requires IsTree(s) && |s.h| == |at| && BecomeAll(s, at, order, lo, part, nodes)
    ensures BecomeAll(s, at, a + order + b, lo - |a|, part, nodes)
  {
    hide IsTree, Becomes;
    forall j | 0 <= j < |part| ensures Becomes(s, at, a + order + b, lo - |a|, part[j], nodes[j]) {
      BecomesInLonger(s, at, a, order, b, lo, part[j], nodes[j]);
    }
  }

  lemma BecomeJoins(s: Source, at: seq<seq<nat>>, order: seq<Origin>, lo: int, p: seq<Origin>, x: seq<HNode>,
                    q: seq<Origin>, y: seq<HNode>)
    requires IsTree(s) && |s.h| == |at| && BecomeAll(s, at, order, lo, p, x) && BecomeAll(s, at, order, lo, q, y)
    ensures BecomeAll(s, at, order, lo, p + q, x + y)
  {
    hide IsTree, Becomes;
  }

  // ---------- The layout, subtree by subtree ----------

  lemma {:induction false} LayoutBecomes(s: Source, at: seq<seq<nat>>, v: nat, lo: nat, sizes: seq<nat>)
    requires IsTree(s) && v < |s.h| == |at| && Pruned(s, at, v).Some? && InRange(CellsOf(Pruned(s, at, v).value), |sizes|)
    ensures var order := Origins(s, at, v);
      && BecomeAll(s, at, order, lo, order, Layout(Pruned(s, at, v).value, lo, sizes))
      && |order| > 0 && order[0] == Image(v)
    decreases s.bound - s.depths[v], 1, 0
  {
    hide IsTree, Layout, LayoutAll, RootIds, CellsOf, CellsOfAll, InRange, BecomeAll, StandForAll, Size, SizeAll, Pruned,
         PrunedKids, KidOrigins, LeftKids, Becomes;
    NodeFacts(s, v);
    var node, direct := s.h[v], at[v];
    var kids := if node.cells then [] else PrunedKids(s, at, v, |node.children|);
    var kidOrder := if node.cells then [] else KidOrigins(s, at, v, |node.children|);
    PrunedParts(s, at, v, kids, |sizes|);
    NothingBecomes(s, at, lo + 1);
    LayoutAllNone(lo + 1, sizes);
    if !node.cells {
      KidsLayoutBecomes(s, at, v, |node.children|, lo + 1, sizes);
      KidsHaveOrigins(s, at, v, |node.children|);
    }
    LayoutAllLength(kids, lo + 1, sizes);
    var nodes, ids := LayoutAll(kids, lo + 1, sizes), RootIds(kids, lo + 1);
    if |kids| == 0 {
      LeafLayout(node.centroid, node.radius, direct, lo, sizes);
      LeafBecomes(s, at, v, lo, HNode(node.centroid, direct, true, PopulationOf(direct, sizes), node.radius));
      assert Origins(s, at, v) == [Image(v)];
    } else if |direct| == 0 {
      LayoutUnfolds(OutTree(node.centroid, node.radius, kids, []), lo, sizes);
      InnerBecomes(s, at, v, lo, kidOrder, nodes, ids, Layout(Pruned(s, at, v).value, lo, sizes)[0]);
      assert [Image(v)] + kidOrder + [] == [Image(v)] + kidOrder;
    } else {
      var leaf := OutTree(node.centroid, 0.0, [], direct);
      LeafLayout(node.centroid, 0.0, direct, lo + 1 + SizeAll(kids), sizes);
      LayoutAllAppend(kids, leaf, lo + 1, sizes);
      LayoutUnfolds(OutTree(node.centroid, node.radius, kids + [leaf], []), lo, sizes);
      SplicedBecomes(s, at, v, lo, kidOrder, nodes, ids, Layout(Pruned(s, at, v).value, lo, sizes)[0],
                     HNode(node.centroid, direct, true, PopulationOf(direct, sizes), 0.0));
    }
  }

  /** The three forms of what is left, in the parts of the source node. */
  lemma PrunedParts(s: Source, at: seq<seq<nat>>, v: nat, kids: seq<OutTree>, n: nat)
    requires IsTree(s) && v < |s.h| == |at| && Pruned(s, at, v).Some? && InRange(CellsOf(Pruned(s, at, v).value), n)
    requires kids == if s.h[v].cells then [] else PrunedKids(s, at, v, |s.h[v].children|)
    ensures InRange(CellsOfAll(kids), n) && InRange(at[v], n) && (|kids| > 0 || |at[v]| > 0)
    ensures var node := s.h[v];
      Pruned(s, at, v).value ==
        if |kids| == 0 then OutTree(node.centroid, node.radius, [], at[v])
        else if |at[v]| > 0 then
          OutTree(node.centroid, node.radius, kids + [OutTree(node.centroid, 0.0, [], at[v])], [])
        else OutTree(node.centroid, node.radius, kids, [])
  {
    hide IsTree, PrunedKids;
    var leaf := OutTree(s.h[v].centroid, 0.0, [], at[v]);
    CellsOfAllAppend(kids, leaf);
    InnerCells(s.h[v].centroid, s.h[v].radius, kids);
    InnerCells(s.h[v].centroid, s.h[v].radius, kids + [leaf]);
    assert CellsOfAll([]) == [] && at[v] + [] == at[v] && CellsOf(leaf) == at[v];
    assert CellsOfAll(kids) + [] == CellsOfAll(kids) && [] + at[v] == at[v];
    assert CellsOf(Pruned(s, at, v).value) == CellsOfAll(kids) + at[v];
    InRangeParts(CellsOfAll(kids), at[v], n);
  }

  lemma LeafBecomes(s: Source, at: seq<seq<nat>>, v: nat, lo: nat, leaf: HNode)
    requires IsTree(s) && v < |s.h| == |at| && |AllLeftKids(s, at, v)| == 0
    requires leaf.centroid == s.h[v].centroid && leaf.radius == s.h[v].radius && leaf.cells && leaf.children == at[v]
    ensures BecomeAll(s, at, [Image(v)], lo, [Image(v)], [leaf])
  {
    hide IsTree, AllLeftKids;
  }

  lemma InnerBecomes(s: Source, at: seq<seq<nat>>, v: nat, lo: nat, order: seq<Origin>, nodes: seq<HNode>,
                     ids: seq<nat>, root: HNode)
    requires IsTree(s) && v < |s.h| == |at| && BecomeAll(s, at, order, lo + 1, order, nodes)
    requires |AllLeftKids(s, at, v)| == |ids| > 0 && StandForAll(order, lo + 1, ids, AllLeftKids(s, at, v)) && |at[v]| == 0
    requires root.centroid == s.h[v].centroid && root.radius == s.h[v].radius && !root.cells && root.children == ids
    ensures BecomeAll(s, at, [Image(v)] + order, lo, [Image(v)] + order, [root] + nodes)
  {
    hide IsTree, AllLeftKids, StandsFor, StandForAll;
    var all := [Image(v)] + order;
    assert [Image(v)] + order + [] == all;
    AllStandInLonger([Image(v)], order, [], lo + 1, ids, AllLeftKids(s, at, v));
    assert Becomes(s, at, all, lo, Image(v), root);
    hide Becomes;
    AllBecomeInLonger(s, at, [Image(v)], order, [], lo + 1, order, nodes);
    BecomeJoins(s, at, all, lo, [Image(v)], [root], order, nodes);
  }

  lemma SplicedBecomes(s: Source, at: seq<seq<nat>>, v: nat, lo: nat, order: seq<Origin>, nodes: seq<HNode>,
                       ids: seq<nat>, root: HNode, leaf: HNode)
    requires IsTree(s) && v < |s.h| == |at| && BecomeAll(s, at, order, lo + 1, order, nodes)
    requires |AllLeftKids(s, at, v)| == |ids| > 0 && StandForAll(order, lo + 1, ids, AllLeftKids(s, at, v)) && |at[v]| > 0
    requires root.centroid == s.h[v].centroid && root.radius == s.h[v].radius && !root.cells
    requires root.children == ids + [lo + 1 + |nodes|]
    requires leaf.centroid == s.h[v].centroid && leaf.radius == 0.0 && leaf.cells && leaf.children == at[v]
    ensures var all := [Image(v)] + order + [Spliced(v)];
      BecomeAll(s, at, all, lo, all, [root] + (nodes + [leaf]))
  {
    hide IsTree, AllLeftKids, StandForAll;
    var all := [Image(v)] + order + [Spliced(v)];
    AllStandInLonger([Image(v)], order, [Spliced(v)], lo + 1, ids, AllLeftKids(s, at, v));
    StandForMore(all, lo, ids, lo + 1 + |nodes|, AllLeftKids(s, at, v));
    assert StandsFor(all, lo, lo + 1 + |nodes|, Spliced(v));
    assert Becomes(s, at, all, lo, Image(v), root) && Becomes(s, at, all, lo, Spliced(v), leaf);
    hide Becomes;
    AllBecomeInLonger(s, at, [Image(v)], order, [Spliced(v)], lo + 1, order, nodes);
    BecomeJoins(s, at, all, lo, order, nodes, [Spliced(v)], [leaf]);
    BecomeJoins(s, at, all, lo, [Image(v)], [root], order + [Spliced(v)], nodes + [leaf]);
    assert [Image(v)] + (order + [Spliced(v)]) == all;
  }

  lemma StandForMore(order: seq<Origin>, lo: int, ids: seq<nat>, id: nat, kids: seq<nat>)
    requires StandForAll(order, lo, ids, kids)
    ensures StandForAll(order, lo, ids + [id], kids)
  {
  }

  lemma {:induction false} KidsLayoutBecomes(s: Source, at: seq<seq<nat>>, v: nat, n: nat, lo: nat, sizes: seq<nat>)
    requires IsTree(s) && v < |s.h| == |at| && !s.h[v].cells && n <= |s.h[v].children|
    requires InRange(CellsOfAll(PrunedKids(s, at, v, n)), |sizes|)
    ensures var order, kids := KidOrigins(s, at, v, n), PrunedKids(s, at, v, n);
      && BecomeAll(s, at, order, lo, order, LayoutAll(kids, lo, sizes))
      && |LeftKids(s, at, v, n)| == |kids| && StandForAll(order, lo, RootIds(kids, lo), LeftKids(s, at, v, n))
    decreases s.bound - s.depths[v], 0, n
  {
    hide IsTree, Layout, LayoutAll, RootIds, CellsOf, CellsOfAll, InRange, BecomeAll, StandForAll, Size, SizeAll, Origins,
         Pruned;
    if n == 0 {
      LayoutAllNone(lo, sizes);
      NothingBecomes(s, at, lo);
    } else {
      var c := s.h[v].children[n - 1];
      ChildFacts(s, v, n - 1);
      NodeFacts(s, c);
      var before, t := PrunedKids(s, at, v, n - 1), Pruned(s, at, c);
      var order := KidOrigins(s, at, v, n - 1);
      NoneHasNoOrigin(s, at, c);
      if t.Some? {
        LayoutSplit(before, t.value, lo, sizes);
        KidsLayoutBecomes(s, at, v, n - 1, lo, sizes);
        var next := lo + SizeAll(before);
        LayoutBecomes(s, at, c, next, sizes);
        LayoutAllLength(before, lo, sizes);
        var more := Origins(s, at, c);
        JoinKid(s, at, order, LayoutAll(before, lo, sizes), more, Layout(t.value, next, sizes), lo,
                RootIds(before, lo), LeftKids(s, at, v, n - 1), c);
      } else {
        KidsLayoutBecomes(s, at, v, n - 1, lo, sizes);
        assert order + [] == order;
        assert LeftKids(s, at, v, n - 1) + [] == LeftKids(s, at, v, n - 1);
      }
    }
  }

  lemma NothingBecomes(s: Source, at: seq<seq<nat>>, lo: int)
    requires IsTree(s) && |s.h| == |at|
    ensures BecomeAll(s, at, [], lo, [], []) && StandForAll([], lo, [], [])
  {
  }

  lemma {:induction false} NoneHasNoOrigin(s: Source, at: seq<seq<nat>>, v: nat)
    requires IsTree(s) && v < |s.h| == |at|
    ensures Pruned(s, at, v).None? <==> Origins(s, at, v) == []
    decreases s.bound - s.depths[v], 1, 0
  {
    hide IsTree, PrunedKids, KidOrigins;
    NodeFacts(s, v);
    if !s.h[v].cells {
      KidsHaveOrigins(s, at, v, |s.h[v].children|);
    }
  }

  lemma {:induction false} KidsHaveOrigins(s: Source, at: seq<seq<nat>>, v: nat, n: nat)
    requires IsTree(s) && v < |s.h| == |at| && !s.h[v].cells && n <= |s.h[v].children|
    ensures PrunedKids(s, at, v, n) == [] <==> KidOrigins(s, at, v, n) == []
    ensures |PrunedKids(s, at, v, n)| == |LeftKids(s, at, v, n)|
    decreases s.bound - s.depths[v], 0, n
  {
    hide IsTree, Pruned, Origins;
    if n > 0 {
      ChildFacts(s, v, n - 1);
      NodeFacts(s, s.h[v].children[n - 1]);
      KidsHaveOrigins(s, at, v, n - 1);
      NoneHasNoOrigin(s, at, s.h[v].children[n - 1]);
    }
  }

  lemma LayoutSplit(ts: seq<OutTree>, t: OutTree, lo: nat, sizes: seq<nat>)
    requires InRange(CellsOfAll(ts + [t]), |sizes|)
    ensures InRange(CellsOfAll(ts), |sizes|) && InRange(CellsOf(t), |sizes|)
    ensures RootIds(ts + [t], lo) == RootIds(ts, lo) + [lo + SizeAll(ts)]
    ensures LayoutAll(ts + [t], lo, sizes) == LayoutAll(ts, lo, sizes) + Layout(t, lo + SizeAll(ts), sizes)
  {
    hide InRange, Layout, LayoutAll, RootIds, CellsOf, CellsOfAll, Size, SizeAll;
    CellsOfAllAppend(ts, t);
    InRangeParts(CellsOfAll(ts), CellsOf(t), |sizes|);
    LayoutAllAppend(ts, t, lo, sizes);
  }

  lemma JoinKid(s: Source, at: seq<seq<nat>>, order: seq<Origin>, nodes: seq<HNode>, more: seq<Origin>,
                added: seq<HNode>, lo: int, ids: seq<nat>, kids: seq<nat>, c: nat)
    requires IsTree(s) && |s.h| == |at| && BecomeAll(s, at, order, lo, order, nodes)
    requires BecomeAll(s, at, more, lo + |nodes|, more, added) && |more| > 0 && more[0] == Image(c)
    requires |ids| == |kids| && StandForAll(order, lo, ids, kids) && lo + |nodes| >= 0
    ensures BecomeAll(s, at, order + more, lo, order + more, nodes + added)
    ensures StandForAll(order + more, lo, ids + [lo + |nodes|], kids + [c])
  {
    hide IsTree, Becomes;
    var all := order + more;
    assert [] + order + more == all && order + more + [] == all;
    AllBecomeInLonger(s, at, [], order, more, lo, order, nodes);
    AllBecomeInLonger(s, at, order, more, [], lo + |nodes|, more, added);
    BecomeJoins(s, at, all, lo, order, nodes, more, added);
    AllStandInLonger([], order, more, lo, ids, kids);
    assert StandsFor(all, lo, lo + |nodes|, Image(c));
  }

  // ---------- Which nodes are left ----------

  /** A leaf is spliced in behind the children of `v`. */
  predicate Splices(s: Source, at: seq<seq<nat>>, v: nat)
    requires IsTree(s) && v < |s.h| == |at|
  {
    |at[v]| > 0 && |AllLeftKids(s, at, v)| > 0
  }

  /** The order has, each once, the images of the nodes of `inside` that are left, and their spliced leaves. */
  ghost predicate Accounts(s: Source, at: seq<seq<nat>>, order: seq<Origin>, inside: iset<nat>)
    requires IsTree(s) && |s.h| == |at|
  {
    && NoDup(order)
    && (forall o :: o in order ==> o.v in inside && o.v < |s.h|)
    && (forall u: nat :: u < |s.h| && u in inside ==> (Image(u) in order <==> Pruned(s, at, u).Some?))
    && (forall u: nat :: u < |s.h| && u in inside ==> (Spliced(u) in order <==> Splices(s, at, u)))
  }

  lemma AccountsJoin(s: Source, at: seq<seq<nat>>, a: seq<Origin>, i: iset<nat>, b: seq<Origin>, j: iset<nat>)
    requires IsTree(s) && |s.h| == |at| && Accounts(s, at, a, i) && Accounts(s, at, b, j) && i !! j
    ensures Accounts(s, at, a + b, i + j)
  {
    hide IsTree, Pruned, Splices;
    assert forall x :: 0 <= x < |a| ==> a[x] in a;
    assert forall x :: 0 <= x < |b| ==> b[x] in b;
    assert forall o :: o in a + b <==> o in a || o in b;
  }

  lemma AccountsSelf(s: Source, at: seq<seq<nat>>, v: nat, kids: seq<Origin>, inside: iset<nat>)
    requires IsTree(s) && v < |s.h| == |at| && Accounts(s, at, kids, inside) && v !in inside
    requires kids == [] <==> |AllLeftKids(s, at, v)| == 0
    requires Pruned(s, at, v).Some? <==> |kids| > 0 || |at[v]| > 0
    ensures var order := if |kids| == 0 && |at[v]| == 0 then []
                         else [Image(v)] + kids + if |kids| > 0 && |at[v]| > 0 then [Spliced(v)] else [];
      Accounts(s, at, order, inside + iset{v})
  {
    hide IsTree, Pruned, AllLeftKids;
    var last := if |kids| > 0 && |at[v]| > 0 then [Spliced(v)] else [];
    if |kids| > 0 || |at[v]| > 0 {
      var order := [Image(v)] + kids + last;
      assert forall x :: 0 <= x < |kids| ==> kids[x] in kids;
      assert forall o :: o in order <==> o == Image(v) || o in kids || o in last;
    }
  }

  lemma {:induction false} OriginsAccount(s: Source, at: seq<seq<nat>>, v: nat)
    requires IsTree(s) && v < |s.h| == |at|
    ensures Accounts(s, at, Origins(s, at, v), SubtreeNodes(s, v))
    decreases s.bound - s.depths[v], 1, 0
  {
    hide IsTree, Pruned, PrunedKids, KidOrigins, Accounts, SubtreeNodes, KidNodes, LeftKids;
    NodeFacts(s, v);
    SubtreeIsKidsAndSelf(s, v);
    NoneHasNoOrigin(s, at, v);
    if s.h[v].cells {
      NothingAccounts(s, at);
      AccountsSelf(s, at, v, [], iset{});
      assert iset{} + iset{v} == iset{v};
    } else {
      var n := |s.h[v].children|;
      KidsHaveOrigins(s, at, v, n);
      KidOriginsAccount(s, at, v, n);
      AccountsSelf(s, at, v, KidOrigins(s, at, v, n), KidNodes(s, v, n));
    }
  }

  lemma NothingAccounts(s: Source, at: seq<seq<nat>>)
    requires IsTree(s) && |s.h| == |at|
    ensures Accounts(s, at, [], iset{})
  {
  }

  lemma {:induction false} KidOriginsAccount(s: Source, at: seq<seq<nat>>, v: nat, n: nat)
    requires IsTree(s) && v < |s.h| == |at| && !s.h[v].cells && n <= |s.h[v].children|
    ensures Accounts(s, at, KidOrigins(s, at, v, n), KidNodes(s, v, n))
    decreases s.bound - s.depths[v], 0, n
  {
    hide IsTree, Pruned, Origins, Accounts, SubtreeNodes;
    if n == 0 {
      NothingAccounts(s, at);
      assert KidNodes(s, v, 0) == iset{};
    } else {
      ChildFacts(s, v, n - 1);
      NodeFacts(s, s.h[v].children[n - 1]);
      KidNodesStep(s, v, n - 1);
      hide KidNodes;
      KidOriginsAccount(s, at, v, n - 1);
      OriginsAccount(s, at, s.h[v].children[n - 1]);
      AccountsJoin(s, at, KidOrigins(s, at, v, n - 1), KidNodes(s, v, n - 1), Origins(s, at, s.h[v].children[n - 1]),
                   SubtreeNodes(s, s.h[v].children[n - 1]));
    }
  }

  // ---------- The merge ----------

  /** Some unit has all its Cells under `u`. */
  ghost predicate Keeps(s: Source, units: seq<Unit>, u: nat)
    requires IsTree(s) && u < |s.h|
  {
    exists k :: 0 <= k < |units| && InRange(units[k].key, |s.leaves|) && UnderAll(s, u, units[k].key)
  }

  lemma {:induction false} ProperHasCell(t: OutTree)
    requires Proper(t)
    ensures |CellsOf(t)| > 0
    decreases t
  {
    if |t.kids| > 0 {
      ProperHasCell(t.kids[0]);
      assert CellsOfAll(t.kids) == CellsOf(t.kids[0]) + CellsOfAll(t.kids[1..]);
    }
  }

  /** A node is left exactly when some unit has all its Cells under it. */
  lemma LeftIffKeeps(s: Source, groups: seq<seq<nat>>, partner: map<nat, nat>, units: seq<Unit>, u: nat)
    requires IsTree(s) && |s.leaves| == |groups| && IsUnits(s, groups, partner, units) && u < |s.h|
    ensures Pruned(s, At(|s.h|, units), u).Some? <==> Keeps(s, units, u)
  {
    hide IsTree, Pruned, At, Keys, UnderAll, CellsOf, IsUnits, KeepsOwn, PlacedAt, SubtreeNodes, InRange;
    var at := At(|s.h|, units);
    var t := Pruned(s, at, u);
    UnitPlaces(s, groups, partner, units);
    UnitsPlaced(s, units);
    PrunedKeepsOwn(s, at, Places(units), u);
    forall k: nat | k < |units|
      ensures InRange(units[k].key, |s.leaves|)
      ensures Occurrences(CellsLeft(t), k) == if UnderAll(s, u, units[k].key) then 1 else 0
    {
      SubtreeHoldsItsUnits(s, groups, partner, units, u, k);
    }
    if t.Some? {
      ProperHasCell(t.value);
      FirstInRange(s, Places(units), CellsOf(t.value), SubtreeNodes(s, u));
      assert Occurrences(CellsLeft(t), CellsOf(t.value)[0]) > 0;
    }
  }

  lemma FirstInRange(s: Source, place: seq<nat>, cells: seq<nat>, inside: iset<nat>)
    requires KeepsOwn(s, place, cells, inside) && |cells| > 0
    ensures cells[0] < |place|
  {
  }

  /** What the nodes of the merged hierarchy stand for. */
  ghost predicate Rewrites(s: Source, units: seq<Unit>, m: Merged, order: seq<Origin>)
    requires IsTree(s)
  {
    var at := At(|s.h|, units);
    && |order| > 0 && order[0] == Image(s.root) && NoDup(order)
    && BecomeAll(s, at, order, 0, order, m.hierarchy)
    && (forall u: nat :: Image(u) in order <==> u < |s.h| && Keeps(s, units, u))
    && (forall u: nat :: Spliced(u) in order <==> u < |s.h| && Splices(s, at, u))
  }

  /**
    The nodes of the merged hierarchy are the images of the source nodes that have a whole unit under
    them, and the spliced leaves; each keeps its centroid, its radius and the order of its children.
   */
  lemma MergeRewrites(s: Source, groups: seq<seq<nat>>, partner: map<nat, nat>, units: seq<Unit>, m: Merged)
    requires IsMerge(s, groups, partner, units, m)
    ensures exists order :: Rewrites(s, units, m, order)
  {
    hide IsTree, IsUnits, Pruned, Origins, Layout, At, Keeps, Splices, BecomeAll, CellsOf, InRange;
    var at := At(|s.h|, units);
    RootIsTop(s);
    var order := Origins(s, at, s.root);
    LayoutBecomes(s, at, s.root, 0, Sizes(m.groups));
    OriginsAccount(s, at, s.root);
    forall u: nat | u < |s.h| ensures Pruned(s, at, u).Some? <==> Keeps(s, units, u) {
      LeftIffKeeps(s, groups, partner, units, u);
    }
    assert Rewrites(s, units, m, order);
  }

  lemma RootIsTop(s: Source)
    requires IsTree(s)
    ensures 0 <= s.root < |s.h| && forall u: nat :: u < |s.h| ==> u in SubtreeNodes(s, s.root)
  {
    NodeFacts(s, s.root);
    forall u: nat | u < |s.h| ensures u in SubtreeNodes(s, s.root) {
      RootIsAboveAll(s, u);
    }
  }
}
