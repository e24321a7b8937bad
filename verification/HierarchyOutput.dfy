/**
  The whole of materialize_pair_merges in python/train_geometric_cells.py, and what its
  output is: a hierarchy that would be accepted again, with every vector under one owner.
 */
module HierarchyOutput {
  import opened Common
  import opened HierarchyTree
  import opened HierarchySurgery
  import opened HierarchyMerge

  datatype Merged = Merged(groups: seq<seq<nat>>, hierarchy: seq<HNode>, root: nat)

  // ---------- An array of nodes in preorder is a tree ----------

  predicate Lists(node: HNode, cells: bool, v: nat) {
    node.cells == cells && v in node.children
  }

  ghost predicate ListedBy(nodes: seq<HNode>, cells: bool, v: nat, u: int) {
    0 <= u < |nodes| && Lists(nodes[u], cells, v)
  }

  function ListingsIn(nodes: seq<HNode>, cells: bool, v: nat): nat {
    if cells then CellListings(nodes, v) else Listings(nodes, v)
  }

  function Own(node: HNode, cells: bool, v: nat): nat {
    if node.cells == cells then Occurrences(node.children, v) else 0
  }

  lemma ListingsSplit(nodes: seq<HNode>, cells: bool, v: nat, u: nat)
    requires u < |nodes|
    ensures ListingsIn(nodes, cells, v)
         == ListingsIn(nodes[..u], cells, v) + Own(nodes[u], cells, v) + ListingsIn(nodes[u + 1..], cells, v)
  {
    assert nodes == nodes[..u] + [nodes[u]] + nodes[u + 1..];
    ListingsAdd(nodes[..u] + [nodes[u]], nodes[u + 1..], v);
    ListingsAdd(nodes[..u], [nodes[u]], v);
    assert [nodes[u]][..0] == [];
  }

  /** What is listed once is listed by one node only, and by that node only once. */
  lemma ListedOnce(nodes: seq<HNode>, cells: bool, v: nat, u: nat, w: nat)
    requires ListingsIn(nodes, cells, v) <= 1 && ListedBy(nodes, cells, v, u)
    ensures ListedBy(nodes, cells, v, w) ==> u == w
    ensures Occurrences(nodes[u].children, v) == 1
  {
    hide ListingsIn;
    ListingsSplit(nodes, cells, v, u);
    if ListedBy(nodes, cells, v, w) && u != w {
      if w < u {
        assert nodes[..u][w] == nodes[w];
        ListingsSplit(nodes[..u], cells, v, w);
      } else {
        assert nodes[u + 1..][w - u - 1] == nodes[w];
        ListingsSplit(nodes[u + 1..], cells, v, w - u - 1);
      }
    }
  }

  lemma {:induction false} ListedSomewhere(nodes: seq<HNode>, cells: bool, v: nat) returns (u: nat)
    requires ListingsIn(nodes, cells, v) > 0
    ensures ListedBy(nodes, cells, v, u)
  {
    u := |nodes| - 1;
    if !Lists(nodes[u], cells, v) {
      u := ListedSomewhere(nodes[..|nodes| - 1], cells, v);
    }
  }

  lemma NotListed(nodes: seq<HNode>, cells: bool, v: nat, u: nat)
    requires ListingsIn(nodes, cells, v) == 0
    ensures !ListedBy(nodes, cells, v, u)
  {
    hide ListingsIn;
    if ListedBy(nodes, cells, v, u) {
      ListingsSplit(nodes, cells, v, u);
    }
  }

  lemma {:induction false} RepeatOccurs(s: seq<nat>, i: nat, j: nat)
    requires i < j < |s| && s[i] == s[j]
    ensures Occurrences(s, s[i]) >= 2
  {
    assert s == s[..j] + s[j..];
    assert s[..j][i] == s[i] && s[j..][0] == s[i];
    assert multiset(s) == multiset(s[..j]) + multiset(s[j..]);
    assert s[i] in multiset(s[..j]) && s[i] in multiset(s[j..]);
  }

  /** Children come after their parent, every other node has one parent, every Cell one leaf. */
  ghost predicate Linked(nodes: seq<HNode>, cellCount: nat) {
    && |nodes| > 0 && Forward(nodes, 0, |nodes|)
    && (forall v: nat :: ListingsIn(nodes, false, v) == if 0 < v < |nodes| then 1 else 0)
    && (forall k: nat :: ListingsIn(nodes, true, k) == if k < cellCount then 1 else 0)
  }

  ghost function Lister(nodes: seq<HNode>, cells: bool, v: nat): (u: int)
    ensures u == -1 || ListedBy(nodes, cells, v, u)
  {
    if exists u :: ListedBy(nodes, cells, v, u) then var u :| ListedBy(nodes, cells, v, u); u else -1
  }

  ghost function DepthOf(nodes: seq<HNode>, v: nat): nat {
    var u := Lister(nodes, false, v);
    if 0 <= u < v then DepthOf(nodes, u) + 1 else 0
  }

  ghost function Tables(nodes: seq<HNode>, cellCount: nat): (s: Source)
    ensures s.root == 0 && s.h == nodes && |s.parents| == |s.depths| == |nodes| && |s.leaves| == cellCount
    ensures forall v :: 0 <= v < |nodes| ==> s.parents[v] == Lister(nodes, false, v) && s.depths[v] == DepthOf(nodes, v)
    ensures forall v :: 0 <= v < |nodes| ==> s.depths[v] <= s.bound
    ensures forall k :: 0 <= k < cellCount ==> s.leaves[k] == Lister(nodes, true, k)
  {
    var depths: seq<int> := seq(|nodes|, v requires 0 <= v < |nodes| => DepthOf(nodes, v));
    Source(0, nodes, seq(|nodes|, v requires 0 <= v < |nodes| => Lister(nodes, false, v)), depths,
           seq(cellCount, k requires 0 <= k < cellCount => Lister(nodes, true, k)), MaxOf(depths))
  }

  lemma NodeLister(nodes: seq<HNode>, cellCount: nat, v: nat)
    requires Linked(nodes, cellCount) && v < |nodes|
    ensures var u := Lister(nodes, false, v);
      && (v == 0 ==> u == -1 && DepthOf(nodes, v) == 0)
      && (v != 0 ==> 0 <= u < v && ListedBy(nodes, false, v, u) && DepthOf(nodes, v) == DepthOf(nodes, u) + 1)
  {
    hide ListingsIn;
    var u := Lister(nodes, false, v);
    if v == 0 {
      if u != -1 {
        NotListed(nodes, false, v, u);
      }
    } else {
      var w := ListedSomewhere(nodes, false, v);
      assert ListedBy(nodes, false, v, u);
      var i :| 0 <= i < |nodes[u].children| && nodes[u].children[i] == v;
    }
  }

  lemma CellLister(nodes: seq<HNode>, cellCount: nat, k: nat)
    requires Linked(nodes, cellCount) && k < cellCount
    ensures ListedBy(nodes, true, k, Lister(nodes, true, k))
  {
    hide ListingsIn, Forward;
    var w := ListedSomewhere(nodes, true, k);
  }

  lemma LinkedComplete(nodes: seq<HNode>, cellCount: nat, u: nat)
    requires Linked(nodes, cellCount) && u < |nodes|
    ensures var s := Tables(nodes, cellCount); Complete(nodes, s.parents, s.depths, s.leaves, u)
  {
    hide ListingsIn, Forward, Occurrences, Tables, Lister, DepthOf;
    var s := Tables(nodes, cellCount);
    var children, cells := nodes[u].children, nodes[u].cells;
    forall i | 0 <= i < |children|
      ensures Occurrences(children, children[i]) == 1
      ensures if cells then children[i] < cellCount && Lister(nodes, true, children[i]) == u
              else 0 < children[i] < |nodes| && Lister(nodes, false, children[i]) == u
    {
      var c := children[i];
      assert ListedBy(nodes, cells, c, u);
      if ListingsIn(nodes, cells, c) == 0 {
        NotListed(nodes, cells, c, u);
      }
      ListedOnce(nodes, cells, c, u, u);
      if cells {
        CellLister(nodes, cellCount, c);
      } else {
        NodeLister(nodes, cellCount, c);
      }
      ListedOnce(nodes, cells, c, u, Lister(nodes, cells, c));
    }
    forall i, j | 0 <= i < j < |children| ensures children[i] != children[j] {
      if children[i] == children[j] {
        RepeatOccurs(children, i, j);
      }
    }
    if !cells {
      forall i | 0 <= i < |children| ensures s.depths[children[i]] == s.depths[u] + 1 {
        NodeLister(nodes, cellCount, children[i]);
      }
    }
  }

  lemma LinkedIsTree(nodes: seq<HNode>, cellCount: nat)
    requires Linked(nodes, cellCount)
    ensures HasTree(0, nodes, cellCount)
  {
    hide Linked, ListingsIn, Complete, Tables, Lister, DepthOf;
    var s := Tables(nodes, cellCount);
    forall v | 0 <= v < |nodes| ensures Complete(nodes, s.parents, s.depths, s.leaves, v) {
      LinkedComplete(nodes, cellCount, v);
    }
    forall v | 0 <= v < |nodes|
      ensures v == 0 ==> s.parents[v] == -1 && s.depths[v] == 0
      ensures v != 0 ==>
        var u := s.parents[v];
        0 <= u < |nodes| && !nodes[u].cells && v in nodes[u].children && s.depths[v] == s.depths[u] + 1
    {
      NodeLister(nodes, cellCount, v);
    }
    forall k | 0 <= k < cellCount ensures ListedBy(nodes, true, k, s.leaves[k]) {
      CellLister(nodes, cellCount, k);
    }
    SomeNode(nodes, cellCount);
    assert Consistent(0, nodes, s.parents, s.depths, s.leaves);
    assert IsTree(s);
  }

  lemma SomeNode(nodes: seq<HNode>, cellCount: nat)
    requires Linked(nodes, cellCount)
    ensures |nodes| > 0
  {
  }

  // ---------- What a merge returns ----------

  /** `m` is the merge of the units' Cells: their hierarchy is the laid-out rewriting of the source. */
  ghost predicate IsMerge(s: Source, groups: seq<seq<nat>>, partner: map<nat, nat>, units: seq<Unit>, m: Merged) {
    && IsTree(s) && |s.leaves| == |groups| && Matching(groups, partner) && IsUnits(s, groups, partner, units)
    && |units| > 0 && m.groups == GroupsOf(units) && m.root == 0
    && var t := Pruned(s, At(|s.h|, units), s.root);
      t.Some? && InRange(CellsOf(t.value), |units|) && m.hierarchy == Layout(t.value, 0, Sizes(m.groups))
  }

  lemma UnitPlaces(s: Source, groups: seq<seq<nat>>, partner: map<nat, nat>, units: seq<Unit>)
    requires IsTree(s) && |s.leaves| == |groups| && IsUnits(s, groups, partner, units)
    ensures forall k :: 0 <= k < |units| ==> units[k].placement < |s.h|
  {
    hide IsTree, Keys;
    forall k | 0 <= k < |units| ensures units[k].placement < |s.h| {
      assert IsUnit(s, groups, partner, units[k]);
    }
  }

  /** The merged hierarchy is again a tree over all its nodes and Cells, so it could be merged again. */
  lemma MergedIsTree(s: Source, groups: seq<seq<nat>>, partner: map<nat, nat>, units: seq<Unit>, m: Merged)
    requires IsMerge(s, groups, partner, units, m)
    ensures HasTree(m.root, m.hierarchy, |m.groups|)
  {
    hide IsTree, IsUnits, Layout, Pruned, Forward, CellsOf, Listings, CellListings, Size, At, HasTree, Proper, InRange;
    var at, place := At(|s.h|, units), Places(units);
    UnitPlaces(s, groups, partner, units);
    UnitsPlaced(s, units);
    RootKeepsEveryCell(s, at, place, 0);
    RootIsAboveAll(s, place[0]);
    var t := Pruned(s, at, s.root).value;
    LayoutForward(t, 0, Sizes(m.groups));
    forall v: nat ensures ListingsIn(m.hierarchy, false, v) == if 0 < v < |m.hierarchy| then 1 else 0 {
      LayoutListsOnce(t, 0, Sizes(m.groups), v);
    }
    forall k: nat ensures ListingsIn(m.hierarchy, true, k) == if k < |m.groups| then 1 else 0 {
      LayoutListsCells(t, 0, Sizes(m.groups), k);
      if k < |units| {
        RootKeepsEveryCell(s, at, place, k);
      } else {
        OutOfRange(CellsOf(t), |units|, k);
      }
    }
    LinkedIsTree(m.hierarchy, |m.groups|);
  }

  lemma OutOfRange(cells: seq<nat>, n: nat, k: nat)
    requires InRange(cells, n) && k >= n
    ensures Occurrences(cells, k) == 0
  {
  }

  /** What is left of the subtree at `v` holds exactly the units all of whose Cells were under `v`. */
  lemma SubtreeHoldsItsUnits(s: Source, groups: seq<seq<nat>>, partner: map<nat, nat>, units: seq<Unit>, v: nat, k: nat)
    requires IsTree(s) && |s.leaves| == |groups| && IsUnits(s, groups, partner, units)
    requires v < |s.h| && k < |units|
    ensures InRange(units[k].key, |s.leaves|)
    ensures Occurrences(CellsLeft(Pruned(s, At(|s.h|, units), v)), k) == if UnderAll(s, v, units[k].key) then 1 else 0
  {
    hide IsTree, Pruned, CellsLeft, At, Keys, Under, UnderAll;
    UnitPlaces(s, groups, partner, units);
    UnitsPlaced(s, units);
    PrunedKeepsOwn(s, At(|s.h|, units), Places(units), v);
    assert IsUnit(s, groups, partner, units[k]);
    assert units[k].placement in SubtreeNodes(s, v) <==> Under(s, v, units[k].placement);
  }

  lemma {:induction false} KeysHoldMembers(groups: seq<seq<nat>>, units: seq<Unit>, n: nat)
    requires n <= |units|
    requires forall i :: 0 <= i < |units| ==>
      InRange(units[i].key, |groups|) && units[i].members == Members(groups, units[i].key)
    ensures InRange(Keys(units[..n]), |groups|)
    ensures Members(GroupsOf(units), Iota(n)) == Members(groups, Keys(units[..n]))
  {
    hide Members, Iota, GroupsOf;
    if n == 0 {
      NoMembers(groups, units);
    } else {
      KeysHoldMembers(groups, units, n - 1);
      MembersIotaStep(GroupsOf(units), n - 1);
      assert units[..n] == units[..n - 1] + [units[n - 1]];
      KeysStep(units[..n - 1], units[n - 1]);
      MembersAdd(groups, Keys(units[..n - 1]), units[n - 1].key);
    }
  }

  lemma NoMembers(groups: seq<seq<nat>>, units: seq<Unit>)
    ensures InRange(Keys([]), |groups|) && Members(groups, Keys([])) == []
    ensures Iota(0) == [] && Members(GroupsOf(units), Iota(0)) == []
  {
  }

  lemma CoverPermutes(keys: seq<nat>, n: nat)
    requires InRange(keys, n) && forall c :: 0 <= c < n ==> Occurrences(keys, c) == 1
    ensures multiset(keys) == multiset(Iota(n))
  {
    forall x: nat ensures Occurrences(keys, x) == Occurrences(Iota(n), x) {
      NoDupOccurs(Iota(n), x);
      IotaHas(n);
      assert x in Iota(n) <==> x in ToSet(Iota(n));
      if x >= n {
        OutOfRange(keys, n, x);
      }
    }
    assert forall x: nat :: multiset(keys)[x] == Occurrences(keys, x) && multiset(Iota(n))[x] == Occurrences(Iota(n), x);
  }

  /** Merging moves vectors between Cells but neither loses nor copies one. */
  lemma MergeConservesVectors(s: Source, groups: seq<seq<nat>>, partner: map<nat, nat>, units: seq<Unit>)
    requires IsTree(s) && |s.leaves| == |groups| && IsUnits(s, groups, partner, units)
    ensures multiset(AllMembers(GroupsOf(units))) == multiset(AllMembers(groups))
    ensures |AllMembers(GroupsOf(units))| == |AllMembers(groups)|
    ensures OneOwner(GroupsOf(units)) <==> OneOwner(groups)
  {
    hide IsTree, AtLca, Keys, Members, Iota, GroupsOf;
    forall i | 0 <= i < |units|
      ensures InRange(units[i].key, |groups|) && units[i].members == Members(groups, units[i].key)
    {
      assert IsUnit(s, groups, partner, units[i]);
    }
    KeysHoldMembers(groups, units, |units|);
    assert units[..|units|] == units && |GroupsOf(units)| == |units|;
    CoverPermutes(Keys(units), |groups|);
    MembersPermute(groups, Keys(units), Iota(|groups|));
    var a, b := AllMembers(GroupsOf(units)), AllMembers(groups);
    assert |multiset(a)| == |a| && |multiset(b)| == |b|;
    forall x ensures Occurrences(a, x) == Occurrences(b, x) {
    }
  }

  // ---------- Counts ----------

  /** A node counts the vectors of its own Cells or sums the counts of its children. */
  ghost predicate Counted(out: seq<HNode>, j: int, sizes: seq<nat>) {
    && 0 <= j < |out|
    && (out[j].cells ==> InRange(out[j].children, |sizes|) && out[j].descendants == Population(out[j].children, sizes))
    && (!out[j].cells ==> InRange(out[j].children, |out|) && out[j].descendants == DescendantSum(out, out[j].children))
  }

  lemma {:induction false} CountsIn(out: seq<HNode>, t: OutTree, lo: nat, sizes: seq<nat>, j: nat)
    requires Proper(t) && InRange(CellsOf(t), |sizes|) && lo + Size(t) <= |out|
    requires out[lo..lo + Size(t)] == Layout(t, lo, sizes) && lo <= j < lo + Size(t)
    ensures Counted(out, j, sizes)
    decreases t, 0
  {
    hide Layout, LayoutAll, RootIds, SizeAll, CellsOf, CellsOfAll, InRange, Population, DescendantSum;
    SizeUnfolds(t);
    if |t.kids| == 0 {
      LeafIs(t, sizes);
      LeafLayout(t.centroid, t.radius, t.cells, lo, sizes);
      assert out[lo] == out[lo..lo + Size(t)][0];
      assert Layout(t, lo, sizes)[0] == HNode(t.centroid, t.cells, true, Population(t.cells, sizes), t.radius);
    } else {
      LayoutUnfolds(t, lo, sizes);
      var part := out[lo..lo + Size(t)];
      assert out[lo + 1..lo + 1 + SizeAll(t.kids)] == part[1..] == LayoutAll(t.kids, lo + 1, sizes);
      if j == lo {
        assert out[lo] == part[0];
        InnerCells(t.centroid, t.radius, t.kids);
        SliceDescendants(out, t.kids, lo + 1, sizes);
        IdsInRange(RootIds(t.kids, lo + 1), |out|);
      } else {
        CountsInAll(out, t.kids, lo + 1, sizes, j);
      }
    }
  }

  lemma IdsInRange(ids: seq<nat>, n: nat)
    requires forall i :: 0 <= i < |ids| ==> ids[i] < n
    ensures InRange(ids, n)
  {
  }

  lemma LeafIs(t: OutTree, sizes: seq<nat>)
    requires |t.kids| == 0 && InRange(CellsOf(t), |sizes|)
    ensures t == OutTree(t.centroid, t.radius, [], t.cells) && InRange(t.cells, |sizes|) && SizeAll(t.kids) == 0
  {
    InRangeParts(t.cells, CellsOfAll(t.kids), |sizes|);
  }

  lemma SizeUnfolds(t: OutTree)
    ensures Size(t) == 1 + SizeAll(t.kids)
  {
  }

  lemma {:induction false} CountsInAll(out: seq<HNode>, ts: seq<OutTree>, lo: nat, sizes: seq<nat>, j: nat)
    requires ProperAll(ts) && InRange(CellsOfAll(ts), |sizes|) && lo + SizeAll(ts) <= |out|
    requires out[lo..lo + SizeAll(ts)] == LayoutAll(ts, lo, sizes) && lo <= j < lo + SizeAll(ts)
    ensures Counted(out, j, sizes)
    decreases ts, 1
  {
    hide Layout, LayoutAll, RootIds, Size, CellsOf, CellsOfAll, InRange, Population, DescendantSum, Counted, Proper;
    LayoutAllCons(ts, lo, sizes);
    var next := lo + Size(ts[0]);
    var all := out[lo..lo + SizeAll(ts)];
    assert out[lo..next] == all[..Size(ts[0])] == Layout(ts[0], lo, sizes);
    assert out[next..next + SizeAll(ts[1..])] == all[Size(ts[0])..] == LayoutAll(ts[1..], next, sizes);
    if j < next {
      CountsIn(out, ts[0], lo, sizes, j);
    } else {
      CountsInAll(out, ts[1..], next, sizes, j);
    }
  }

  /** In the merged hierarchy every node counts the vectors of all Cells below it. */
  lemma MergedCounts(s: Source, groups: seq<seq<nat>>, partner: map<nat, nat>, units: seq<Unit>, m: Merged, j: nat)
    requires IsMerge(s, groups, partner, units, m) && j < |m.hierarchy|
    ensures Counted(m.hierarchy, j, Sizes(m.groups))
    ensures |m.hierarchy| > 0 && m.hierarchy[0].descendants == |AllMembers(groups)|
  {
    hide IsTree, IsUnits, Layout, Pruned, CellsOf, Size, At, Proper, Counted, Population, InRange;
    var at, place := At(|s.h|, units), Places(units);
    UnitPlaces(s, groups, partner, units);
    UnitsPlaced(s, units);
    RootKeepsEveryCell(s, at, place, 0);
    RootIsAboveAll(s, place[0]);
    var t := Pruned(s, at, s.root).value;
    var out := m.hierarchy;
    assert out[0..0 + Size(t)] == out;
    CountsIn(out, t, 0, Sizes(m.groups), j);
    LayoutRoot(t, 0, Sizes(m.groups));
    forall k | 0 <= k < |units| ensures Occurrences(CellsOf(t), k) == 1 {
      RootKeepsEveryCell(s, at, place, k);
    }
    RootPopulation(m.groups, CellsOf(t));
    MergeConservesVectors(s, groups, partner, units);
  }

  lemma RootPopulation(groups: seq<seq<nat>>, cells: seq<nat>)
    requires InRange(cells, |groups|) && forall k :: 0 <= k < |groups| ==> Occurrences(cells, k) == 1
    ensures InRange(cells, |Sizes(groups)|) && Population(cells, Sizes(groups)) == |AllMembers(groups)|
  {
    hide Occurrences, Members, Population;
    CoverPermutes(cells, |groups|);
    MembersPermute(groups, cells, Iota(|groups|));
    PopulationIsLength(groups, cells);
    var a, b := Members(groups, cells), AllMembers(groups);
    assert |multiset(a)| == |a| && |multiset(b)| == |b|;
  }

  lemma {:induction false} PopulationIsLength(groups: seq<seq<nat>>, cells: seq<nat>)
    requires InRange(cells, |groups|)
    ensures InRange(cells, |Sizes(groups)|) && Population(cells, Sizes(groups)) == |Members(groups, cells)|
  {
    if |cells| > 0 {
      var rest, last := cells[..|cells| - 1], cells[|cells| - 1];
      PopulationIsLength(groups, rest);
      assert cells == rest + [last];
      PopulationAdds(rest, [last], Sizes(groups));
      assert Population([last], Sizes(groups)) == |groups[last]| + Population([], Sizes(groups));
    }
  }
}
