/**
  The comment at python/train_geometric_cells.py:1822-1825 says that the short path for an
  empty list of pairs emits what the general path would. This file proves when it does: there
  must be a Cell, each vector must have one owner, and the source must already be in the
  general path's normal form.
 */
module HierarchyShortPath {
  import opened Common
  import opened HierarchyTree
  import opened HierarchySurgery
  import opened HierarchyMerge
  import opened HierarchyOutput
  import opened HierarchyCopy
  import opened HierarchyMaterialize

  // ---------- The general path without pairs ----------

  /** With no pairs every Cell is a unit of its own, placed at its own leaf. */
  ghost function OwnUnits(s: Source, groups: seq<seq<nat>>): (units: seq<Unit>)
    requires IsTree(s) && |s.leaves| == |groups|
    ensures |units| == |groups|
    ensures forall k :: 0 <= k < |groups| ==>
      0 <= s.leaves[k] < |s.h| && units[k] == Unit([k], groups[k], s.leaves[k])
  {
    AllLeafFacts(s);
    seq(|groups|, k requires 0 <= k < |groups| => Unit([k], groups[k], s.leaves[k]))
  }

  lemma AllLeafFacts(s: Source)
    requires IsTree(s)
    ensures forall k :: 0 <= k < |s.leaves| ==> 0 <= s.leaves[k] < |s.h|
  {
  }

  lemma {:induction false} OwnKeys(s: Source, groups: seq<seq<nat>>, n: nat)
    requires IsTree(s) && |s.leaves| == |groups| && n <= |groups|
    ensures Keys(OwnUnits(s, groups)[..n]) == Iota(n)
  {
    hide IsTree, Keys, OwnUnits;
    var units := OwnUnits(s, groups);
    if n == 0 {
      NoMembers(groups, units);
      assert units[..0] == [] && Keys([]) == [] by {
        KeysOfNone();
      }
    } else {
      OwnKeys(s, groups, n - 1);
      assert units[..n] == units[..n - 1] + [units[n - 1]];
      KeysStep(units[..n - 1], units[n - 1]);
      IotaStep(n - 1);
    }
  }

  lemma KeysOfNone()
    ensures Keys([]) == []
  {
  }

  lemma OwnUnitsAreUnits(s: Source, groups: seq<seq<nat>>)
    requires IsTree(s) && |s.leaves| == |groups|
    ensures IsUnits(s, groups, map[], OwnUnits(s, groups)) && GroupsOf(OwnUnits(s, groups)) == groups
  {
    hide IsTree, Keys, OwnUnits, AtLca, Members, Occurrences;
    var units := OwnUnits(s, groups);
    forall k | 0 <= k < |units| ensures IsUnit(s, groups, map[], units[k]) {
      LeafPlaces(s, k);
      MembersOne(groups, k);
    }
    OwnKeys(s, groups, |groups|);
    assert units[..|groups|] == units;
    forall c | 0 <= c < |groups| ensures Occurrences(Keys(units), c) == 1 {
      NoDupOccurs(Iota(|groups|), c);
      assert Iota(|groups|)[c] == c;
    }
  }

  // ---------- The normal form ----------

  predicate Increasing(s: seq<nat>) {
    forall i, j :: 0 <= i < j < |s| ==> s[i] < s[j]
  }

  /** The counts stored in the first `n` children of `v`. */
  function ChildSum(s: Source, v: nat, n: nat): nat
    requires IsTree(s) && v < |s.h| && !s.h[v].cells && n <= |s.h[v].children|
  {
    if n == 0 then 0
    else
      ChildFacts(s, v, n - 1);
      ChildSum(s, v, n - 1) + s.h[s.h[v].children[n - 1]].descendants
  }

  /** No node is empty, leaves list their Cells in increasing order, stored counts are right. */
  predicate CanonicalAt(s: Source, sizes: seq<nat>, u: nat)
    requires IsTree(s) && u < |s.h| && |s.leaves| == |sizes|
  {
    LeafCellsInRange(s, u);
    && |s.h[u].children| > 0
    && if s.h[u].cells then Increasing(s.h[u].children) && s.h[u].descendants == Population(s.h[u].children, sizes)
       else s.h[u].descendants == ChildSum(s, u, |s.h[u].children|)
  }

  lemma LeafCellsInRange(s: Source, u: nat)
    requires IsTree(s) && u < |s.h|
    ensures s.h[u].cells ==> InRange(s.h[u].children, |s.leaves|)
  {
    assert Complete(s.h, s.parents, s.depths, s.leaves, u);
  }

  ghost predicate CanonicalUnder(s: Source, sizes: seq<nat>, v: nat)
    requires IsTree(s) && v < |s.h| && |s.leaves| == |sizes|
  {
    forall u :: 0 <= u < |s.h| && Under(s, v, u) ==> CanonicalAt(s, sizes, u)
  }

  lemma IncreasingLast(a: seq<nat>)
    requires Increasing(a) && |a| > 0
    ensures a[|a| - 1] in a && forall y :: y in a ==> y <= a[|a| - 1]
    ensures Increasing(a[..|a| - 1]) && a == a[..|a| - 1] + [a[|a| - 1]]
    ensures forall y :: y in a[..|a| - 1] <==> y in a && y != a[|a| - 1]
  {
    forall y | y in a && y != a[|a| - 1] ensures y in a[..|a| - 1] {
      var i :| 0 <= i < |a| && a[i] == y;
      assert a[..|a| - 1][i] == y;
    }
  }

  lemma {:induction false} SameIncreasing(a: seq<nat>, b: seq<nat>)
    requires Increasing(a) && Increasing(b) && forall x :: x in a <==> x in b
    ensures a == b
  {
    hide Increasing;
    if |b| > 0 {
      assert b[0] in a;
    }
    if |a| > 0 {
      assert a[0] in b;
      IncreasingLast(a);
      IncreasingLast(b);
      var x, c, d := a[|a| - 1], a[..|a| - 1], b[..|b| - 1];
      assert x in b && b[|b| - 1] in a;
      assert b[|b| - 1] == x;
      forall y ensures y in c <==> y in d {
        assert y in a <==> y in b;
      }
      SameIncreasing(c, d);
    }
  }

  /** A node's own units are the Cells it lists, in increasing order. */
  lemma OwnPlacement(s: Source, groups: seq<seq<nat>>, u: nat)
    requires IsTree(s) && |s.leaves| == |groups| && u < |s.h|
    ensures var own := At(|s.h|, OwnUnits(s, groups))[u];
      if s.h[u].cells then own == s.h[u].children <==> Increasing(s.h[u].children) else own == []
    ensures |At(|s.h|, OwnUnits(s, groups))[u]| > 0 ==> |s.h[u].children| > 0
  {
    hide IsTree, OwnUnits, PlacedHere;
    var units := OwnUnits(s, groups);
    var own := At(|s.h|, units)[u];
    PlacedHereOnce(units, u, 0);
    forall k ensures k in own <==> s.h[u].cells && k in s.h[u].children {
      if 0 <= k {
        PlacedHereOnce(units, u, k);
        LeafLists(s, u, k);
        assert k in own <==> Occurrences(own, k) > 0;
      }
    }
    if s.h[u].cells && Increasing(s.h[u].children) {
      SameIncreasing(own, s.h[u].children);
    }
    assert |own| > 0 ==> own[0] in own;
  }

  lemma LeafLists(s: Source, u: nat, k: nat)
    requires IsTree(s) && u < |s.h|
    ensures (k < |s.leaves| && s.leaves[k] == u) <==> s.h[u].cells && k in s.h[u].children
  {
    assert Complete(s.h, s.parents, s.depths, s.leaves, u);
  }

  // ---------- Both paths, node by node ----------

  /** The copies of the first `n` children of `v`, one after another from `lo`. */
  function CopyKids(s: Source, v: nat, n: nat, lo: nat): seq<HNode>
    requires IsTree(s) && v < |s.h| && !s.h[v].cells && n <= |s.h[v].children|
  {
    if n == 0 then []
    else
      ChildFacts(s, v, 0);
      UnfoldKids(s.h, s.h[v].children, n, lo, s.bound - s.depths[v] - 1)
  }

  function CopyIds(s: Source, v: nat, n: nat, lo: nat): (ids: seq<nat>)
    requires IsTree(s) && v < |s.h| && !s.h[v].cells && n <= |s.h[v].children|
    ensures |ids| == n
  {
    if n == 0 then []
    else
      ChildFacts(s, v, 0);
      UnfoldIds(s.h, s.h[v].children, n, lo, s.bound - s.depths[v] - 1)
  }

  /** The general path writes for the subtree at `v` what the short path writes. */
  ghost predicate Agree(s: Source, at: seq<seq<nat>>, sizes: seq<nat>, v: nat, lo: nat)
    requires IsTree(s) && v < |s.h| == |at|
  {
    var t := Pruned(s, at, v);
    t.Some? && InRange(CellsOf(t.value), |sizes|) && Layout(t.value, lo, sizes) == Copy(s, v, lo)
  }

  ghost predicate KidsAgree(s: Source, at: seq<seq<nat>>, sizes: seq<nat>, v: nat, n: nat, lo: nat)
    requires IsTree(s) && v < |s.h| == |at| && !s.h[v].cells && n <= |s.h[v].children|
  {
    var kids := PrunedKids(s, at, v, n);
    && |kids| == n && InRange(CellsOfAll(kids), |sizes|)
    && RootIds(kids, lo) == CopyIds(s, v, n, lo) && LayoutAll(kids, lo, sizes) == CopyKids(s, v, n, lo)
  }

  lemma {:induction false} KidsCount(s: Source, at: seq<seq<nat>>, v: nat, n: nat)
    requires IsTree(s) && v < |s.h| == |at| && !s.h[v].cells && n <= |s.h[v].children|
    ensures |PrunedKids(s, at, v, n)| <= n
  {
    hide IsTree, Pruned;
    if n > 0 {
      ChildFacts(s, v, n - 1);
      KidsCount(s, at, v, n - 1);
    }
  }

  lemma SplitAppend<T>(a: seq<T>, b: seq<T>, c: seq<T>, d: seq<T>)
    requires |a| == |c|
    ensures a + b == c + d <==> a == c && b == d
  {
    if a + b == c + d {
      assert (a + b)[..|a|] == a && (c + d)[..|a|] == c;
      assert (a + b)[|a|..] == b && (c + d)[|a|..] == d;
    }
  }

  lemma KidsStep(s: Source, at: seq<seq<nat>>, sizes: seq<nat>, v: nat, n: nat, lo: nat)
    requires IsTree(s) && v < |s.h| == |at| && !s.h[v].cells && n < |s.h[v].children|
    ensures s.h[v].children[n] < |s.h|
    ensures KidsAgree(s, at, sizes, v, n + 1, lo) <==>
      KidsAgree(s, at, sizes, v, n, lo) && Agree(s, at, sizes, s.h[v].children[n], lo + |CopyKids(s, v, n, lo)|)
  {
    hide IsTree, Pruned, PrunedKids, Copy, CopyKids, CopyIds, Layout, LayoutAll, RootIds, CellsOf, CellsOfAll,
         InRange, SizeAll;
    ChildFacts(s, v, n);
    KidsCount(s, at, v, n);
    KidsUnfold(s, at, v, n, lo);
    var c := s.h[v].children[n];
    var kids, t := PrunedKids(s, at, v, n), Pruned(s, at, c);
    if t.Some? {
      CellsOfAllAppend(kids, t.value);
      InRangeParts(CellsOfAll(kids), CellsOf(t.value), |sizes|);
      if InRange(CellsOfAll(kids), |sizes|) && InRange(CellsOf(t.value), |sizes|) {
        KidsStepSome(s, at, sizes, v, n, lo);
      }
    }
  }

  lemma KidsUnfold(s: Source, at: seq<seq<nat>>, v: nat, n: nat, lo: nat)
    requires IsTree(s) && v < |s.h| == |at| && !s.h[v].cells && n < |s.h[v].children| && s.h[v].children[n] < |s.h|
    ensures PrunedKids(s, at, v, n + 1) ==
      if Pruned(s, at, s.h[v].children[n]).None? then PrunedKids(s, at, v, n)
      else PrunedKids(s, at, v, n) + [Pruned(s, at, s.h[v].children[n]).value]
    ensures CopyKids(s, v, n + 1, lo) == CopyKids(s, v, n, lo) + Copy(s, s.h[v].children[n], lo + |CopyKids(s, v, n, lo)|)
    ensures CopyIds(s, v, n + 1, lo) == CopyIds(s, v, n, lo) + [lo + |CopyKids(s, v, n, lo)|]
  {
    hide IsTree, Pruned, Copy, CopyKids, CopyIds;
    CopyKidsUnfold(s, v, n, lo);
  }

  lemma CopyKidsUnfold(s: Source, v: nat, n: nat, lo: nat)
    requires IsTree(s) && v < |s.h| && !s.h[v].cells && n < |s.h[v].children| && s.h[v].children[n] < |s.h|
    ensures CopyKids(s, v, n + 1, lo) == CopyKids(s, v, n, lo) + Copy(s, s.h[v].children[n], lo + |CopyKids(s, v, n, lo)|)
    ensures CopyIds(s, v, n + 1, lo) == CopyIds(s, v, n, lo) + [lo + |CopyKids(s, v, n, lo)|]
  {
    hide IsTree, Unfold;
    ChildFacts(s, v, 0);
    ChildFacts(s, v, n);
    NodeFacts(s, v);
    NodeFacts(s, s.h[v].children[n]);
    var kids, d := s.h[v].children, s.bound - s.depths[v] - 1;
    assert UnfoldKids(s.h, kids, n, lo, d) == CopyKids(s, v, n, lo);
  }

  lemma KidsStepSome(s: Source, at: seq<seq<nat>>, sizes: seq<nat>, v: nat, n: nat, lo: nat)
    requires IsTree(s) && v < |s.h| == |at| && !s.h[v].cells && n < |s.h[v].children| && s.h[v].children[n] < |s.h|
    requires Pruned(s, at, s.h[v].children[n]).Some?
    requires InRange(CellsOfAll(PrunedKids(s, at, v, n)), |sizes|)
    requires InRange(CellsOf(Pruned(s, at, s.h[v].children[n]).value), |sizes|)
    ensures KidsAgree(s, at, sizes, v, n + 1, lo) <==>
      KidsAgree(s, at, sizes, v, n, lo) && Agree(s, at, sizes, s.h[v].children[n], lo + |CopyKids(s, v, n, lo)|)
  {
    hide IsTree, Pruned, PrunedKids, Copy, CopyKids, CopyIds, Layout, LayoutAll, RootIds, CellsOf, CellsOfAll,
         InRange, SizeAll;
    var c := s.h[v].children[n];
    var kids, t := PrunedKids(s, at, v, n), Pruned(s, at, c).value;
    var own, copied := LayoutAll(kids, lo, sizes), CopyKids(s, v, n, lo);
    KidsUnfold(s, at, v, n, lo);
    LayoutAllAppend(kids, t, lo, sizes);
    if |kids| == n {
      SplitAppend(RootIds(kids, lo), [lo + SizeAll(kids)], CopyIds(s, v, n, lo), [lo + |copied|]);
      assert [lo + SizeAll(kids)] == [lo + |copied|] <==> SizeAll(kids) == |copied|;
      if |own| == |copied| {
        SplitAppend(own, Layout(t, lo + |own|, sizes), copied, Copy(s, c, lo + |copied|));
      }
    }
  }

  /** At one node the two paths agree when they agree on what hangs below and on the node itself. */
  lemma NodeStep(s: Source, at: seq<seq<nat>>, sizes: seq<nat>, v: nat, lo: nat)
    requires IsTree(s) && v < |s.h| == |at| && |sizes| == |s.leaves| && InRange(at[v], |sizes|)
    requires !s.h[v].cells ==> at[v] == []
    ensures s.h[v].cells ==> InRange(s.h[v].children, |sizes|)
    ensures s.h[v].cells ==>
      (Agree(s, at, sizes, v, lo) <==>
        at[v] == s.h[v].children && |at[v]| > 0 && s.h[v].descendants == Population(s.h[v].children, sizes))
    ensures !s.h[v].cells ==>
      (Agree(s, at, sizes, v, lo) <==>
        && |s.h[v].children| > 0 && KidsAgree(s, at, sizes, v, |s.h[v].children|, lo + 1)
        && s.h[v].descendants == Population(CellsOfAll(PrunedKids(s, at, v, |s.h[v].children|)), sizes))
  {
    hide IsTree, Pruned, PrunedKids, Copy, CopyKids, CopyIds, Layout, LayoutAll, RootIds, CellsOf, CellsOfAll,
         InRange, Population;
    NodeFacts(s, v);
    LeafCellsInRange(s, v);
    var node := s.h[v];
    if node.cells {
      LeafStep(s, at, sizes, v, lo);
    } else {
      InnerStep(s, at, sizes, v, lo);
    }
  }

  lemma LeafStep(s: Source, at: seq<seq<nat>>, sizes: seq<nat>, v: nat, lo: nat)
    requires IsTree(s) && v < |s.h| == |at| && |sizes| == |s.leaves| && InRange(at[v], |sizes|)
    requires s.h[v].cells && InRange(s.h[v].children, |sizes|)
    ensures Agree(s, at, sizes, v, lo) <==>
      at[v] == s.h[v].children && |at[v]| > 0 && s.h[v].descendants == Population(s.h[v].children, sizes)
  {
    hide IsTree, Layout, LayoutAll, PrunedKids, Copy, CellsOf, CellsOfAll, Population;
    var node := s.h[v];
    if |at[v]| > 0 {
      LeafLayout(node.centroid, node.radius, at[v], lo, sizes);
      var written := HNode(node.centroid, at[v], true, Population(at[v], sizes), node.radius);
      CopyOfLeaf(s, v, lo);
      assert [written] == [node] <==> written == node;
    }
  }

  lemma InnerStep(s: Source, at: seq<seq<nat>>, sizes: seq<nat>, v: nat, lo: nat)
    requires IsTree(s) && v < |s.h| == |at| && |sizes| == |s.leaves| && !s.h[v].cells && at[v] == []
    ensures Agree(s, at, sizes, v, lo) <==>
      && |s.h[v].children| > 0 && KidsAgree(s, at, sizes, v, |s.h[v].children|, lo + 1)
      && s.h[v].descendants == Population(CellsOfAll(PrunedKids(s, at, v, |s.h[v].children|)), sizes)
  {
    hide IsTree, PrunedKids, Copy, CopyKids, CopyIds, Layout, LayoutAll, RootIds, CellsOf, CellsOfAll, Population,
         InRange;
    var node, n := s.h[v], |s.h[v].children|;
    var kids := PrunedKids(s, at, v, n);
    KidsCount(s, at, v, n);
    var t := OutTree(node.centroid, node.radius, kids, []);
    assert Pruned(s, at, v) == if |kids| == 0 then None else Some(t);
    InnerCells(node.centroid, node.radius, kids);
    if |kids| > 0 && InRange(CellsOfAll(kids), |sizes|) {
      LayoutUnfolds(t, lo, sizes);
      CopyUnfolds(s, v, lo);
      InRangeIs(CellsOfAll(kids), |sizes|);
      var a := HNode(node.centroid, RootIds(kids, lo + 1), false, Population(CellsOfAll(kids), sizes), node.radius);
      var b := HNode(node.centroid, CopyIds(s, v, n, lo + 1), false, node.descendants, node.radius);
      SplitAppend([a], LayoutAll(kids, lo + 1, sizes), [b], CopyKids(s, v, n, lo + 1));
      assert [a] == [b] <==> a == b;
    }
  }

  lemma CopyUnfolds(s: Source, v: nat, lo: nat)
    requires IsTree(s) && v < |s.h| && !s.h[v].cells
    ensures Copy(s, v, lo) ==
      [HNode(s.h[v].centroid, CopyIds(s, v, |s.h[v].children|, lo + 1), false, s.h[v].descendants, s.h[v].radius)]
      + CopyKids(s, v, |s.h[v].children|, lo + 1)
  {
    hide IsTree, Unfold;
    NodeFacts(s, v);
    var kids, d := s.h[v].children, s.bound - s.depths[v];
    if |kids| > 0 {
      ChildFacts(s, v, 0);
      UnfoldInner(s.h, v, lo, d);
    } else {
      UnfoldLeaf(s.h, v, lo, d);
      assert [s.h[v]] + [] == [s.h[v]];
    }
  }

  lemma CopyOfLeaf(s: Source, v: nat, lo: nat)
    requires IsTree(s) && v < |s.h| && s.h[v].cells
    ensures Copy(s, v, lo) == [s.h[v]]
  {
    hide IsTree, Unfold;
    NodeFacts(s, v);
    UnfoldLeaf(s.h, v, lo, s.bound - s.depths[v]);
  }

  lemma InRangeIs(cells: seq<nat>, n: nat)
    requires InRange(cells, n)
    ensures forall i :: 0 <= i < |cells| ==> cells[i] < n
  {
  }

  // ---------- The exact condition ----------

  lemma LeafCanonical(s: Source, sizes: seq<nat>, v: nat)
    requires IsTree(s) && v < |s.h| && |s.leaves| == |sizes| && s.h[v].cells
    ensures CanonicalUnder(s, sizes, v) <==> CanonicalAt(s, sizes, v)
  {
    hide IsTree, Under, CanonicalAt;
    SelfUnder(s, v);
    forall u | 0 <= u < |s.h| && Under(s, v, u) ensures u == v {
      if u != v {
        UnderChild(s, v, u);
      }
    }
  }

  ghost predicate KidsCanonical(s: Source, sizes: seq<nat>, v: nat, n: nat)
    requires IsTree(s) && v < |s.h| && |s.leaves| == |sizes| && !s.h[v].cells && n <= |s.h[v].children|
  {
    forall i :: 0 <= i < n ==> s.h[v].children[i] < |s.h| && CanonicalUnder(s, sizes, s.h[v].children[i])
  }

  lemma InnerCanonical(s: Source, sizes: seq<nat>, v: nat)
    requires IsTree(s) && v < |s.h| && |s.leaves| == |sizes| && !s.h[v].cells
    ensures CanonicalUnder(s, sizes, v) <==>
      CanonicalAt(s, sizes, v) && KidsCanonical(s, sizes, v, |s.h[v].children|)
  {
    hide IsTree, Under, CanonicalAt;
    SelfUnder(s, v);
    var children := s.h[v].children;
    forall i | 0 <= i < |children| ensures children[i] < |s.h| {
      ChildFacts(s, v, i);
    }
    if CanonicalUnder(s, sizes, v) {
      forall i, u | 0 <= i < |children| && 0 <= u < |s.h| && Under(s, children[i], u) ensures CanonicalAt(s, sizes, u) {
        ChildUnder(s, v, i, u);
      }
    }
    if CanonicalAt(s, sizes, v) && KidsCanonical(s, sizes, v, |children|) {
      forall u | 0 <= u < |s.h| && Under(s, v, u) ensures CanonicalAt(s, sizes, u) {
        if u != v {
          UnderChild(s, v, u);
          var i :| 0 <= i < |children| && children[i] < |s.h| && Under(s, children[i], u);
        }
      }
    }
  }

  lemma {:induction false} AgreeIff(s: Source, groups: seq<seq<nat>>, v: nat, lo: nat)
    requires IsTree(s) && |s.leaves| == |groups| && v < |s.h|
    ensures var at := At(|s.h|, OwnUnits(s, groups));
      && (Agree(s, at, Sizes(groups), v, lo) <==> CanonicalUnder(s, Sizes(groups), v))
      && (Agree(s, at, Sizes(groups), v, lo) ==>
            s.h[v].descendants == Population(CellsOf(Pruned(s, at, v).value), Sizes(groups)))
    decreases s.bound - s.depths[v], 1, 0
  {
    hide IsTree, OwnUnits, Agree, KidsAgree, CanonicalUnder, KidsCanonical, Pruned, PrunedKids, CellsOf, CellsOfAll,
         Population, ChildSum;
    var at, sizes := At(|s.h|, OwnUnits(s, groups)), Sizes(groups);
    NodeFacts(s, v);
    OwnPlacement(s, groups, v);
    OwnInRange(s, groups, v);
    NodeStep(s, at, sizes, v, lo);
    if s.h[v].cells {
      LeafCanonical(s, sizes, v);
    } else {
      InnerCanonical(s, sizes, v);
      KidsAgreeIff(s, groups, v, |s.h[v].children|, lo + 1);
    }
    AgreeCounts(s, at, sizes, v, lo);
  }

  lemma CopyRoot(s: Source, v: nat, lo: nat)
    requires IsTree(s) && v < |s.h|
    ensures |Copy(s, v, lo)| > 0 && Copy(s, v, lo)[0].descendants == s.h[v].descendants
  {
    hide IsTree, Copy, CopyKids, CopyIds;
    if s.h[v].cells {
      CopyOfLeaf(s, v, lo);
    } else {
      CopyUnfolds(s, v, lo);
    }
  }

  lemma AgreeCounts(s: Source, at: seq<seq<nat>>, sizes: seq<nat>, v: nat, lo: nat)
    requires IsTree(s) && v < |s.h| == |at|
    ensures Agree(s, at, sizes, v, lo) ==>
      && Pruned(s, at, v).Some? && InRange(CellsOf(Pruned(s, at, v).value), |sizes|)
      && s.h[v].descendants == Population(CellsOf(Pruned(s, at, v).value), sizes)
  {
    hide IsTree, Pruned, LayoutAll, Copy, CellsOf, RootIds, Population;
    if Agree(s, at, sizes, v, lo) {
      LayoutRoot(Pruned(s, at, v).value, lo, sizes);
      CopyRoot(s, v, lo);
    }
  }

  lemma OwnInRange(s: Source, groups: seq<seq<nat>>, u: nat)
    requires IsTree(s) && |s.leaves| == |groups| && u < |s.h|
    ensures InRange(At(|s.h|, OwnUnits(s, groups))[u], |groups|)
  {
    hide IsTree, OwnUnits, PlacedHere;
    PlacedHereOnce(OwnUnits(s, groups), u, 0);
  }

  lemma {:induction false} KidsAgreeIff(s: Source, groups: seq<seq<nat>>, v: nat, n: nat, lo: nat)
    requires IsTree(s) && |s.leaves| == |groups| && v < |s.h| && !s.h[v].cells && n <= |s.h[v].children|
    ensures var at := At(|s.h|, OwnUnits(s, groups));
      && (KidsAgree(s, at, Sizes(groups), v, n, lo) <==> KidsCanonical(s, Sizes(groups), v, n))
      && (KidsAgree(s, at, Sizes(groups), v, n, lo) ==>
            Population(CellsOfAll(PrunedKids(s, at, v, n)), Sizes(groups)) == ChildSum(s, v, n))
    decreases s.bound - s.depths[v], 0, n
  {
    hide IsTree, OwnUnits, Agree, KidsAgree, CanonicalUnder, Pruned, PrunedKids, CellsOf, CellsOfAll, Population,
         ChildSum;
    var at, sizes := At(|s.h|, OwnUnits(s, groups)), Sizes(groups);
    if n == 0 {
      NoKidsAgree(s, at, sizes, v, lo);
    } else {
      var c := s.h[v].children[n - 1];
      ChildFacts(s, v, n - 1);
      NodeFacts(s, c);
      KidsAgreeIff(s, groups, v, n - 1, lo);
      AgreeIff(s, groups, c, lo + |CopyKids(s, v, n - 1, lo)|);
      KidsStep(s, at, sizes, v, n - 1, lo);
      if KidsAgree(s, at, sizes, v, n, lo) {
        KidsPopulation(s, at, sizes, v, n - 1, lo);
        AgreeCounts(s, at, sizes, c, lo + |CopyKids(s, v, n - 1, lo)|);
      }
    }
  }

  lemma NoKidsAgree(s: Source, at: seq<seq<nat>>, sizes: seq<nat>, v: nat, lo: nat)
    requires IsTree(s) && v < |s.h| == |at| && !s.h[v].cells
    ensures KidsAgree(s, at, sizes, v, 0, lo) && InRange(CellsOfAll(PrunedKids(s, at, v, 0)), |sizes|)
    ensures Population(CellsOfAll(PrunedKids(s, at, v, 0)), sizes) == 0 == ChildSum(s, v, 0)
  {
    hide IsTree;
  }

  lemma KidsPopulation(s: Source, at: seq<seq<nat>>, sizes: seq<nat>, v: nat, n: nat, lo: nat)
    requires IsTree(s) && v < |s.h| == |at| && !s.h[v].cells && n < |s.h[v].children| && s.h[v].children[n] < |s.h|
    requires KidsAgree(s, at, sizes, v, n, lo)
    requires Agree(s, at, sizes, s.h[v].children[n], lo + |CopyKids(s, v, n, lo)|)
    ensures InRange(CellsOfAll(PrunedKids(s, at, v, n + 1)), |sizes|)
    ensures InRange(CellsOfAll(PrunedKids(s, at, v, n)), |sizes|)
    ensures InRange(CellsOf(Pruned(s, at, s.h[v].children[n]).value), |sizes|)
    ensures Population(CellsOfAll(PrunedKids(s, at, v, n + 1)), sizes)
      == Population(CellsOfAll(PrunedKids(s, at, v, n)), sizes)
         + Population(CellsOf(Pruned(s, at, s.h[v].children[n]).value), sizes)
    ensures ChildSum(s, v, n + 1) == ChildSum(s, v, n) + s.h[s.h[v].children[n]].descendants
  {
    hide IsTree, Pruned, PrunedKids, CellsOf, CellsOfAll, Population, InRange, Copy, CopyKids, CopyIds, LayoutAll,
         Layout, RootIds;
    KidsUnfold(s, at, v, n, lo);
    var kids, t := PrunedKids(s, at, v, n), Pruned(s, at, s.h[v].children[n]).value;
    CellsOfAllAppend(kids, t);
    PopulationAdds(CellsOfAll(kids), CellsOf(t), sizes);
  }

  // ---------- When the two paths return the same ----------

  /** The general path, run without pairs, returns `m`. */
  ghost predicate GeneralReturns(s: Source, groups: seq<seq<nat>>, m: Merged) {
    OneOwner(groups) && exists units :: IsMerge(s, groups, map[], units, m)
  }

  /** The general path run without pairs returns what `GeneralReturns` says and nothing else. */
  method WithoutPairs(s: Source, groups: seq<seq<nat>>) returns (r: Result<Merged, Error>)
    requires IsTree(s) && |s.leaves| == |groups|
    ensures forall m :: r == Ok(m) <==> GeneralReturns(s, groups, m)
    ensures r.Ok? <==> |groups| > 0 && OneOwner(groups)
  {
    hide IsTree, OneOwner, IsMerge, Matching;
    NoPairs(groups);
    ghost var units;
    r, units := MergeUnits(s, groups, map[]);
    forall m | GeneralReturns(s, groups, m) ensures r == Ok(m) {
      var others :| IsMerge(s, groups, map[], others, m);
      MergeHasCells(s, groups, others, m);
      MergeIsOwn(s, groups, others, m);
      MergeIsOwn(s, groups, units, r.value);
    }
  }

  lemma MergeHasCells(s: Source, groups: seq<seq<nat>>, units: seq<Unit>, m: Merged)
    requires IsMerge(s, groups, map[], units, m)
    ensures |groups| > 0
  {
    hide IsTree, IsUnits, Matching;
    SomeUnit(s, groups, map[], units);
  }

  lemma {:induction false} SingleKeys(units: seq<Unit>, n: nat)
    requires n <= |units| && forall i :: 0 <= i < |units| ==> |units[i].key| == 1
    ensures |Keys(units[..n])| == n && forall i :: 0 <= i < n ==> Keys(units[..n])[i] == units[i].key[0]
  {
    if n > 0 {
      SingleKeys(units, n - 1);
      assert units[..n] == units[..n - 1] + [units[n - 1]];
      KeysStep(units[..n - 1], units[n - 1]);
    }
  }

  lemma UnitsAreSingle(s: Source, groups: seq<seq<nat>>, units: seq<Unit>)
    requires IsTree(s) && |s.leaves| == |groups| && IsUnits(s, groups, map[], units)
    ensures forall i :: 0 <= i < |units| ==> |units[i].key| == 1
    ensures forall i, j :: 0 <= i < j < |units| ==> |units[i].key| == |units[j].key| == 1 && units[i].key[0] < units[j].key[0]
    ensures InRange(Keys(units), |groups|) && forall c :: 0 <= c < |groups| ==> Occurrences(Keys(units), c) == 1
  {
    hide IsTree, AtLca, Keys;
    forall i | 0 <= i < |units| ensures |units[i].key| == 1 {
      assert IsUnit(s, groups, map[], units[i]);
    }
    forall i, j | 0 <= i < j < |units| ensures units[i].key[0] < units[j].key[0] {
      assert Ahead(units[i], units[j]);
    }
  }

  /** Increasing single keys that name every Cell once are 0, 1, ... */
  lemma KeysAreIota(s: Source, groups: seq<seq<nat>>, units: seq<Unit>)
    requires IsTree(s) && |s.leaves| == |groups| && IsUnits(s, groups, map[], units)
    ensures |units| == |groups| && forall i :: 0 <= i < |units| ==> units[i].key == [i]
  {
    hide IsTree, IsUnits, Keys;
    UnitsAreSingle(s, groups, units);
    SingleKeys(units, |units|);
    assert units[..|units|] == units;
    var keys, n := Keys(units), |groups|;
    forall x ensures x in keys <==> x in Iota(n) {
      if 0 <= x < n {
        assert Occurrences(keys, x) == 1;
        assert Iota(n)[x] == x;
      }
    }
    SameIncreasing(keys, Iota(n));
    forall i | 0 <= i < |units| ensures units[i].key == [i] {
      assert keys[i] == i;
    }
  }

  lemma LcaOfOne(s: Source, c: nat, p: nat)
    requires IsTree(s) && c < |s.leaves| && 0 <= s.leaves[c] < |s.h| && InRange([c], |s.leaves|) && AtLca(s, [c], p)
    ensures p == s.leaves[c]
  {
    hide IsTree;
    var leaf := s.leaves[c];
    SelfUnder(s, p);
    SelfUnder(s, leaf);
    assert UnderAll(s, p, [c]) && [c][0] == c;
    assert UnderAll(s, leaf, [c]);
    NodeFacts(s, p);
    NodeFacts(s, leaf);
  }

  /** Without pairs there is one way to form the units. */
  lemma UnitsAreOwn(s: Source, groups: seq<seq<nat>>, units: seq<Unit>)
    requires IsTree(s) && |s.leaves| == |groups| && IsUnits(s, groups, map[], units)
    ensures units == OwnUnits(s, groups)
  {
    hide IsTree, IsUnits, OwnUnits;
    KeysAreIota(s, groups, units);
    AllLeafFacts(s);
    forall i | 0 <= i < |units| ensures units[i] == OwnUnits(s, groups)[i] {
      UnitAt(s, groups, units, i);
      LcaOfOne(s, i, units[i].placement);
      MembersOne(groups, i);
    }
  }

  lemma UnitAt(s: Source, groups: seq<seq<nat>>, units: seq<Unit>, i: nat)
    requires IsTree(s) && |s.leaves| == |groups| && IsUnits(s, groups, map[], units) && i < |units|
    ensures var u := units[i];
      InRange(u.key, |groups|) && u.members == Members(groups, u.key) && AtLca(s, u.key, u.placement)
  {
    hide IsTree, AtLca, Members;
    assert IsUnit(s, groups, map[], units[i]);
  }

  /** What the general path returns without pairs. */
  lemma MergeIsOwn(s: Source, groups: seq<seq<nat>>, units: seq<Unit>, m: Merged)
    requires IsMerge(s, groups, map[], units, m)
    ensures IsTree(s) && |s.leaves| == |groups| && m.groups == groups && m.root == 0 && 0 <= s.root < |s.h|
    ensures var t := Pruned(s, At(|s.h|, OwnUnits(s, groups)), s.root);
      t.Some? && InRange(CellsOf(t.value), |groups|) && m.hierarchy == Layout(t.value, 0, Sizes(groups))
  {
    hide IsTree, IsUnits, Matching, Pruned, CellsOf, Layout, OwnUnits, At, InRange, IsUnit;
    UnitsAreOwn(s, groups, units);
    OwnUnitsAreUnits(s, groups);
    RootInRange(s);
  }

  lemma OwnIsMerge(s: Source, groups: seq<seq<nat>>, m: Merged)
    requires IsTree(s) && |s.leaves| == |groups| > 0 && 0 <= s.root < |s.h| && m.groups == groups && m.root == 0
    requires var t := Pruned(s, At(|s.h|, OwnUnits(s, groups)), s.root);
      t.Some? && InRange(CellsOf(t.value), |groups|) && m.hierarchy == Layout(t.value, 0, Sizes(groups))
    ensures IsMerge(s, groups, map[], OwnUnits(s, groups), m)
  {
    hide IsTree, IsUnits, Matching, Pruned, CellsOf, Layout, OwnUnits, At, InRange;
    OwnUnitsAreUnits(s, groups);
    NoPairs(groups);
  }

  /**
    The general path returns the copy that the short path makes if and only if there is a Cell,
    every vector has one owner, and the source is in normal form everywhere.
   */
  lemma ShortPathAgreesIff(s: Source, groups: seq<seq<nat>>)
    requires IsTree(s) && |s.leaves| == |groups| && 0 <= s.root < |s.h|
    ensures GeneralReturns(s, groups, Merged(groups, Copy(s, s.root, 0), 0)) <==>
      && |groups| > 0 && OneOwner(groups)
      && forall u :: 0 <= u < |s.h| ==> CanonicalAt(s, Sizes(groups), u)
  {
    hide IsTree, OwnUnits, Pruned, CellsOf, Copy, Layout, IsUnits, At, CanonicalAt, Under, Agree, OneOwner, IsMerge;
    var m := Merged(groups, Copy(s, s.root, 0), 0);
    AgreeIff(s, groups, s.root, 0);
    AgreeIs(s, groups);
    forall u | 0 <= u < |s.h| ensures Under(s, s.root, u) {
      RootIsAboveAll(s, u);
    }
    if GeneralReturns(s, groups, m) {
      var units :| IsMerge(s, groups, map[], units, m);
      MergeHasCells(s, groups, units, m);
      MergeIsOwn(s, groups, units, m);
    }
    if |groups| > 0 && Agree(s, At(|s.h|, OwnUnits(s, groups)), Sizes(groups), s.root, 0) {
      OwnIsMerge(s, groups, m);
    }
  }

  lemma AgreeIs(s: Source, groups: seq<seq<nat>>)
    requires IsTree(s) && |s.leaves| == |groups| && 0 <= s.root < |s.h|
    ensures var t := Pruned(s, At(|s.h|, OwnUnits(s, groups)), s.root);
      Agree(s, At(|s.h|, OwnUnits(s, groups)), Sizes(groups), s.root, 0) <==>
        t.Some? && InRange(CellsOf(t.value), |groups|) && Layout(t.value, 0, Sizes(groups)) == Copy(s, s.root, 0)
  {
    hide IsTree, Pruned, OwnUnits, Layout, CellsOf, Copy, At, InRange;
  }

  // ---------- Where they differ ----------

  /** One leaf over everything. */
  function OneLeaf(cells: seq<nat>, count: nat): Source {
    Source(0, [HNode([], cells, true, count, 0.0)], [-1], [0], seq(|cells|, _ => 0), 0)
  }

  lemma OneLeafIsTree(cells: seq<nat>, count: nat)
    requires cells == [] || cells == [0, 1] || cells == [1, 0]
    ensures IsTree(OneLeaf(cells, count))
  {
    var s := OneLeaf(cells, count);
    assert Complete(s.h, s.parents, s.depths, s.leaves, 0);
  }

  /** A leaf that lists Cell 1 before Cell 0: the general path returns it reordered, the short path as it is. */
  method ReorderedLeaf() returns (r: Result<Merged, Error>)
    ensures var s, groups := OneLeaf([1, 0], 2), [[0], [1]];
      && IsTree(s) && r.Ok? && GeneralReturns(s, groups, r.value)
      && r.value.hierarchy != Copy(s, 0, 0)
  {
    hide IsTree, Copy, IsMerge, CanonicalAt;
    var s, groups: seq<seq<nat>> := OneLeaf([1, 0], 2), [[0], [1]];
    OneLeafIsTree([1, 0], 2);
    ExampleOwners();
    r := WithoutPairs(s, groups);
    ShortPathAgreesIff(s, groups);
    NotCanonical(s, groups);
    ghost var units :| IsMerge(s, groups, map[], units, r.value);
    MergeIsOwn(s, groups, units, r.value);
  }

  lemma NotCanonical(s: Source, groups: seq<seq<nat>>)
    requires s == OneLeaf([1, 0], 2) && IsTree(s) && groups == [[0], [1]]
    ensures !CanonicalAt(s, Sizes(groups), 0)
  {
    hide IsTree;
    assert [1, 0][0] > [1, 0][1];
  }

  lemma ExampleOwners()
    ensures OneOwner([[0], [1]])
  {
    var groups: seq<seq<nat>> := [[0], [1]];
    assert Iota(2) == [0, 1];
    MembersTwo(groups, 0, 1);
    assert AllMembers(groups) == [0, 1];
  }

  /** A vector in two Cells: the source is in normal form and the short path copies it, the general path refuses. */
  lemma SharedVector()
    ensures var s, groups: seq<seq<nat>> := OneLeaf([0, 1], 2), [[0], [0]];
      && IsTree(s) && (forall u :: 0 <= u < |s.h| ==> CanonicalAt(s, Sizes(groups), u))
      && forall m :: !GeneralReturns(s, groups, m)
  {
    hide IsMerge;
    var s, groups: seq<seq<nat>> := OneLeaf([0, 1], 2), [[0], [0]];
    OneLeafIsTree([0, 1], 2);
    assert Population([0, 1], Sizes(groups)) == 1 + Population([1], Sizes(groups)) by {
      assert [0, 1][1..] == [1];
    }
    assert Population([1], Sizes(groups)) == 1 + Population([], Sizes(groups));
    assert Iota(2) == [0, 1];
    MembersTwo(groups, 0, 1);
    assert AllMembers(groups) == [0, 0];
    assert Occurrences(AllMembers(groups), 0) == 2;
  }

  /** No Cells at all: the short path copies the root, the general path drops it and refuses. */
  lemma NoCells()
    ensures var s: Source := OneLeaf([], 0);
      && IsTree(s) && OneOwner([]) && forall m :: !GeneralReturns(s, [], m)
  {
    hide IsTree, IsMerge, IsUnits, Pruned;
    OneLeafIsTree([], 0);
    assert AllMembers([]) == [];
    forall m ensures !GeneralReturns(OneLeaf([], 0), [], m) {
      if GeneralReturns(OneLeaf([], 0), [], m) {
        var units :| IsMerge(OneLeaf([], 0), [], map[], units, m);
        MergeHasCells(OneLeaf([], 0), [], units, m);
      }
    }
  }
}
