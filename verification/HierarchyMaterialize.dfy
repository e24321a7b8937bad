/**
  materialize_pair_merges in python/train_geometric_cells.py as one operation, its short path
  for an empty list of pairs, and exactly when that short path agrees with the general one.
 */
module HierarchyMaterialize {
  import opened Common
  import opened HierarchyTree
  import opened HierarchySurgery
  import opened HierarchyMerge
  import opened HierarchyOutput
  import opened HierarchyCopy

  // ---------- The operation ----------

  function TotalSize(groups: seq<seq<nat>>): nat {
    if |groups| == 0 then 0 else TotalSize(groups[..|groups| - 1]) + |groups[|groups| - 1]|
  }

  lemma {:induction false} TotalIsAll(groups: seq<seq<nat>>, n: nat)
    requires n <= |groups|
    ensures TotalSize(groups[..n]) == |Members(groups, Iota(n))|
  {
    if n > 0 {
      TotalIsAll(groups, n - 1);
      MembersIotaStep(groups, n - 1);
      assert groups[..n][..n - 1] == groups[..n - 1];
    }
  }

  /** The short path copied the hierarchy: the nodes below the root in preorder, under their new numbers. */
  ghost predicate IsCopy(root: nat, h: seq<HNode>, groups: seq<seq<nat>>, m: Merged) {
    && m.groups == groups && m.root == 0
    && exists d: nat :: Copied(root, h, d, m.hierarchy)
  }

  ghost predicate Copied(root: nat, h: seq<HNode>, d: nat, nodes: seq<HNode>) {
    Sound(h, root, d) && nodes == Unfold(h, root, 0, d) && Renumbers(h, Preorder(h, root, d), 0, nodes)
  }

  ghost predicate IsSomeMerge(root: nat, h: seq<HNode>, groups: seq<seq<nat>>, pairs: seq<Pair>, m: Merged) {
    exists s, partner, units :: IsMerge(s, groups, partner, units, m) && Partners(pairs, partner) && s.root == root && s.h == h
  }

  /**
    With pairs, the merge is refused exactly when the hierarchy, the pairs or the owners are wrong.
    Without, the hierarchy is copied unless a listed node does not exist; a hierarchy in which the
    recursion never ends has no result.
   */
  method MaterializePairMerges(root: nat, h: seq<HNode>, groups: seq<seq<nat>>, pairs: seq<Pair>)
    returns (r: Result<Merged, Error>)
    requires pairs == [] ==> exists d: nat :: Ends(h, root, d)
    ensures pairs == [] ==> (r.Ok? <==> exists d: nat :: Sound(h, root, d)) && (r.Err? ==> r.error == IndexError)
    ensures pairs == [] && r.Ok? ==> IsCopy(root, h, groups, r.value)
    ensures pairs == [] && HasTree(root, h, |groups|) ==> r.Ok? && HasTree(0, r.value.hierarchy, |groups|)
    ensures pairs != [] ==> (r.Ok? <==> HasTree(root, h, |groups|) && Mergeable(groups, pairs) && OneOwner(groups))
    ensures pairs != [] && r.Ok? ==> IsSomeMerge(root, h, groups, pairs, r.value)
  {
    hide IsTree, Mergeable, Partners, Matching, OneOwner, IsMerge, Unfold, Sound, Ends, Preorder, Renumbers, HasTree;
    if pairs == [] {
      r := CopyUnmerged(root, h, groups);
      return;
    }
    var checked := ParentDepthAndCellLeaves(root, h, |groups|);
    if checked.Err? {
      return Err(checked.error);
    }
    var paired := PairUp(groups, pairs);
    if paired.Err? {
      return Err(paired.error);
    }
    SomeCell(groups, pairs);
    ghost var units;
    r, units := MergeUnits(checked.value, groups, paired.value);
    if r.Ok? {
      assert IsMerge(checked.value, groups, paired.value, units, r.value);
    }
  }

  method CopyUnmerged(root: nat, h: seq<HNode>, groups: seq<seq<nat>>) returns (r: Result<Merged, Error>)
    requires exists d: nat :: Ends(h, root, d)
    ensures (r.Ok? <==> exists d: nat :: Sound(h, root, d)) && (r.Err? ==> r.error == IndexError)
    ensures r.Ok? ==> IsCopy(root, h, groups, r.value)
    ensures HasTree(root, h, |groups|) ==> r.Ok? && HasTree(0, r.value.hierarchy, |groups|)
  {
    hide IsTree, Unfold, Sound, Ends, Preorder, Renumbers, HasTree;
    ghost var d: nat :| Ends(h, root, d);
    forall e: nat | Sound(h, root, e) ensures Sound(h, root, d) {
      SoundAtAnyDepth(h, root, e, d);
    }
    if HasTree(root, h, |groups|) {
      TreeIsCopied(root, h, |groups|, d);
    }
    var copier := new HierarchyCopier(h);
    var id := copier.Append(root, d);
    if id.None? {
      return Err(IndexError);
    }
    UnfoldRenumbers(h, root, 0, d);
    assert [] + Unfold(h, root, 0, d) == Unfold(h, root, 0, d);
    assert Copied(root, h, d, copier.out);
    return Ok(Merged(groups, copier.out, id.value));
  }

  /** The copy of a tree is a tree over the same Cells. */
  lemma TreeIsCopied(root: nat, h: seq<HNode>, cellCount: nat, d: nat)
    requires HasTree(root, h, cellCount) && Ends(h, root, d)
    ensures Sound(h, root, d) && HasTree(0, Unfold(h, root, 0, d), cellCount)
  {
    hide IsTree, Unfold, Sound, Ends;
    var s :| IsTree(s) && s.root == root && s.h == h && |s.leaves| == cellCount;
    RootInRange(s);
    TreeIsSound(s, root);
    SoundAtAnyDepth(h, root, s.bound - s.depths[root], d);
    CopyIsTree(s);
    SameUnfold(h, root, 0, d, s.bound - s.depths[root]);
  }

  lemma SomeCell(groups: seq<seq<nat>>, pairs: seq<Pair>)
    requires Mergeable(groups, pairs) && pairs != []
    ensures |groups| > 0
  {
    assert Fits(groups, pairs[0]);
  }

  lemma RootInRange(s: Source)
    requires IsTree(s)
    ensures 0 <= s.root < |s.h| == |s.depths| && 0 <= s.depths[s.root] <= s.bound
  {
  }

  /** The general path after the checks: refused when there is no Cell at all or the owners are wrong. */
  method MergeUnits(s: Source, groups: seq<seq<nat>>, partner: map<nat, nat>)
    returns (r: Result<Merged, Error>, ghost units: seq<Unit>)
    requires IsTree(s) && |s.leaves| == |groups| && Matching(groups, partner)
    ensures r.Ok? <==> |groups| > 0 && OneOwner(groups)
    ensures r.Ok? ==> IsMerge(s, groups, partner, units, r.value)
  {
    hide IsTree, Matching, OneOwner, IsUnits, Layout, Pruned, InRange, CellsOf, CellsLeft, At, Members, Iota,
         GroupsOf, PlacedAt;
    var list := MakeUnits(s, groups, partner);
    units := list;
    UnitPlaces(s, groups, partner, list);
    SomeUnit(s, groups, partner, list);
    RootInRange(s);
    if |groups| == 0 {
      NoCellsNoRoot(s, list);
    }
    var at := Placements(|s.h|, list);
    UnitsPlaced(s, list);
    PlacesInRange(s, at, Places(list));
    var outGroups := GroupsOf(list);
    var writer := new HierarchyWriter(s, at, Sizes(outGroups));
    var id := writer.Append(s.root);
    var out := writer.out;
    if id.None? {
      if |groups| > 0 {
        RootKeepsEveryCell(s, at, Places(list), 0);
      }
      return Err(ProfileError), list;
    }
    RootKeepsEveryCell(s, at, Places(list), 0);
    MergeConservesVectors(s, groups, partner, list);
    TotalIsAll(groups, |groups|);
    assert groups[..|groups|] == groups;
    var err := CheckOwners(outGroups, TotalSize(groups));
    if err.Some? {
      return Err(err.value), list;
    }
    r := Ok(Merged(outGroups, out, id.value));
    MakeMerge(s, groups, partner, list, r.value);
  }

  lemma MakeMerge(s: Source, groups: seq<seq<nat>>, partner: map<nat, nat>, units: seq<Unit>, m: Merged)
    requires IsTree(s) && |s.leaves| == |groups| && Matching(groups, partner) && IsUnits(s, groups, partner, units)
    requires |units| > 0 && m.groups == GroupsOf(units) && m.root == 0 && 0 <= s.root < |s.h|
    requires var t := Pruned(s, At(|s.h|, units), s.root);
      t.Some? && InRange(CellsOf(t.value), |units|) && m.hierarchy == [] + Layout(t.value, 0, Sizes(m.groups))
    ensures IsMerge(s, groups, partner, units, m)
  {
    hide IsTree, Matching, IsUnits, Layout, Pruned, CellsOf, At, InRange;
    var t := Pruned(s, At(|s.h|, units), s.root).value;
    assert [] + Layout(t, 0, Sizes(m.groups)) == Layout(t, 0, Sizes(m.groups));
  }

  lemma PlacesInRange(s: Source, at: seq<seq<nat>>, place: seq<nat>)
    requires PlacedAt(s, at, place)
    ensures forall u :: 0 <= u < |at| ==> InRange(at[u], |place|)
  {
  }

  lemma SomeUnit(s: Source, groups: seq<seq<nat>>, partner: map<nat, nat>, units: seq<Unit>)
    requires IsTree(s) && |s.leaves| == |groups| && IsUnits(s, groups, partner, units)
    ensures |units| > 0 <==> |groups| > 0
  {
    hide IsTree, AtLca;
    if |groups| > 0 {
      assert Occurrences(Keys(units), 0) == 1;
    }
    if |units| > 0 {
      assert IsUnit(s, groups, partner, units[0]);
      SomeInRange(units[0].key, |groups|);
    }
  }

  /** Without Cells the general path drops every node, the root included. */
  lemma NoCellsNoRoot(s: Source, units: seq<Unit>)
    requires IsTree(s) && |units| == 0 && 0 <= s.root < |s.h|
    ensures Pruned(s, At(|s.h|, units), s.root).None?
  {
    hide IsTree, Pruned, SubtreeNodes, At, CellsOf;
    UnitsPlaced(s, units);
    var at := At(|s.h|, units);
    PrunedKeepsOwn(s, at, Places(units), s.root);
    var t := Pruned(s, at, s.root);
    if t.Some? {
      ProperHasCells(t.value);
      SomeInRange(CellsLeft(t), |units|);
    }
  }

  lemma SomeInRange(cells: seq<nat>, n: nat)
    requires InRange(cells, n) && |cells| > 0
    ensures n > 0
  {
    assert cells[0] < n;
  }

  lemma {:induction false} ProperHasCells(t: OutTree)
    requires Proper(t)
    ensures |CellsOf(t)| > 0
    decreases t
  {
    if |t.kids| > 0 {
      ProperHasCells(t.kids[0]);
      assert |CellsOfAll(t.kids)| >= |CellsOf(t.kids[0])|;
    }
  }
}
