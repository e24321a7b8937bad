/**
  The Cell hierarchy of python/train_geometric_cells.py as an array of nodes, the walk that
  checks it and records parents, depths and Cell leaves, and lowest common ancestors.
 */
module HierarchyTree {
  import opened Common

  datatype Error = ProfileError | IndexError

  /** `children` are node ids, or Cell ids when `cells` holds. */
  datatype HNode = HNode(centroid: seq<real>, children: seq<nat>, cells: bool, descendants: nat, radius: real)

  /** Node `v` has been visited and everything directly under it is recorded as its own. */
  ghost predicate Complete(h: seq<HNode>, parents: seq<int>, depths: seq<int>, leaves: seq<int>, v: int)
    requires |parents| == |depths| == |h| && 0 <= v < |h|
  {
    && depths[v] >= 0 && NoDup(h[v].children)
    && (!h[v].cells ==> forall i :: 0 <= i < |h[v].children| ==>
          var c := h[v].children[i];
          c < |h| && parents[c] == v && depths[c] == depths[v] + 1)
    && (h[v].cells ==> forall i :: 0 <= i < |h[v].children| ==>
          h[v].children[i] < |leaves| && leaves[h[v].children[i]] == v)
  }

  /** What holds of the three tables at every moment of the walk. */
  ghost predicate Consistent(root: int, h: seq<HNode>, parents: seq<int>, depths: seq<int>, leaves: seq<int>) {
    && |parents| == |depths| == |h| && 0 <= root < |h|
    && (forall c :: 0 <= c < |h| ==> depths[c] >= -1)
    && (forall c :: 0 <= c < |h| && parents[c] != -1 ==>
          && 0 <= parents[c] < |h| && depths[parents[c]] >= 0
          && !h[parents[c]].cells && c in h[parents[c]].children
          && (c != root && depths[c] >= 0 ==> depths[c] == depths[parents[c]] + 1))
    && (forall c :: 0 <= c < |h| && depths[c] >= 0 && c != root ==> parents[c] != -1)
    && (depths[root] >= 0 ==> depths[root] == 0)
    && (forall k :: 0 <= k < |leaves| && leaves[k] != -1 ==>
          && 0 <= leaves[k] < |h| && depths[leaves[k]] >= 0
          && h[leaves[k]].cells && k in h[leaves[k]].children)
  }

  /** Entries that were set stay as they are. */
  ghost predicate Extends(before: seq<int>, after: seq<int>) {
    |after| == |before| && forall i :: 0 <= i < |before| && before[i] != -1 ==> after[i] == before[i]
  }

  lemma CompleteStays(h: seq<HNode>, p: seq<int>, d: seq<int>, l: seq<int>, p': seq<int>, d': seq<int>, l': seq<int>,
                      v: int)
    requires |p| == |d| == |h| && 0 <= v < |h| && Complete(h, p, d, l, v)
    requires Extends(p, p') && Extends(d, d') && Extends(l, l')
    ensures Complete(h, p', d', l', v)
  {
  }

  /** A checked hierarchy with its tables; `bound` is no smaller than any depth. */
  datatype Source = Source(root: nat, h: seq<HNode>, parents: seq<int>, depths: seq<int>, leaves: seq<int>, bound: int)

  /** Every node and Cell has its one place under the root. */
  ghost predicate IsTree(s: Source) {
    && Consistent(s.root, s.h, s.parents, s.depths, s.leaves)
    && s.parents[s.root] == -1 && s.depths[s.root] == 0
    && (forall v :: 0 <= v < |s.h| ==> Complete(s.h, s.parents, s.depths, s.leaves, v) && s.depths[v] <= s.bound)
    && (forall k :: 0 <= k < |s.leaves| ==> s.leaves[k] != -1)
  }

  function Unvisited(depths: seq<int>): set<int> {
    set v | 0 <= v < |depths| && depths[v] == -1
  }

  lemma ExtendsTrans(a: seq<int>, b: seq<int>, c: seq<int>)
    requires Extends(a, b) && Extends(b, c)
    ensures Extends(a, c)
  {
  }

  lemma ExtendsSet(a: seq<int>, i: nat, x: int)
    requires i < |a| && a[i] == -1
    ensures Extends(a, a[i := x])
  {
  }

  lemma UnvisitedShrinks(before: seq<int>, after: seq<int>)
    requires Extends(before, after)
    ensures Unvisited(after) <= Unvisited(before)
  {
  }

  lemma UnvisitedDrops(depths: seq<int>, v: nat, depth: nat)
    requires v < |depths| && depths[v] == -1
    ensures Unvisited(depths[v := depth]) < Unvisited(depths)
  {
    assert v in Unvisited(depths) && v !in Unvisited(depths[v := depth]);
  }

  lemma StartConsistent(root: nat, h: seq<HNode>, cellCount: nat)
    requires root < |h|
    ensures Consistent(root, h, seq(|h|, _ => -1), seq(|h|, _ => -1), seq(cellCount, _ => -1))
  {
  }

  lemma ClaimKeepsConsistent(root: int, h: seq<HNode>, p: seq<int>, d: seq<int>, l: seq<int>, node: nat, child: nat)
    requires Consistent(root, h, p, d, l) && node < |h| && child < |h|
    requires p[child] == -1 && d[node] >= 0 && !h[node].cells && child in h[node].children
    ensures Consistent(root, h, p[child := node], d, l)
  {
  }

  lemma MarkKeepsConsistent(root: int, h: seq<HNode>, p: seq<int>, d: seq<int>, l: seq<int>, node: nat, depth: nat)
    requires Consistent(root, h, p, d, l) && node < |h| && d[node] == -1
    requires if node == root then depth == 0 else p[node] != -1 && depth == d[p[node]] + 1
    ensures Consistent(root, h, p, d[node := depth], l)
  {
  }

  lemma CellKeepsConsistent(root: int, h: seq<HNode>, p: seq<int>, d: seq<int>, l: seq<int>, node: nat, cell: nat)
    requires Consistent(root, h, p, d, l) && node < |h| && cell < |l|
    requires d[node] >= 0 && h[node].cells && cell in h[node].children
    ensures Consistent(root, h, p, d, l[cell := node])
  {
  }

  /** The first `n` children of `node` have been claimed and visited. */
  ghost predicate Claimed(children: seq<nat>, n: nat, p: seq<int>, d: seq<int>, node: int, depth: int) {
    && n <= |children| && |p| == |d| && NoDup(children[..n])
    && forall j :: 0 <= j < n ==> children[j] < |p| && p[children[j]] == node && d[children[j]] == depth + 1
  }

  lemma ClaimedStays(children: seq<nat>, n: nat, p: seq<int>, d: seq<int>, node: nat, depth: nat, p': seq<int>,
                     d': seq<int>)
    requires Claimed(children, n, p, d, node, depth) && Extends(p, p') && Extends(d, d')
    ensures Claimed(children, n, p', d', node, depth)
  {
  }

  lemma ClaimedNext(children: seq<nat>, n: nat, p: seq<int>, d: seq<int>, node: nat, depth: nat, p0: seq<int>)
    requires Claimed(children, n, p, d, node, depth) && n < |children| && children[n] < |p|
    requires |p0| == |p| && p0[children[n]] == -1 && forall j :: 0 <= j < n ==> p0[children[j]] == node
    requires p[children[n]] == node && d[children[n]] == depth + 1
    ensures Claimed(children, n + 1, p, d, node, depth)
  {
    assert children[..n + 1] == children[..n] + [children[n]];
  }

  lemma ClaimedAll(h: seq<HNode>, p: seq<int>, d: seq<int>, l: seq<int>, node: nat)
    requires |p| == |d| == |h| && node < |h| && !h[node].cells && d[node] >= 0
    requires Claimed(h[node].children, |h[node].children|, p, d, node, d[node])
    ensures Complete(h, p, d, l, node)
  {
    assert h[node].children[..|h[node].children|] == h[node].children;
  }

  ghost predicate TookCells(cells: seq<nat>, n: nat, l: seq<int>, node: int) {
    && n <= |cells| && NoDup(cells[..n])
    && forall j :: 0 <= j < n ==> cells[j] < |l| && l[cells[j]] == node
  }

  lemma TookNext(cells: seq<nat>, n: nat, l: seq<int>, node: nat)
    requires TookCells(cells, n, l, node) && n < |cells| && cells[n] < |l| && l[cells[n]] == -1
    ensures TookCells(cells, n + 1, l[cells[n] := node], node)
  {
    assert cells[..n + 1] == cells[..n] + [cells[n]];
  }

  /** Whatever has been visited since `d0` is complete. */
  ghost predicate NewlyComplete(h: seq<HNode>, p: seq<int>, d: seq<int>, l: seq<int>, d0: seq<int>) {
    && |p| == |d| == |h| == |d0|
    && forall v :: 0 <= v < |h| && d[v] != -1 && d0[v] == -1 ==> Complete(h, p, d, l, v)
  }

  lemma NewlyCompleteJoins(h: seq<HNode>, p: seq<int>, d: seq<int>, l: seq<int>, d0: seq<int>,
                           p': seq<int>, d': seq<int>, l': seq<int>)
    requires NewlyComplete(h, p, d, l, d0) && NewlyComplete(h, p', d', l', d)
    requires Extends(p, p') && Extends(d, d') && Extends(l, l') && Extends(d0, d)
    ensures NewlyComplete(h, p', d', l', d0)
  {
    forall v | 0 <= v < |h| && d'[v] != -1 && d0[v] == -1 ensures Complete(h, p', d', l', v) {
      if d[v] != -1 {
        CompleteStays(h, p, d, l, p', d', l', v);
      }
    }
  }

  /** The tables record nothing that the tree `s` does not have. */
  ghost predicate Agrees(s: Source, root: nat, h: seq<HNode>, p: seq<int>, d: seq<int>, l: seq<int>) {
    && IsTree(s) && s.root == root && s.h == h && |p| == |d| == |h| && |l| == |s.leaves|
    && (forall c :: 0 <= c < |p| && p[c] != -1 ==> p[c] == s.parents[c])
    && (forall k :: 0 <= k < |l| && l[k] != -1 ==> l[k] == s.leaves[k])
  }

  /** No entry names `v`. */
  ghost predicate Unnamed(table: seq<int>, v: int) {
    forall c :: 0 <= c < |table| ==> table[c] != v
  }

  /** Only the first `n` children name `v`. */
  ghost predicate NamedOnly(table: seq<int>, v: int, children: seq<nat>, n: nat) {
    n <= |children| && forall c :: 0 <= c < |table| && table[c] == v ==> c in children[..n]
  }

  /** Every entry set since `before` names a node that had not been visited at `d0`. */
  ghost predicate SetByNew(before: seq<int>, after: seq<int>, d0: seq<int>) {
    && |after| == |before|
    && forall c :: 0 <= c < |after| && after[c] != -1 && before[c] == -1 ==> 0 <= after[c] < |d0| && d0[after[c]] == -1
  }

  /** Like `SetByNew`, but new entries may also name `node`. */
  ghost predicate SetByNewOr(before: seq<int>, after: seq<int>, node: int, d0: seq<int>) {
    && |after| == |before|
    && forall c :: 0 <= c < |after| && after[c] != -1 && before[c] == -1 && after[c] != node ==>
         0 <= after[c] < |d0| && d0[after[c]] == -1
  }

  lemma SetByNewOrStep(p0: seq<int>, p: seq<int>, p': seq<int>, node: nat, child: nat, d0: seq<int>, d: seq<int>)
    requires SetByNewOr(p0, p, node, d0) && child < |p| && p[child] == -1 && SetByNew(p[child := node], p', d)
    requires Extends(d0, d) && Extends(p[child := node], p')
    ensures SetByNewOr(p0, p', node, d0)
  {
  }

  lemma UnvisitedIsUnnamed(root: int, h: seq<HNode>, p: seq<int>, d: seq<int>, l: seq<int>, v: nat)
    requires Consistent(root, h, p, d, l) && v < |h| && d[v] == -1
    ensures Unnamed(p, v) && Unnamed(l, v)
  {
  }

  /** In a tree the next Cell of a leaf is in range and still free. */
  lemma NextCellIsFree(s: Source, root: nat, h: seq<HNode>, p: seq<int>, d: seq<int>, l: seq<int>, v: nat, i: nat)
    requires Agrees(s, root, h, p, d, l) && v < |h| && h[v].cells && i < |h[v].children|
    requires NamedOnly(l, v, h[v].children, i)
    ensures h[v].children[i] < |l| && l[h[v].children[i]] == -1 && s.leaves[h[v].children[i]] == v
  {
    assert Complete(s.h, s.parents, s.depths, s.leaves, v);
    assert forall j :: 0 <= j < i ==> h[v].children[j] != h[v].children[i];
  }

  /** In a tree the next child of an inner node is in range, still free and not yet visited. */
  lemma NextChildIsFree(s: Source, root: nat, h: seq<HNode>, p: seq<int>, d: seq<int>, l: seq<int>, v: nat, i: nat)
    requires Agrees(s, root, h, p, d, l) && Consistent(root, h, p, d, l)
    requires v < |h| && !h[v].cells && i < |h[v].children|
    requires NamedOnly(p, v, h[v].children, i)
    ensures var c := h[v].children[i];
      c < |h| && p[c] == -1 && d[c] == -1 && s.parents[c] == v
  {
    assert Complete(s.h, s.parents, s.depths, s.leaves, v);
    assert forall j :: 0 <= j < i ==> h[v].children[j] != h[v].children[i];
  }

  lemma AgreesSet(s: Source, root: nat, h: seq<HNode>, p: seq<int>, d: seq<int>, l: seq<int>, c: nat, v: int)
    requires Agrees(s, root, h, p, d, l)
    ensures c < |p| && s.parents[c] == v ==> Agrees(s, root, h, p[c := v], d, l)
    ensures c < |l| && s.leaves[c] == v ==> Agrees(s, root, h, p, d, l[c := v])
    ensures c < |d| ==> Agrees(s, root, h, p, d[c := v], l)
  {
    hide IsTree;
  }

  lemma NamedNext(table: seq<int>, v: nat, children: seq<nat>, i: nat)
    requires NamedOnly(table, v, children, i) && i < |children| && children[i] < |table|
    ensures NamedOnly(table[children[i] := v], v, children, i + 1)
  {
    assert children[..i + 1] == children[..i] + [children[i]];
  }

  lemma NamedStays(before: seq<int>, after: seq<int>, d0: seq<int>, v: nat, children: seq<nat>, n: nat)
    requires NamedOnly(before, v, children, n) && Extends(before, after) && SetByNew(before, after, d0)
    requires v < |d0| && d0[v] != -1
    ensures NamedOnly(after, v, children, n)
  {
  }

  lemma SetByNewJoins(a: seq<int>, b: seq<int>, c: seq<int>, d0: seq<int>, d1: seq<int>)
    requires SetByNew(a, b, d0) && SetByNew(b, c, d1) && Extends(d0, d1) && Extends(b, c)
    ensures SetByNew(a, c, d0)
  {
  }

  /** A tree's root reaches everything: if every visited node is complete, every node is visited. */
  lemma {:induction false} TreeIsVisited(s: Source, p: seq<int>, d: seq<int>, l: seq<int>, v: int)
    requires Agrees(s, s.root, s.h, p, d, l) && 0 <= v < |s.h| && d[s.root] != -1
    requires forall u :: 0 <= u < |s.h| && d[u] != -1 ==> Complete(s.h, p, d, l, u)
    ensures d[v] != -1 && d[v] >= 0
    decreases s.depths[v]
  {
    NodeFacts(s, v);
    if v != s.root {
      var u := s.parents[v];
      NodeFacts(s, u);
      TreeIsVisited(s, p, d, l, u);
      assert Complete(s.h, p, d, l, u);
    }
  }

  lemma TreeCellsTaken(s: Source, p: seq<int>, d: seq<int>, l: seq<int>, k: int)
    requires Agrees(s, s.root, s.h, p, d, l) && 0 <= k < |l| && d[s.root] != -1
    requires forall u :: 0 <= u < |s.h| && d[u] != -1 ==> Complete(s.h, p, d, l, u)
    ensures l[k] >= 0
  {
    var v := s.leaves[k];
    assert Complete(s.h, s.parents, s.depths, s.leaves, v);
    TreeIsVisited(s, p, d, l, v);
    assert Complete(s.h, p, d, l, v);
  }

  class TreeWalk {
    const root: nat
    const h: seq<HNode>
    /** A tree that the hierarchy is known to be, if it is one. */
    ghost const tree: Option<Source>
    var parents: seq<int>
    var depths: seq<int>
    var leaves: seq<int>

    ghost predicate Valid()
      reads this
    {
      && Consistent(root, h, parents, depths, leaves) && |parents| == |depths| == |h| && root < |h|
      && (tree.Some? ==> Agrees(tree.value, root, h, parents, depths, leaves))
    }

    constructor (start: nat, nodes: seq<HNode>, cellCount: nat, ghost known: Option<Source>)
      requires start < |nodes|
      requires known.Some? ==>
        IsTree(known.value) && known.value.root == start && known.value.h == nodes && |known.value.leaves| == cellCount
      ensures Valid() && root == start && h == nodes && tree == known
      ensures parents == seq(|nodes|, _ => -1) && depths == seq(|nodes|, _ => -1) && leaves == seq(cellCount, _ => -1)
    {
      hide Consistent;
      StartConsistent(start, nodes, cellCount);
      root, h, tree := start, nodes, known;
      parents, depths, leaves := seq(|nodes|, _ => -1), seq(|nodes|, _ => -1), seq(cellCount, _ => -1);
    }

    /** Visit `node` and everything below it; false as soon as something is out of place. */
    method Visit(node: nat, depth: nat) returns (ok: bool)
      requires Valid() && node < |h|
      requires node == root || depths[root] != -1
      requires parents[root] != -1 ==> node == root && depths[root] != -1
      requires depths[node] == -1 ==> if node == root then depth == 0
                                      else 0 <= parents[node] < |h| && depth == depths[parents[node]] + 1
      modifies this`parents, this`depths, this`leaves
      ensures Extends(old(parents), parents) && Extends(old(depths), depths) && Extends(old(leaves), leaves)
      ensures ok ==> Valid() && old(depths[node]) == -1 && depths[node] == depth && parents[root] == -1
      ensures ok ==> NewlyComplete(h, parents, depths, leaves, old(depths))
      ensures ok ==> SetByNew(old(parents), parents, old(depths)) && SetByNew(old(leaves), leaves, old(depths))
      ensures tree.Some? && old(depths[node]) == -1 ==> ok
      decreases Unvisited(depths), 0
    {
      hide Consistent, Complete, Agrees;
      if depths[node] != -1 {
        return false;
      }
      UnvisitedIsUnnamed(root, h, parents, depths, leaves, node);
      if tree.Some? {
        AgreesSet(tree.value, root, h, parents, depths, leaves, node, depth);
      }
      ghost var d0 := depths;
      MarkKeepsConsistent(root, h, parents, depths, leaves, node, depth);
      UnvisitedDrops(depths, node, depth);
      ExtendsSet(depths, node, depth);
      depths := depths[node := depth];
      if h[node].cells {
        ok := TakeCells(node);
      } else {
        ghost var d1 := depths;
        ok := VisitChildren(node);
        ExtendsTrans(d0, d1, depths);
      }
    }

    /** Claim every Cell listed at a leaf node. */
    method TakeCells(node: nat) returns (ok: bool)
      requires Valid() && node < |h| && h[node].cells && depths[node] >= 0 && Unnamed(leaves, node)
      modifies this`leaves
      ensures Extends(old(leaves), leaves)
      ensures ok ==> Valid() && Complete(h, parents, depths, leaves, node)
      ensures forall k :: 0 <= k < |leaves| && leaves[k] != old(leaves[k]) ==> leaves[k] == node
      ensures tree.Some? ==> ok
    {
      hide Consistent, TookCells, Extends, Agrees;
      var cells := h[node].children;
      TookNone(cells, leaves, node);
      for i := 0 to |cells|
        invariant Valid() && Extends(old(leaves), leaves) && TookCells(cells, i, leaves, node)
        invariant |leaves| == old(|leaves|) && NamedOnly(leaves, node, cells, i)
        invariant forall k :: 0 <= k < |leaves| && leaves[k] != old(leaves[k]) ==> leaves[k] == node
      {
        if tree.Some? {
          NextCellIsFree(tree.value, root, h, parents, depths, leaves, node, i);
        }
        var cell := cells[i];
        if cell >= |leaves| || leaves[cell] != -1 {
          return false;
        }
        CellKeepsConsistent(root, h, parents, depths, leaves, node, cell);
        if tree.Some? {
          AgreesSet(tree.value, root, h, parents, depths, leaves, cell, node);
        }
        NamedNext(leaves, node, cells, i);
        TookNext(cells, i, leaves, node);
        ExtendsSet(leaves, cell, node);
        ExtendsTrans(old(leaves), leaves, leaves[cell := node]);
        leaves := leaves[cell := node];
      }
      TookAll(h, parents, depths, leaves, node);
      return true;
    }

    /** Claim and visit every child of an inner node. */
    method VisitChildren(node: nat) returns (ok: bool)
      requires Valid() && node < |h| && !h[node].cells && depths[node] >= 0 && parents[root] == -1 && depths[root] != -1
      requires Unnamed(parents, node)
      modifies this`parents, this`depths, this`leaves
      ensures Extends(old(parents), parents) && Extends(old(depths), depths) && Extends(old(leaves), leaves)
      ensures ok ==> Valid() && parents[root] == -1
      ensures ok ==> Complete(h, parents, depths, leaves, node)
      ensures ok ==> NewlyComplete(h, parents, depths, leaves, old(depths))
      ensures ok ==> SetByNew(old(leaves), leaves, old(depths))
      ensures ok ==> SetByNewOr(old(parents), parents, node, old(depths))
      ensures tree.Some? ==> ok
      decreases Unvisited(depths), 1
    {
      hide Consistent, Claimed, NewlyComplete, Complete, Agrees, SetByNewOr;
      var children, depth := h[node].children, depths[node];
      ghost var p0, d0, l0 := parents, depths, leaves;
      ClaimedNone(h, children, parents, depths, leaves, node, depth);
      for i := 0 to |children|
        invariant Valid() && parents[root] == -1 && depths[root] != -1 && depths[node] == depth
        invariant Extends(p0, parents) && Extends(d0, depths) && Extends(l0, leaves)
        invariant Claimed(children, i, parents, depths, node, depth)
        invariant NewlyComplete(h, parents, depths, leaves, d0)
        invariant NamedOnly(parents, node, children, i) && SetByNew(l0, leaves, d0)
        invariant SetByNewOr(p0, parents, node, d0)
      {
        if tree.Some? {
          NextChildIsFree(tree.value, root, h, parents, depths, leaves, node, i);
          AgreesSet(tree.value, root, h, parents, depths, leaves, children[i], node);
        }
        var child := children[i];
        if child >= |h| || parents[child] != -1 {
          return false;
        }
        ghost var p, d, l := parents, depths, leaves;
        ClaimKeepsConsistent(root, h, parents, depths, leaves, node, child);
        ExtendsSet(parents, child, node);
        UnvisitedShrinks(d0, depths);
        NamedNext(parents, node, children, i);
        parents := parents[child := node];
        ok := Visit(child, depth + 1);
        ChildStep(h, children, i, p, d, l, node, depth, parents, depths, leaves, d0, p0, l0);
        if !ok {
          return false;
        }
        SetByNewOrStep(p0, p, parents, node, child, d0, d);
        NamedStays(p[child := node], parents, d, node, children, i + 1);
        SetByNewJoins(l0, l, leaves, d0, d);
      }
      ClaimedAll(h, parents, depths, leaves, node);
      return true;
    }
  }

  lemma ClaimedNone(h: seq<HNode>, children: seq<nat>, p: seq<int>, d: seq<int>, l: seq<int>, node: nat, depth: nat)
    requires |p| == |d| == |h|
    ensures Claimed(children, 0, p, d, node, depth) && NewlyComplete(h, p, d, l, d) && SetByNewOr(p, p, node, d)
    ensures Extends(p, p) && Extends(d, d) && Extends(l, l)
  {
  }

  lemma ChildStep(h: seq<HNode>, children: seq<nat>, i: nat, p: seq<int>, d: seq<int>, l: seq<int>, node: nat,
                  depth: nat,
                  p': seq<int>, d': seq<int>, l': seq<int>, d0: seq<int>, p0: seq<int>, l0: seq<int>)
    requires i < |children| && children[i] < |p| && p[children[i]] == -1 && |p| == |d| == |h| && node < |h|
    requires Extends(p[children[i] := node], p') && Extends(d, d') && Extends(l, l')
    requires Extends(p0, p) && Extends(d0, d) && Extends(l0, l)
    requires Claimed(children, i, p, d, node, depth) && NewlyComplete(h, p, d, l, d0)
    ensures Extends(p0, p') && Extends(d0, d') && Extends(l0, l')
    ensures d'[children[i]] == depth + 1 ==> Claimed(children, i + 1, p', d', node, depth)
    ensures NewlyComplete(h, p', d', l', d) ==> NewlyComplete(h, p', d', l', d0)
  {
    hide Complete;
    ExtendsSet(p, children[i], node);
    ExtendsTrans(p, p[children[i] := node], p');
    ExtendsTrans(p0, p, p');
    ExtendsTrans(d0, d, d');
    ExtendsTrans(l0, l, l');
    ClaimedStays(children, i, p, d, node, depth, p', d');
    if d'[children[i]] == depth + 1 {
      ClaimedNext(children, i, p', d', node, depth, p);
    }
    if NewlyComplete(h, p', d', l', d) {
      NewlyCompleteJoins(h, p, d, l, d0, p', d', l');
    }
  }

  lemma TookNone(cells: seq<nat>, l: seq<int>, node: nat)
    ensures TookCells(cells, 0, l, node) && Extends(l, l)
  {
  }

  lemma TookAll(h: seq<HNode>, p: seq<int>, d: seq<int>, l: seq<int>, node: nat)
    requires |p| == |d| == |h| && node < |h| && h[node].cells && d[node] >= 0
    requires TookCells(h[node].children, |h[node].children|, l, node)
    ensures Complete(h, p, d, l, node)
  {
    assert h[node].children[..|h[node].children|] == h[node].children;
  }

  // ---------- The checked hierarchy ----------

  function MaxOf(s: seq<int>): (m: int)
    ensures forall i :: 0 <= i < |s| ==> s[i] <= m
    ensures m >= 0
  {
    if |s| == 0 then 0
    else
      var m := MaxOf(s[..|s| - 1]);
      if s[|s| - 1] > m then s[|s| - 1] else m
  }

  /** Some tables make the hierarchy a tree over all its nodes and Cells. */
  ghost predicate HasTree(root: nat, h: seq<HNode>, cellCount: nat) {
    exists s :: IsTree(s) && s.root == root && s.h == h && |s.leaves| == cellCount
  }

  /** Walk the hierarchy from its root; accepted exactly when it is a tree over all nodes and Cells. */
  method ParentDepthAndCellLeaves(root: nat, h: seq<HNode>, cellCount: nat) returns (r: Result<Source, Error>)
    ensures r.Ok? ==> IsTree(r.value) && r.value.root == root && r.value.h == h && |r.value.leaves| == cellCount
    ensures r.Ok? <==> HasTree(root, h, cellCount)
  {
    ghost var known := None;
    if HasTree(root, h, cellCount) {
      var s :| IsTree(s) && s.root == root && s.h == h && |s.leaves| == cellCount;
      known := Some(s);
    }
    if root >= |h| {
      return Err(IndexError);
    }
    r := CheckFrom(root, h, cellCount, known);
  }

  method CheckFrom(root: nat, h: seq<HNode>, cellCount: nat, ghost known: Option<Source>) returns (r: Result<Source, Error>)
    requires root < |h|
    requires known.Some? ==>
      IsTree(known.value) && known.value.root == root && known.value.h == h && |known.value.leaves| == cellCount
    ensures r.Ok? ==> IsTree(r.value) && r.value.root == root && r.value.h == h && |r.value.leaves| == cellCount
    ensures known.Some? ==> r.Ok?
  {
    hide Consistent, Complete, Agrees;
    var walk := new TreeWalk(root, h, cellCount, known);
    var ok := walk.Visit(root, 0);
    if !ok {
      return Err(ProfileError);
    }
    var parents, depths, leaves := walk.parents, walk.depths, walk.leaves;
    for v := 0 to |depths|
      invariant forall i :: 0 <= i < v ==> depths[i] >= 0
    {
      if known.Some? {
        TreeIsVisited(known.value, parents, depths, leaves, v);
      }
      if depths[v] < 0 {
        return Err(ProfileError);
      }
    }
    for k := 0 to |leaves|
      invariant forall i :: 0 <= i < k ==> leaves[i] >= 0
    {
      if known.Some? {
        TreeCellsTaken(known.value, parents, depths, leaves, k);
      }
      if leaves[k] < 0 {
        return Err(ProfileError);
      }
    }
    return Ok(Source(root, h, parents, depths, leaves, MaxOf(depths)));
  }

  // ---------- Ancestors ----------

  lemma NodeFacts(s: Source, v: int)
    requires IsTree(s) && 0 <= v < |s.h|
    ensures |s.parents| == |s.depths| == |s.h| && 0 <= s.root < |s.h| && 0 <= s.depths[v] <= s.bound
    ensures v == s.root <==> s.depths[v] == 0
    ensures v != s.root ==>
      var p := s.parents[v];
      0 <= p < |s.h| && s.depths[v] == s.depths[p] + 1 && !s.h[p].cells && v in s.h[p].children
  {
    assert Complete(s.h, s.parents, s.depths, s.leaves, v);
    if v != s.root {
      assert Complete(s.h, s.parents, s.depths, s.leaves, s.parents[v]);
    }
  }

  /** The ancestor of `v` at depth `d`. */
  function AncestorAt(s: Source, v: int, d: int): (u: int)
    requires IsTree(s) && 0 <= v < |s.h| && 0 <= d <= s.depths[v]
    ensures 0 <= u < |s.h| && s.depths[u] == d
    decreases s.depths[v] - d
  {
    NodeFacts(s, v);
    if s.depths[v] == d then v else
      NodeFacts(s, s.parents[v]);
      AncestorAt(s, s.parents[v], d)
  }

  /** `u` lies in the subtree of `v`. */
  predicate Under(s: Source, v: int, u: int)
    requires IsTree(s) && 0 <= v < |s.h| && 0 <= u < |s.h|
  {
    NodeFacts(s, v);
    s.depths[v] <= s.depths[u] && AncestorAt(s, u, s.depths[v]) == v
  }

  lemma {:induction false} AncestorOfAncestor(s: Source, v: int, d: int, e: int)
    requires IsTree(s) && 0 <= v < |s.h| && 0 <= e <= d <= s.depths[v]
    ensures AncestorAt(s, AncestorAt(s, v, d), e) == AncestorAt(s, v, e)
    decreases s.depths[v] - d
  {
    if s.depths[v] != d {
      NodeFacts(s, v);
      NodeFacts(s, s.parents[v]);
      hide IsTree;
      AncestorOfAncestor(s, s.parents[v], d, e);
    }
  }

  lemma UnderParent(s: Source, v: int, u: int)
    requires IsTree(s) && 0 <= v < |s.h| && 0 <= u < |s.h| && u != s.root && v != u
    ensures 0 <= s.parents[u] < |s.h| && (Under(s, v, u) <==> Under(s, v, s.parents[u]))
  {
    NodeFacts(s, u);
    NodeFacts(s, v);
    NodeFacts(s, s.parents[u]);
    hide IsTree;
  }

  /** `r` contains both nodes, and so does nothing below it. */
  ghost predicate IsLca(s: Source, a: int, b: int, r: int)
    requires IsTree(s) && 0 <= a < |s.h| && 0 <= b < |s.h|
  {
    && 0 <= r < |s.h| && Under(s, r, a) && Under(s, r, b)
    && forall v :: 0 <= v < |s.h| && Under(s, v, a) && Under(s, v, b) ==> Under(s, v, r)
  }

  /** Common ancestors are kept when the deeper of two different nodes moves up. */
  lemma LcaMovesUp(s: Source, a: int, b: int, r: int)
    requires IsTree(s) && 0 <= a < |s.h| && 0 <= b < |s.h| && a != b && s.depths[a] >= s.depths[b]
    ensures a != s.root && 0 <= s.parents[a] < |s.h|
    ensures IsLca(s, s.parents[a], b, r) ==> IsLca(s, a, b, r)
  {
    NodeFacts(s, a);
    NodeFacts(s, b);
    NodeFacts(s, s.parents[a]);
    hide IsTree;
    forall v | 0 <= v < |s.h| && Under(s, v, b) ensures Under(s, v, a) <==> Under(s, v, s.parents[a]) {
      NodeFacts(s, v);
      if v != a {
        UnderParent(s, v, a);
      }
    }
  }

  lemma LcaSymmetric(s: Source, a: int, b: int, r: int)
    requires IsTree(s) && 0 <= a < |s.h| && 0 <= b < |s.h| && IsLca(s, a, b, r)
    ensures IsLca(s, b, a, r)
  {
  }

  lemma LcaOfSelf(s: Source, a: int)
    requires IsTree(s) && 0 <= a < |s.h|
    ensures IsLca(s, a, a, a)
  {
    NodeFacts(s, a);
  }

  /** Climb from both nodes until they meet. */
  method HierarchyLca(s: Source, left: nat, right: nat) returns (lca: nat)
    requires IsTree(s) && left < |s.h| && right < |s.h|
    ensures IsLca(s, left, right, lca)
  {
    hide IsTree, IsLca;
    var a, b := left, right;
    NodeFacts(s, a);
    NodeFacts(s, b);
    while s.depths[a] > s.depths[b]
      invariant 0 <= a < |s.h| && s.depths[a] >= 0
      invariant s.depths[left] >= s.depths[right] ==> s.depths[a] >= s.depths[b]
      invariant forall r :: IsLca(s, a, b, r) ==> IsLca(s, left, right, r)
      decreases s.depths[a]
    {
      a := Climb(s, a, b);
    }
    while s.depths[b] > s.depths[a]
      invariant 0 <= b < |s.h| && s.depths[b] >= s.depths[a] >= 0
      invariant forall r :: IsLca(s, a, b, r) ==> IsLca(s, left, right, r)
      decreases s.depths[b]
    {
      b := Climb(s, b, a);
      forall r | IsLca(s, a, b, r) ensures IsLca(s, left, right, r) {
        LcaSymmetric(s, a, b, r);
      }
    }
    while a != b
      invariant 0 <= a < |s.h| && 0 <= b < |s.h| && s.depths[a] == s.depths[b] >= 0
      invariant forall r :: IsLca(s, a, b, r) ==> IsLca(s, left, right, r)
      decreases s.depths[a]
    {
      a := Climb(s, a, b);
      b := Climb(s, b, a);
    }
    LcaOfSelf(s, a);
    lca := a;
  }

  /** One step up, which keeps the common ancestors because the other node is no deeper. */
  method Climb(s: Source, a: nat, b: nat) returns (p: nat)
    requires IsTree(s) && a < |s.h| && b < |s.h| && a != b && s.depths[a] >= s.depths[b]
    ensures p < |s.h| && p == s.parents[a] && s.depths[p] == s.depths[a] - 1 >= 0
    ensures forall r :: IsLca(s, p, b, r) ==> IsLca(s, a, b, r)
    ensures forall r :: IsLca(s, b, p, r) ==> IsLca(s, b, a, r)
  {
    NodeFacts(s, a);
    NodeFacts(s, b);
    forall r ensures IsLca(s, s.parents[a], b, r) ==> IsLca(s, a, b, r) {
      LcaMovesUp(s, a, b, r);
    }
    forall r | IsLca(s, b, s.parents[a], r) ensures IsLca(s, b, a, r) {
      LcaSymmetric(s, b, s.parents[a], r);
      LcaSymmetric(s, a, b, r);
    }
    NodeFacts(s, s.parents[a]);
    p := s.parents[a];
  }
}
