/**
  build_assignments in python/train_convergence_cells.py: inside each Community, Cells grow
  greedily along co-access, are topped up from their source Cells, and the rest is packed.
 */
module CoAccess {
  import opened Common
  import AssignmentCodec

  datatype Error = ProfileError | IndexError

  datatype Edge = Edge(node: nat, weight: int)

  // ---------- Sorting ----------

  /** Sort keys compare from left to right; the node decides last, so no two nodes tie. */
  datatype Key = Key(first: int, second: int, node: nat)

  predicate Below(a: Key, b: Key) {
    || a.first < b.first
    || (a.first == b.first && a.second < b.second)
    || (a.first == b.first && a.second == b.second && a.node < b.node)
  }

  ghost predicate Ascending(keys: seq<Key>) {
    forall i, j :: 0 <= i < j < |keys| ==> keys[i] == keys[j] || Below(keys[i], keys[j])
  }

  function Insert(keys: seq<Key>, k: Key): (r: seq<Key>)
    ensures multiset(r) == multiset(keys) + multiset{k} && |r| == |keys| + 1
  {
    if |keys| == 0 then [k]
    else if Below(k, keys[0]) then
      assert [k] + keys == [k] + ([keys[0]] + keys[1..]);
      [k] + keys
    else
      assert keys == [keys[0]] + keys[1..];
      [keys[0]] + Insert(keys[1..], k)
  }

  function Sorted(keys: seq<Key>): (r: seq<Key>)
    ensures multiset(r) == multiset(keys) && |r| == |keys|
  {
    if |keys| == 0 then []
    else
      assert keys == keys[..|keys| - 1] + [keys[|keys| - 1]];
      Insert(Sorted(keys[..|keys| - 1]), keys[|keys| - 1])
  }

  lemma {:induction false} InsertAscends(keys: seq<Key>, k: Key)
    requires Ascending(keys)
    ensures Ascending(Insert(keys, k))
  {
    if |keys| > 0 && !Below(k, keys[0]) {
      var r := Insert(keys[1..], k);
      InsertAscends(keys[1..], k);
      forall i | 0 <= i < |r| ensures keys[0] == r[i] || Below(keys[0], r[i]) {
        assert r[i] in multiset(r);
        assert r[i] == k || r[i] in keys[1..];
      }
    }
  }

  lemma {:induction false} SortedAscends(keys: seq<Key>)
    ensures Ascending(Sorted(keys))
  {
    if |keys| > 0 {
      SortedAscends(keys[..|keys| - 1]);
      InsertAscends(Sorted(keys[..|keys| - 1]), keys[|keys| - 1]);
    }
  }

  function Nodes(keys: seq<Key>): (nodes: seq<nat>)
    ensures |nodes| == |keys| && forall i :: 0 <= i < |keys| ==> nodes[i] == keys[i].node
  {
    seq(|keys|, i requires 0 <= i < |keys| => keys[i].node)
  }

  /** The indices at which `keep` holds, smallest first. */
  function Where(keep: seq<bool>): (r: seq<nat>)
    ensures forall x :: x in r <==> 0 <= x < |keep| && keep[x]
    ensures forall i, j :: 0 <= i < j < |r| ==> r[i] < r[j]
  {
    if |keep| == 0 then []
    else if keep[|keep| - 1] then Extend(Where(keep[..|keep| - 1]), |keep| - 1)
    else Where(keep[..|keep| - 1])
  }

  function Extend(r: seq<nat>, n: nat): (s: seq<nat>)
    requires forall x :: x in r ==> x < n
    requires forall i, j :: 0 <= i < j < |r| ==> r[i] < r[j]
    ensures forall x :: x in s <==> x in r || x == n
    ensures forall i, j :: 0 <= i < j < |s| ==> s[i] < s[j]
  {
    InAppend(r, n);
    assert forall i :: 0 <= i < |r| ==> r[i] in r;
    r + [n]
  }

  function Bound(values: seq<nat>): (b: nat)
    ensures forall i :: 0 <= i < |values| ==> values[i] < b
  {
    if |values| == 0 then 0
    else
      var b, last := Bound(values[..|values| - 1]), values[|values| - 1];
      if last < b then b else last + 1
  }

  /** The different values of a list, smallest first. */
  function Distinct(values: seq<nat>): (r: seq<nat>)
    ensures forall x :: x in r <==> x in values
    ensures forall i, j :: 0 <= i < j < |r| ==> r[i] < r[j]
  {
    Where(seq(Bound(values), v requires 0 <= v => v in values))
  }

  // ---------- What the result promises ----------

  /** Node `i` is unpublished, or sits in its Cell at its order. */
  ghost predicate Placed(cells: seq<seq<nat>>, ids: seq<int>, orders: seq<int>, i: int) {
    && |ids| == |orders| && 0 <= i < |ids|
    && (ids[i] == -1 ==> orders[i] == -1)
    && (ids[i] != -1 ==>
          0 <= ids[i] < |cells| && 0 <= orders[i] < |cells[ids[i]]| && cells[ids[i]][orders[i]] == i)
  }

  ghost predicate Filled(cells: seq<seq<nat>>, ids: seq<int>, orders: seq<int>, c: int, r: int) {
    && |ids| == |orders| && 0 <= c < |cells| && 0 <= r < |cells[c]|
    && cells[c][r] < |ids| && ids[cells[c][r]] == c && orders[cells[c][r]] == r
  }

  ghost predicate Published(cells: seq<seq<nat>>, ids: seq<int>, orders: seq<int>) {
    && |ids| == |orders|
    && (forall i :: 0 <= i < |ids| ==> Placed(cells, ids, orders, i))
    && (forall c, r :: 0 <= c < |cells| && 0 <= r < |cells[c]| ==> Filled(cells, ids, orders, c, r))
  }

  function Frequency(frequency: map<nat, int>, node: nat): int {
    if node in frequency then frequency[node] else 0
  }

  /** More frequent nodes first, smaller ids first among equals. */
  predicate Before(frequency: map<nat, int>, a: nat, b: nat) {
    Below(Key(-Frequency(frequency, a), 0, a), Key(-Frequency(frequency, b), 0, b))
  }

  /** A Cell holds 1 to `target` nodes of one Community, in order. */
  ghost predicate GoodCell(community: seq<nat>, frequency: map<nat, int>, target: int, c: nat, cell: seq<nat>) {
    && 0 < |cell| <= target
    && (forall i :: 0 <= i < |cell| ==> cell[i] < |community| && community[cell[i]] == c)
    && (forall i, j :: 0 <= i < j < |cell| ==> Before(frequency, cell[i], cell[j]))
  }

  /** Cell `k` lies in Community `owner[k]`, and Cells come Community by Community. */
  ghost predicate GoodCells(community: seq<nat>, frequency: map<nat, int>, target: int,
                            cells: seq<seq<nat>>, owner: seq<nat>) {
    && |owner| == |cells|
    && (forall k :: 0 <= k < |cells| ==> GoodCell(community, frequency, target, owner[k], cells[k]))
    && (forall k, l :: 0 <= k < l < |cells| ==> owner[k] <= owner[l])
  }

  lemma PublishedGrows(cells: seq<seq<nat>>, ids: seq<int>, orders: seq<int>, ids': seq<int>, orders': seq<int>,
                       cell: seq<nat>)
    requires Published(cells, ids, orders) && |ids'| == |orders'| == |ids|
    requires NoDup(cell) && forall r :: 0 <= r < |cell| ==> cell[r] < |ids| && ids[cell[r]] == -1
    requires forall r :: 0 <= r < |cell| ==> ids'[cell[r]] == |cells| && orders'[cell[r]] == r
    requires forall i :: 0 <= i < |ids| && i !in cell ==> ids'[i] == ids[i] && orders'[i] == orders[i]
    ensures Published(cells + [cell], ids', orders')
  {
    hide Placed, Filled;
    assert forall i :: i in cell ==> i < |ids| && ids[i] == -1;
    forall i | 0 <= i < |ids| ensures Placed(cells + [cell], ids', orders', i) {
      PlacedGrows(cells, ids, orders, ids', orders', cell, i);
    }
    forall c, r | 0 <= c < |cells + [cell]| && 0 <= r < |(cells + [cell])[c]|
      ensures Filled(cells + [cell], ids', orders', c, r)
    {
      FilledGrows(cells, ids, orders, ids', orders', cell, c, r);
    }
  }

  lemma PlacedGrows(cells: seq<seq<nat>>, ids: seq<int>, orders: seq<int>, ids': seq<int>, orders': seq<int>,
                    cell: seq<nat>, i: nat)
    requires Published(cells, ids, orders) && |ids'| == |orders'| == |ids| && i < |ids|
    requires forall r :: 0 <= r < |cell| ==> cell[r] < |ids| && ids'[cell[r]] == |cells| && orders'[cell[r]] == r
    requires i !in cell ==> ids'[i] == ids[i] && orders'[i] == orders[i]
    ensures Placed(cells + [cell], ids', orders', i)
  {
    assert Placed(cells, ids, orders, i);
    if i in cell {
      var r :| 0 <= r < |cell| && cell[r] == i;
    }
  }

  lemma FilledGrows(cells: seq<seq<nat>>, ids: seq<int>, orders: seq<int>, ids': seq<int>, orders': seq<int>,
                    cell: seq<nat>, c: nat, r: nat)
    requires Published(cells, ids, orders) && |ids'| == |orders'| == |ids|
    requires forall r :: 0 <= r < |cell| ==> cell[r] < |ids| && ids'[cell[r]] == |cells| && orders'[cell[r]] == r
    requires forall i :: i in cell ==> i < |ids| && ids[i] == -1
    requires forall i :: 0 <= i < |ids| && i !in cell ==> ids'[i] == ids[i] && orders'[i] == orders[i]
    requires c <= |cells| && r < |(cells + [cell])[c]|
    ensures Filled(cells + [cell], ids', orders', c, r)
  {
    if c < |cells| {
      assert Filled(cells, ids, orders, c, r);
      assert cells[c][r] !in cell;
    }
  }

  // ---------- The builder ----------

  class Builder {
    const community: seq<nat>
    const source: seq<nat>
    const adjacency: map<nat, seq<Edge>>
    const frequency: map<nat, int>
    const target: nat
    var taken: seq<bool>
    var cellIds: seq<int>
    var orders: seq<int>
    var nextCell: nat
    ghost var cells: seq<seq<nat>>
    ghost var owner: seq<nat>

    ghost predicate Valid()
      reads this
    {
      && |community| == |source| == |taken| == |cellIds| == |orders| && target > 0
      && nextCell == |cells| && Published(cells, cellIds, orders)
      && GoodCells(community, frequency, target, cells, owner)
      && forall i :: 0 <= i < |cellIds| && cellIds[i] != -1 ==> taken[i]
    }

    /** Only published nodes are taken. */
    ghost predicate Settled()
      reads this
    {
      Valid() && forall i :: 0 <= i < |cellIds| && taken[i] ==> cellIds[i] != -1
    }

    constructor (comm: seq<nat>, src: seq<nat>, adj: map<nat, seq<Edge>>, freq: map<nat, int>, size: nat)
      requires |comm| == |src| && size > 0
      ensures community == comm && source == src && adjacency == adj && frequency == freq && target == size
      ensures Settled() && cells == [] && owner == [] && forall i :: 0 <= i < |taken| ==> !taken[i]
    {
      community, source, adjacency, frequency, target := comm, src, adj, freq, size;
      taken := seq(|comm|, _ => false);
      cellIds, orders, nextCell, cells, owner := seq(|comm|, _ => -1), seq(|comm|, _ => -1), 0, [], [];
    }

    /** Give the nodes the next Cell id and the orders 0, 1, ..., most frequent first. */
    method Publish(nodes: seq<nat>, ghost c: nat)
      requires Valid() && NoDup(nodes) && 0 < |nodes| <= target
      requires forall r :: 0 <= r < |nodes| ==> nodes[r] < |community| && community[nodes[r]] == c && cellIds[nodes[r]] == -1
      requires |owner| > 0 ==> owner[|owner| - 1] <= c
      modifies this
      ensures Valid() && owner == old(owner) + [c]
      ensures exists cell :: cells == old(cells) + [cell] && Arranges(frequency, nodes, cell)
      ensures |taken| == old(|taken|)
      ensures forall i :: 0 <= i < |taken| ==> taken[i] == (old(taken[i]) || i in nodes)
      ensures forall i :: 0 <= i < |cellIds| && i in nodes ==> cellIds[i] == old(nextCell)
      ensures forall i :: 0 <= i < |cellIds| && i !in nodes ==> cellIds[i] == old(cellIds[i]) && orders[i] == old(orders[i])
    {
      hide Published, GoodCells, GoodCell, Sorted, Before, Below, CellKeys;
      var ordered := Nodes(Sorted(CellKeys(frequency, nodes)));
      OrderedNodes(frequency, nodes, ordered);
      CellFrom(community, frequency, cellIds, target, nodes, ordered, c);
      Assign(ordered);
      PublishedGrows(old(cells), old(cellIds), old(orders), cellIds, orders, ordered);
      GoodCellsGrow(community, frequency, target, cells, owner, c, ordered);
      nextCell, cells, owner := nextCell + 1, cells + [ordered], owner + [c];
    }

    /** The loop over the ordered nodes. */
    method Assign(ordered: seq<nat>)
      requires |taken| == |cellIds| == |orders| && NoDup(ordered) && forall q :: 0 <= q < |ordered| ==> ordered[q] < |taken|
      modifies this`taken, this`cellIds, this`orders
      ensures |taken| == |cellIds| == |orders| == old(|taken|)
      ensures forall i :: 0 <= i < |taken| ==> taken[i] == (old(taken[i]) || i in ordered)
      ensures forall q :: 0 <= q < |ordered| ==> cellIds[ordered[q]] == nextCell && orders[ordered[q]] == q
      ensures forall i :: 0 <= i < |cellIds| && i !in ordered ==> cellIds[i] == old(cellIds[i]) && orders[i] == old(orders[i])
    {
      for r := 0 to |ordered|
        invariant |taken| == |cellIds| == |orders| == old(|taken|)
        invariant forall i :: 0 <= i < |taken| ==> taken[i] == (old(taken[i]) || i in ordered[..r])
        invariant forall q :: 0 <= q < r ==> cellIds[ordered[q]] == nextCell && orders[ordered[q]] == q
        invariant forall i :: 0 <= i < |cellIds| && i !in ordered[..r] ==>
          cellIds[i] == old(cellIds[i]) && orders[i] == old(orders[i])
      {
        assert ordered[..r + 1] == ordered[..r] + [ordered[r]];
        var node := ordered[r];
        taken := taken[node := true];
        cellIds := cellIds[node := nextCell];
        orders := orders[node := r];
      }
      assert ordered[..|ordered|] == ordered;
    }

    /** Mark a node and add the weights of its edges to free neighbours; false when a neighbour id is out of range. */
    method Add(node: nat, affinity: map<nat, int>, c: nat, ghost cluster: seq<nat>) returns (ok: bool, after: map<nat, int>)
      requires Valid() && node < |community|
      requires Affinity(community, taken[node := true], adjacency, cluster, [], affinity, c)
      modifies this`taken
      ensures Valid() && taken == old(taken)[node := true]
      ensures ok ==> Affinity(community, taken, adjacency, cluster + [node], [], after, c)
      ensures ok <==> forall e :: e in EdgesOf(adjacency, node) ==> e.node < |community|
    {
      hide Published, GoodCells, Affinity;
      taken := taken[node := true];
      after := affinity;
      var edges := EdgesOf(adjacency, node);
      assert edges[..0] == [];
      for k := 0 to |edges|
        invariant Valid() && taken == old(taken)[node := true]
        invariant Affinity(community, taken, adjacency, cluster, edges[..k], after, c)
        invariant forall q :: 0 <= q < k ==> edges[q].node < |community|
      {
        var e := edges[k];
        assert e in edges;
        if e.node >= |community| {
          return false, after;
        }
        AffinityEdge(community, taken, adjacency, cluster, edges, k, after, c);
        if !taken[e.node] && community[e.node] == c {
          after := after[e.node := e.weight + if e.node in after then after[e.node] else 0];
        }
      }
      assert edges[..|edges|] == edges;
      AffinityAdds(community, taken, adjacency, cluster, after, c, node);
      return true, after;
    }

    /** Unpublished taken nodes of one Community that will share a Cell. */
    ghost predicate Cluster(cluster: seq<nat>, c: nat)
      reads this
    {
      |cluster| <= target && IsCluster(community, taken, cellIds, cluster, c)
    }

    /** Start at a seed and keep adding the free node that the cluster pulls most. */
    method Grow(seed: nat, c: nat) returns (ok: bool, cluster: seq<nat>)
      requires Settled() && seed < |community| && !taken[seed] && community[seed] == c
      modifies this`taken
      ensures Valid() && |taken| == old(|taken|)
      ensures ok ==> Cluster(cluster, c) && 0 < |cluster| && cluster[0] == seed
      ensures ok ==> forall i :: 0 <= i < |taken| ==> taken[i] == (old(taken[i]) || i in cluster)
      ensures ok ==> Greedy(community, old(taken), adjacency, frequency, cluster, c)
      ensures ok && |cluster| < target ==> forall u: nat :: !Candidate(community, old(taken), adjacency, cluster, c, u)
      ensures EdgesInRange(adjacency, |community|) ==> ok
    {
      hide Published, GoodCells, IsCluster, EdgesOf, Affinity, Greedy, Best, Candidate;
      cluster := [];
      var affinity: map<nat, int>;
      EmptyCluster(community, taken, cellIds, c);
      ClusterAdds(community, taken, cellIds, [], c, seed);
      RangeAt(adjacency, |community|);
      NoAffinity(community, taken[seed := true], adjacency, c);
      ok, affinity := Add(seed, map[], c, []);
      if !ok {
        return;
      }
      assert [] + [seed] == [seed];
      cluster := [seed];
      GreedyStart(community, old(taken), adjacency, frequency, seed, c);
      while |cluster| < target && |affinity| > 0
        invariant Valid() && |taken| == old(|taken|)
        invariant 0 < |cluster| && cluster[0] == seed && Cluster(cluster, c)
        invariant forall i :: 0 <= i < |taken| ==> taken[i] == (old(taken[i]) || i in cluster)
        invariant Affinity(community, taken, adjacency, cluster, [], affinity, c)
        invariant Greedy(community, old(taken), adjacency, frequency, cluster, c)
        decreases target - |cluster|
      {
        var candidate := PickBest(affinity, frequency);
        BestIsFree(community, taken, adjacency, frequency, cluster, affinity, c, candidate);
        GreedyGrows(community, old(taken), taken, adjacency, frequency, cluster, affinity, c, candidate);
        AffinityTakes(community, taken, adjacency, cluster, affinity, c, candidate);
        affinity := affinity - {candidate};
        if !taken[candidate] {
          ClusterAdds(community, taken, cellIds, cluster, c, candidate);
          ok, affinity := Add(candidate, affinity, c, cluster);
          if !ok {
            return;
          }
          cluster := cluster + [candidate];
        }
      }
      if |cluster| < target {
        assert affinity == map[];
        NoCandidateLeft(community, old(taken), taken, adjacency, cluster, c);
      }
    }

    function Mates(c: nat, s: nat): (mates: seq<nat>)
      requires |community| == |source|
      ensures forall i :: i in mates <==> 0 <= i < |community| && community[i] == c && source[i] == s
      ensures forall i, j :: 0 <= i < j < |mates| ==> mates[i] < mates[j]
    {
      Where(seq(|community|, i requires 0 <= i < |community| => community[i] == c && source[i] == s))
    }

    /** Fill up from one source Cell, until the target size is reached. */
    method TopUpFrom(start: seq<nat>, c: nat, s: nat) returns (cluster: seq<nat>)
      requires Valid() && Cluster(start, c)
      requires forall i :: 0 <= i < |taken| && taken[i] ==> cellIds[i] != -1 || i in start
      modifies this`taken
      ensures Valid() && |taken| == old(|taken|) && Cluster(cluster, c) && start <= cluster
      ensures forall i :: 0 <= i < |taken| ==> taken[i] == (old(taken[i]) || i in cluster)
      ensures FirstOf(source, OpenIn(community, source, old(taken), c, s), target - |start|, ToSet(cluster[|start|..]))
    {
      hide Published, GoodCells, IsCluster, FirstOf, Mates, FreeOf, ToppedUp, Ascend, ToSet;
      cluster := start;
      ClusterFacts(community, taken, cellIds, start, c);
      var mates := Mates(c, s);
      MatesAre(community, source, taken, c, s, mates);
      ghost var extras: set<nat> := {};
      NonePassed(source, taken, mates, target - |start|);
      NotTopped(taken, start);
      for k := 0 to |mates|
        invariant Valid() && Cluster(cluster, c) && |start| <= |cluster|
        invariant ToppedUp(old(taken), taken, start, cluster, extras) && extras <= ToSet(mates[..k])
        invariant FirstOf(source, FreeOf(old(taken), mates[..k]), target - |start|, extras)
      {
        MateStep(source, old(taken), taken, start, cluster, extras, mates, k, target - |start|, s);
        if |cluster| == target {
          ToppedIs(old(taken), taken, start, cluster, extras);
          return;
        }
        if !taken[mates[k]] {
          ClusterAdds(community, taken, cellIds, cluster, c, mates[k]);
          taken := taken[mates[k] := true];
          cluster, extras := cluster + [mates[k]], extras + {mates[k]};
        }
      }
      assert mates[..|mates|] == mates;
      ToppedIs(old(taken), taken, start, cluster, extras);
    }

    function SourcesOf(nodes: seq<nat>): (sources: seq<nat>)
      requires forall k :: 0 <= k < |nodes| ==> nodes[k] < |source|
      ensures SourcesAre(source, nodes, sources)
    {
      var all := seq(|nodes|, k requires 0 <= k < |nodes| => source[nodes[k]]);
      assert forall k :: 0 <= k < |nodes| ==> source[nodes[k]] == all[k] && all[k] in all;
      Distinct(all)
    }

    /** Top a cluster up from the source Cells of its members. */
    method TopUp(start: seq<nat>, c: nat) returns (cluster: seq<nat>)
      requires Valid() && Cluster(start, c)
      requires forall i :: 0 <= i < |taken| && taken[i] ==> cellIds[i] != -1 || i in start
      modifies this`taken
      ensures Valid() && |taken| == old(|taken|) && Cluster(cluster, c) && start <= cluster
      ensures forall i :: 0 <= i < |taken| ==> taken[i] == (old(taken[i]) || i in cluster)
      ensures FirstOf(source, Sharers(community, source, old(taken), c, start), target - |start|, ToSet(cluster[|start|..]))
    {
      hide Published, GoodCells, IsCluster, SourcesOf, SourcesAre, FirstOf;
      cluster := start;
      ClusterFacts(community, taken, cellIds, start, c);
      var sources := SourcesOf(cluster);
      SourcesAscend(source, start, sources);
      NoSourceYet(community, source, taken, c, sources, target - |start|);
      assert ToSet(cluster[|start|..]) == {};
      for k := 0 to |sources|
        invariant Valid() && |taken| == old(|taken|) && Cluster(cluster, c) && start <= cluster
        invariant forall i :: 0 <= i < |taken| ==> taken[i] == (old(taken[i]) || i in cluster)
        invariant forall i :: 0 <= i < |taken| && taken[i] ==> cellIds[i] != -1 || i in cluster
        invariant FirstOf(source, OpenInAny(community, source, old(taken), c, sources[..k]), target - |start|,
                          ToSet(cluster[|start|..]))
      {
        ghost var before, takenBefore := cluster, taken;
        ClusterFacts(community, taken, cellIds, cluster, c);
        cluster := TopUpFrom(cluster, c, sources[k]);
        NextSource(community, source, old(taken), takenBefore, c, start, sources, k, before, cluster, target);
        if |cluster| == target {
          ClusterFacts(community, taken, cellIds, cluster, c);
          FullIsDone(community, source, old(taken), c, start, sources, k + 1, cluster, target);
          AllSources(community, source, old(taken), c, start, sources);
          return;
        }
      }
      assert sources[..|sources|] == sources;
      AllSources(community, source, old(taken), c, start, sources);
    }

    /** Seeds of a Community: its traced nodes, strongest first. */
    function Seeds(c: nat): (seeds: seq<nat>)
      ensures forall u :: u in seeds <==> 0 <= u < |community| && community[u] == c && u in adjacency
      ensures SeedOrder(adjacency, frequency, seeds)
    {
      var traced := Where(seq(|community|, i requires 0 <= i < |community| => community[i] == c && i in adjacency));
      SortedNodes(SeedKeys(adjacency, frequency, traced));
      SortedSeeds(adjacency, frequency, traced);
      Nodes(Sorted(SeedKeys(adjacency, frequency, traced)))
    }

    /** Where the Cells so far come from. */
    ghost predicate Traceable()
      reads this
    {
      Origins(community, source, adjacency, frequency, target, cells, owner)
    }

    /** Every traced node of the Community is taken. */
    ghost predicate AllTraced(c: nat)
      reads this
    {
      |community| <= |taken| && forall i :: 0 <= i < |community| && community[i] == c && i in adjacency ==> taken[i]
    }

    /** Cells of earlier Communities come first. */
    ghost predicate Reached(c: nat)
      reads this
    {
      |owner| > 0 ==> owner[|owner| - 1] <= c
    }

    /** Grow, top up and publish a Cell from every seed that is still free. */
    method ClusterSeeds(c: nat) returns (ok: bool)
      requires Settled() && Reached(c) && Traceable()
      modifies this
      ensures ok ==> Settled() && Reached(c) && |taken| == old(|taken|) && Traceable() && AllTraced(c)
      ensures ok ==> forall i :: 0 <= i < |taken| && community[i] != c ==> taken[i] == old(taken[i])
      ensures EdgesInRange(adjacency, |community|) ==> ok
    {
      hide Published, GoodCells, IsCluster, Greedy, Candidate, Seeds, Origins, GrownFrom, BestSeed, SeedOrder, FirstOf,
           ComesNext, Earlier, Sharers;
      var seeds := Seeds(c);
      for k := 0 to |seeds|
        invariant Settled() && Reached(c) && |taken| == old(|taken|) && Traceable()
        invariant forall q :: 0 <= q < k ==> seeds[q] < |taken| && taken[seeds[q]]
        invariant forall i :: 0 <= i < |taken| && community[i] != c ==> taken[i] == old(taken[i])
      {
        assert seeds[k] in seeds;
        if taken[seeds[k]] {
          continue;
        }
        ghost var was, cellsBefore, ownerBefore := taken, cells, owner;
        SettledIs(cells, cellIds, orders, was);
        FirstFreeIsBest(community, was, adjacency, frequency, c, seeds, k);
        var core;
        ok, core := Grow(seeds[k], c);
        if !ok {
          return;
        }
        ghost var grown := taken;
        var cluster := TopUp(core, c);
        ClusterFacts(community, taken, cellIds, cluster, c);
        Publish(cluster, c);
        GrownCell(community, source, was, grown, adjacency, frequency, target, c, core, cluster, cells[|cellsBefore|]);
        GrownComesNext(community, source, was, adjacency, frequency, target, c, core, cells[|cellsBefore|]);
        OriginsGrow(community, source, adjacency, frequency, target, cellsBefore, ownerBefore, cells[|cellsBefore|], c,
                    was);
      }
      return true;
    }

    /** Free nodes of the Community in one source Cell, as they were when `free` was taken. */
    function Left(was: seq<bool>, c: nat, s: nat): (left: seq<nat>)
      requires |community| == |source| == |was|
      ensures IsLeft(community, source, was, c, s, left)
    {
      Where(seq(|community|, i requires 0 <= i < |community| => community[i] == c && source[i] == s && !was[i]))
    }

    function LeftOver(was: seq<bool>, c: nat): (left: seq<nat>)
      requires |community| == |was|
      ensures forall i :: i in left <==> 0 <= i < |community| && community[i] == c && !was[i]
    {
      Where(seq(|community|, i requires 0 <= i < |community| => community[i] == c && !was[i]))
    }

    /** Free nodes of one Community, none twice. */
    ghost predicate Pending(pending: seq<nat>, c: nat)
      reads this
    {
      IsPending(community, taken, pending, c)
    }

    /** Publish the first free nodes of a Community in which no traced node is free. */
    method PublishUntraced(nodes: seq<nat>, c: nat)
      requires Settled() && Reached(c) && Pending(nodes, c) && 0 < |nodes| <= target && Traceable() && AllTraced(c)
      requires FirstOf(source, OpenNodes(community, taken, c), target, ToSet(nodes))
      modifies this
      ensures Settled() && Reached(c) && |taken| == old(|taken|) && Traceable() && AllTraced(c)
      ensures forall i :: 0 <= i < |taken| ==> taken[i] == (old(taken[i]) || i in nodes)
    {
      hide Published, GoodCells, Origins, IsPending, FirstOf, ComesNext, Earlier;
      PendingFacts(community, taken, nodes, c);
      ghost var was, cellsBefore, ownerBefore := taken, cells, owner;
      SettledIs(cells, cellIds, orders, was);
      FreeAreUnplaced(cellIds, taken, nodes);
      Publish(nodes, c);
      PackedComesNext(community, source, was, adjacency, frequency, target, c, nodes, cells[|cellsBefore|]);
      OriginsGrow(community, source, adjacency, frequency, target, cellsBefore, ownerBefore, cells[|cellsBefore|], c, was);
    }

    /** The pending nodes stand in line before all other free nodes of the Community. */
    ghost predicate Lined(pending: seq<nat>, c: nat)
      reads this
    {
      InLine(community, source, taken, pending, c)
    }

    /** Publish full Cells from the front; what stays is less than a Cell. */
    method Pack(start: seq<nat>, c: nat) returns (pending: seq<nat>)
      requires Settled() && Reached(c) && Pending(start, c) && Lined(start, c) && Traceable() && AllTraced(c)
      modifies this
      ensures Settled() && Reached(c) && Pending(pending, c) && |taken| == old(|taken|) && |pending| < target
      ensures Lined(pending, c) && Traceable() && AllTraced(c)
      ensures forall i :: 0 <= i < |taken| ==> (taken[i] || i in pending <==> old(taken[i]) || i in start)
      ensures forall i :: i in pending ==> i in start
      ensures forall i :: 0 <= i < |taken| && old(taken[i]) ==> taken[i]
    {
      hide Published, GoodCells, Origins, InLine, FirstOf;
      pending := start;
      while |pending| >= target
        invariant Settled() && Reached(c) && Pending(pending, c) && |taken| == old(|taken|)
        invariant Lined(pending, c) && Traceable() && AllTraced(c)
        invariant forall i :: 0 <= i < |taken| ==> (taken[i] || i in pending <==> old(taken[i]) || i in start)
        invariant forall i :: i in pending ==> i in start
        invariant forall i :: 0 <= i < |taken| && old(taken[i]) ==> taken[i]
        decreases |pending|
      {
        SplitMembers(pending, target);
        FrontIsFirst(community, source, taken, pending, c, target, target);
        ghost var before, waiting := taken, pending;
        PublishUntraced(pending[..target], c);
        pending := pending[target..];
        LineMovesOn(community, source, before, taken, waiting, c, target);
      }
    }

    /** Publish what the seeds left, source Cell by source Cell, in Cells of the target size. */
    method PackRest(c: nat)
      requires Settled() && Reached(c) && Traceable() && AllTraced(c)
      modifies this
      ensures Settled() && Reached(c) && |taken| == old(|taken|) && Traceable()
      ensures forall i :: 0 <= i < |taken| ==> taken[i] == (old(taken[i]) || community[i] == c)
    {
      hide Published, GoodCells, IsPending, Progress, IsLeft, Left, LeftOver, SourcesOf, Origins, InLine, FirstOf,
           SourcesAre;
      var was := taken;
      var rest := LeftOver(was, c);
      assert forall k :: 0 <= k < |rest| ==> rest[k] in rest;
      var sources := SourcesOf(rest);
      SourcesAscend(source, rest, sources);
      SourcesInclude(source, rest, sources);
      var pending: seq<nat> := [];
      NothingPacked(community, source, was, c);
      for k := 0 to |sources|
        invariant Settled() && Reached(c) && Pending(pending, c) && |taken| == |was| && |pending| < target
        invariant Lined(pending, c) && Traceable() && AllTraced(c)
        invariant Progress(community, source, was, taken, pending, c, sources[..k])
        invariant forall i :: 0 <= i < |was| && was[i] ==> taken[i]
      {
        assert sources[..k + 1] == sources[..k] + [sources[k]];
        assert sources[k] !in sources[..k];
        var left := Left(was, c, sources[k]);
        LeftJoins(community, source, was, taken, pending, c, sources[..k], left, sources[k]);
        LineGrows(community, source, was, taken, pending, c, rest, sources, k, left);
        ghost var before, waiting, joined := taken, pending, pending + left;
        pending := Pack(pending + left, c);
        ProgressStep(community, source, was, before, waiting, joined, taken, pending, c, sources[..k], left, sources[k]);
      }
      assert sources[..|sources|] == sources;
      AllPacked(community, source, was, taken, pending, c, rest, sources);
      if |pending| > 0 {
        LastCell(community, source, was, taken, pending, c, target);
        PublishUntraced(pending, c);
      }
    }
  }

  /** The pending nodes are in the order of source Cell and id, and before all other free nodes. */
  ghost predicate InLine(community: seq<nat>, source: seq<nat>, taken: seq<bool>, pending: seq<nat>, c: nat) {
    && |community| == |source| == |taken| && (forall i :: 0 <= i < |pending| ==> pending[i] < |source|)
    && (forall i, j :: 0 <= i < j < |pending| ==> SourceBefore(source, pending[i], pending[j]))
    && forall i, u :: 0 <= i < |pending| && Open(community, taken, c, u) && u !in pending ==>
         SourceBefore(source, pending[i], u)
  }

  lemma FrontIsFirst(community: seq<nat>, source: seq<nat>, taken: seq<bool>, pending: seq<nat>, c: nat, n: nat,
                     target: nat)
    requires InLine(community, source, taken, pending, c) && IsPending(community, taken, pending, c) && n <= |pending|
    requires n == target || (n < target && forall u :: Open(community, taken, c, u) ==> u in pending[..n])
    ensures FirstOf(source, OpenNodes(community, taken, c), target, ToSet(pending[..n]))
  {
    var open, chosen := OpenNodes(community, taken, c), ToSet(pending[..n]);
    NoDupCardinality(pending[..n]);
    assert chosen <= open;
    assert open == chosen + (open - chosen);
    forall x, u | x in chosen && u in open && u !in chosen ensures SourceBefore(source, x, u) {
      var i :| 0 <= i < n && pending[..n][i] == x;
      if u in pending {
        assert u in pending[n..];
      }
    }
  }

  lemma LineMovesOn(community: seq<nat>, source: seq<nat>, before: seq<bool>, taken: seq<bool>, pending: seq<nat>,
                    c: nat, n: nat)
    requires InLine(community, source, before, pending, c) && n <= |pending| && |taken| == |before|
    requires forall i :: 0 <= i < |taken| ==> taken[i] == (before[i] || i in pending[..n])
    ensures InLine(community, source, taken, pending[n..], c)
  {
    forall i, u | 0 <= i < |pending[n..]| && Open(community, taken, c, u) && u !in pending[n..]
      ensures SourceBefore(source, pending[n..][i], u)
    {
      assert pending == pending[..n] + pending[n..];
      assert u !in pending;
    }
  }

  lemma LineGrows(community: seq<nat>, source: seq<nat>, was: seq<bool>, taken: seq<bool>, pending: seq<nat>, c: nat,
                  rest: seq<nat>, sources: seq<nat>, k: nat, left: seq<nat>)
    requires InLine(community, source, taken, pending, c) && IsPending(community, taken, pending, c) && k < |sources|
    requires Progress(community, source, was, taken, pending, c, sources[..k])
    requires forall i :: 0 <= i < |was| && was[i] ==> taken[i]
    requires forall i, j :: 0 <= i < j < |sources| ==> sources[i] < sources[j]
    requires forall i :: i in rest <==> 0 <= i < |community| && community[i] == c && !was[i]
    requires forall q :: 0 <= q < |rest| ==> rest[q] < |source| && source[rest[q]] in sources
    requires IsLeft(community, source, was, c, sources[k], left)
    ensures InLine(community, source, taken, pending + left, c)
  {
    forall i | 0 <= i < |pending| ensures source[pending[i]] < sources[k] {
      assert pending[i] in pending && source[pending[i]] in sources[..k];
    }
    forall i | 0 <= i < |left| ensures left[i] < |source| && source[left[i]] == sources[k] {
      assert left[i] in left;
    }
    forall u: nat | Open(community, taken, c, u) && u !in pending && u !in left ensures source[u] > sources[k] {
      assert u in rest && source[u] in sources && source[u] !in sources[..k];
      var q :| 0 <= q < |sources| && sources[q] == source[u];
      assert sources == sources[..k] + [sources[k]] + sources[k + 1..];
    }
    var more := pending + left;
    forall i, j | 0 <= i < j < |more| ensures SourceBefore(source, more[i], more[j]) {
    }
    forall i, u | 0 <= i < |more| && Open(community, taken, c, u) && u !in more ensures SourceBefore(source, more[i], u) {
    }
  }

  lemma LastCell(community: seq<nat>, source: seq<nat>, was: seq<bool>, taken: seq<bool>, pending: seq<nat>, c: nat,
                 target: nat)
    requires InLine(community, source, taken, pending, c) && IsPending(community, taken, pending, c) && |pending| < target
    requires |was| == |taken| && forall i :: 0 <= i < |taken| ==> (taken[i] || i in pending <==> was[i] || community[i] == c)
    ensures FirstOf(source, OpenNodes(community, taken, c), target, ToSet(pending))
  {
    assert pending[..|pending|] == pending;
    FrontIsFirst(community, source, taken, pending, c, |pending|, target);
  }

  ghost predicate IsPending(community: seq<nat>, taken: seq<bool>, pending: seq<nat>, c: nat) {
    && NoDup(pending) && |community| == |taken|
    && forall k :: 0 <= k < |pending| ==> pending[k] < |community| && community[pending[k]] == c && !taken[pending[k]]
  }

  /** Taken or pending are the nodes taken before and those of the source Cells done so far. */
  ghost predicate Progress(community: seq<nat>, source: seq<nat>, was: seq<bool>, taken: seq<bool>, pending: seq<nat>,
                           c: nat, done: seq<nat>) {
    && |community| == |source| == |was| == |taken|
    && forall i :: 0 <= i < |taken| ==>
         (taken[i] || i in pending <==> was[i] || (community[i] == c && source[i] in done))
  }

  lemma NothingPacked(community: seq<nat>, source: seq<nat>, was: seq<bool>, c: nat)
    requires |community| == |source| == |was|
    ensures forall done: seq<nat> :: |done| == 0 ==> Progress(community, source, was, was, [], c, done)
    ensures IsPending(community, was, [], c) && InLine(community, source, was, [], c)
  {
  }

  ghost predicate IsLeft(community: seq<nat>, source: seq<nat>, was: seq<bool>, c: nat, s: nat, left: seq<nat>) {
    && |community| == |source| == |was| && (forall i, j :: 0 <= i < j < |left| ==> left[i] < left[j])
    && forall i :: i in left <==> 0 <= i < |community| && community[i] == c && source[i] == s && !was[i]
  }

  lemma LeftJoins(community: seq<nat>, source: seq<nat>, was: seq<bool>, taken: seq<bool>, pending: seq<nat>,
                  c: nat, done: seq<nat>, left: seq<nat>, s: nat)
    requires Progress(community, source, was, taken, pending, c, done) && IsPending(community, taken, pending, c)
    requires IsLeft(community, source, was, c, s, left) && s !in done
    ensures IsPending(community, taken, pending + left, c)
    ensures forall x :: x in pending + left <==> x in pending || x in left
  {
    assert forall i :: 0 <= i < |pending| ==> pending[i] in pending;
    assert forall i :: 0 <= i < |left| ==> left[i] in left;
    forall x | x in left ensures x < |taken| && !taken[x] && x !in pending {
    }
    PendingJoins(pending, left);
  }

  lemma ProgressStep(community: seq<nat>, source: seq<nat>, was: seq<bool>, before: seq<bool>, waiting: seq<nat>,
                     joined: seq<nat>, taken: seq<bool>, pending: seq<nat>, c: nat, done: seq<nat>, left: seq<nat>, s: nat)
    requires Progress(community, source, was, before, waiting, c, done)
    requires forall x :: x in joined <==> x in waiting || x in left
    requires IsLeft(community, source, was, c, s, left) && |taken| == |before|
    requires forall i :: 0 <= i < |taken| ==> (taken[i] || i in pending <==> before[i] || i in joined)
    ensures Progress(community, source, was, taken, pending, c, done + [s])
  {
    InAppend(done, s);
  }

  lemma AllPacked(community: seq<nat>, source: seq<nat>, was: seq<bool>, taken: seq<bool>, pending: seq<nat>,
                  c: nat, rest: seq<nat>, sources: seq<nat>)
    requires Progress(community, source, was, taken, pending, c, sources)
    requires forall i :: i in rest <==> 0 <= i < |community| && community[i] == c && !was[i]
    requires forall k :: 0 <= k < |rest| ==> rest[k] < |source| && source[rest[k]] in sources
    ensures forall i :: 0 <= i < |taken| ==> (taken[i] || i in pending <==> was[i] || community[i] == c)
  {
    forall i | 0 <= i < |taken| && community[i] == c && !was[i] ensures source[i] in sources {
      var q :| 0 <= q < |rest| && rest[q] == i;
    }
  }

  lemma PendingFacts(community: seq<nat>, taken: seq<bool>, pending: seq<nat>, c: nat)
    requires IsPending(community, taken, pending, c)
    ensures NoDup(pending)
    ensures forall k :: 0 <= k < |pending| ==> pending[k] < |taken| && community[pending[k]] == c && !taken[pending[k]]
    ensures |taken| == |community|
  {
  }

  lemma ClusterFacts(community: seq<nat>, taken: seq<bool>, ids: seq<int>, cluster: seq<nat>, c: nat)
    requires IsCluster(community, taken, ids, cluster, c)
    ensures NoDup(cluster) && |ids| == |taken| == |community|
    ensures forall k :: 0 <= k < |cluster| ==> cluster[k] < |community| && community[cluster[k]] == c && ids[cluster[k]] == -1
    ensures forall k :: 0 <= k < |cluster| ==> taken[cluster[k]]
  {
  }

  /** Most frequent first, then smallest id. */
  function CellKeys(frequency: map<nat, int>, nodes: seq<nat>): (keys: seq<Key>)
    ensures |keys| == |nodes| && Nodes(keys) == nodes
    ensures forall i :: 0 <= i < |nodes| ==> keys[i] == Key(-Frequency(frequency, keys[i].node), 0, keys[i].node)
  {
    seq(|nodes|, i requires 0 <= i < |nodes| => Key(-Frequency(frequency, nodes[i]), 0, nodes[i]))
  }

  /** Strongest total co-access first, then most frequent, then smallest id. */
  function SeedKeys(adjacency: map<nat, seq<Edge>>, frequency: map<nat, int>, nodes: seq<nat>): (keys: seq<Key>)
    ensures |keys| == |nodes| && Nodes(keys) == nodes
  {
    seq(|nodes|, i requires 0 <= i < |nodes| =>
      Key(-Strength(EdgesOf(adjacency, nodes[i])), -Frequency(frequency, nodes[i]), nodes[i]))
  }

  function Strength(edges: seq<Edge>): int {
    if |edges| == 0 then 0 else Strength(edges[..|edges| - 1]) + edges[|edges| - 1].weight
  }

  lemma SortedNodes(keys: seq<Key>)
    ensures forall u :: u in Nodes(Sorted(keys)) <==> u in Nodes(keys)
  {
    hide Sorted;
    var s := Sorted(keys);
    forall u | u in Nodes(s) ensures u in Nodes(keys) {
      var i :| 0 <= i < |s| && Nodes(s)[i] == u;
      assert s[i] in multiset(s);
      var j :| 0 <= j < |keys| && keys[j] == s[i];
      assert Nodes(keys)[j] == u;
    }
    forall u | u in Nodes(keys) ensures u in Nodes(s) {
      var i :| 0 <= i < |keys| && Nodes(keys)[i] == u;
      assert keys[i] in multiset(keys);
      var j :| 0 <= j < |s| && s[j] == keys[i];
      assert Nodes(s)[j] == u;
    }
  }

  lemma SplitMembers(s: seq<nat>, n: nat)
    requires n <= |s| && NoDup(s)
    ensures forall x :: x in s <==> x in s[..n] || x in s[n..]
    ensures forall x :: x in s[..n] ==> x !in s[n..]
    ensures NoDup(s[..n]) && NoDup(s[n..])
  {
    assert s == s[..n] + s[n..];
  }

  lemma PendingJoins(pending: seq<nat>, left: seq<nat>)
    requires NoDup(pending) && NoDup(left) && forall x :: x in left ==> x !in pending
    ensures NoDup(pending + left) && forall x :: x in pending + left <==> x in pending || x in left
  {
    assert forall i :: 0 <= i < |pending| ==> pending[i] in pending;
    assert forall i :: 0 <= i < |left| ==> left[i] in left;
  }

  ghost predicate IsCluster(community: seq<nat>, taken: seq<bool>, ids: seq<int>, cluster: seq<nat>, c: nat) {
    && NoDup(cluster) && |community| == |taken| == |ids|
    && forall k :: 0 <= k < |cluster| ==>
         cluster[k] < |community| && community[cluster[k]] == c && taken[cluster[k]] && ids[cluster[k]] == -1
  }

  lemma ClusterAdds(community: seq<nat>, taken: seq<bool>, ids: seq<int>, cluster: seq<nat>, c: nat, x: nat)
    requires IsCluster(community, taken, ids, cluster, c)
    requires x < |community| && community[x] == c && !taken[x] && ids[x] == -1
    ensures IsCluster(community, taken[x := true], ids, cluster + [x], c)
    ensures forall i :: i in cluster + [x] <==> i in cluster || i == x
  {
    InAppend(cluster, x);
  }

  lemma EmptyCluster(community: seq<nat>, taken: seq<bool>, ids: seq<int>, c: nat)
    requires |community| == |taken| == |ids|
    ensures IsCluster(community, taken, ids, [], c)
  {
  }

  lemma RangeAt(adjacency: map<nat, seq<Edge>>, n: nat)
    ensures EdgesInRange(adjacency, n) ==> forall u, e :: e in EdgesOf(adjacency, u) ==> e.node < n
  {
  }

  // ---------- Affinity ----------

  function EdgesOf(adjacency: map<nat, seq<Edge>>, node: nat): seq<Edge> {
    if node in adjacency then adjacency[node] else []
  }

  /** The total weight of the edges to `u`. */
  function WeightTo(edges: seq<Edge>, u: nat): int {
    if |edges| == 0 then 0
    else WeightTo(edges[..|edges| - 1], u) + if edges[|edges| - 1].node == u then edges[|edges| - 1].weight else 0
  }

  ghost predicate LinksTo(edges: seq<Edge>, u: nat) {
    exists k :: 0 <= k < |edges| && edges[k].node == u
  }

  /** The total weight of the edges from the cluster to `u`. */
  function Pull(adjacency: map<nat, seq<Edge>>, cluster: seq<nat>, u: nat): int {
    if |cluster| == 0 then 0
    else Pull(adjacency, cluster[..|cluster| - 1], u) + WeightTo(EdgesOf(adjacency, cluster[|cluster| - 1]), u)
  }

  ghost predicate Linked(adjacency: map<nat, seq<Edge>>, cluster: seq<nat>, u: nat) {
    exists k :: 0 <= k < |cluster| && LinksTo(EdgesOf(adjacency, cluster[k]), u)
  }

  /** A free node of the Community. */
  predicate Open(community: seq<nat>, taken: seq<bool>, c: nat, u: nat) {
    u < |community| && u < |taken| && community[u] == c && !taken[u]
  }

  /** `affinity` has the free nodes that the cluster and the edges lead to, each with its total weight. */
  ghost predicate Affinity(community: seq<nat>, taken: seq<bool>, adjacency: map<nat, seq<Edge>>, cluster: seq<nat>,
                           edges: seq<Edge>, affinity: map<nat, int>, c: nat) {
    && |community| == |taken|
    && forall u: nat ::
         && (u in affinity <==> Open(community, taken, c, u) && (Linked(adjacency, cluster, u) || LinksTo(edges, u)))
         && (u in affinity ==> affinity[u] == Pull(adjacency, cluster, u) + WeightTo(edges, u))
  }

  lemma NoAffinity(community: seq<nat>, taken: seq<bool>, adjacency: map<nat, seq<Edge>>, c: nat)
    requires |community| == |taken|
    ensures Affinity(community, taken, adjacency, [], [], map[], c)
  {
  }

  lemma {:induction false} UnlinkedWeighsNothing(edges: seq<Edge>, u: nat)
    requires !LinksTo(edges, u)
    ensures WeightTo(edges, u) == 0
  {
    if |edges| > 0 {
      var rest := edges[..|edges| - 1];
      assert forall k :: 0 <= k < |rest| ==> rest[k] == edges[k];
      UnlinkedWeighsNothing(rest, u);
    }
  }

  lemma {:induction false} UnlinkedPullsNothing(adjacency: map<nat, seq<Edge>>, cluster: seq<nat>, u: nat)
    requires !Linked(adjacency, cluster, u)
    ensures Pull(adjacency, cluster, u) == 0
  {
    hide LinksTo, WeightTo, EdgesOf;
    if |cluster| > 0 {
      var rest := cluster[..|cluster| - 1];
      assert forall k :: 0 <= k < |rest| ==> rest[k] == cluster[k];
      UnlinkedPullsNothing(adjacency, rest, u);
      UnlinkedWeighsNothing(EdgesOf(adjacency, cluster[|cluster| - 1]), u);
    }
  }

  lemma EdgeStep(edges: seq<Edge>, k: nat, u: nat)
    requires k < |edges|
    ensures LinksTo(edges[..k + 1], u) <==> LinksTo(edges[..k], u) || edges[k].node == u
    ensures WeightTo(edges[..k + 1], u) == WeightTo(edges[..k], u) + if edges[k].node == u then edges[k].weight else 0
  {
    var more, less := edges[..k + 1], edges[..k];
    assert more[..k] == less && more[k] == edges[k];
    if LinksTo(less, u) {
      var i :| 0 <= i < |less| && less[i].node == u;
      assert more[i].node == u;
    }
    if LinksTo(more, u) {
      var i :| 0 <= i < |more| && more[i].node == u;
      assert i < k ==> less[i].node == u;
    }
  }

  /** Following one more edge adds its weight to its node, if that is free. */
  lemma AffinityEdge(community: seq<nat>, taken: seq<bool>, adjacency: map<nat, seq<Edge>>, cluster: seq<nat>,
                     edges: seq<Edge>, k: nat, affinity: map<nat, int>, c: nat)
    requires k < |edges| && edges[k].node < |community|
    requires Affinity(community, taken, adjacency, cluster, edges[..k], affinity, c)
    ensures var e := edges[k];
      Affinity(community, taken, adjacency, cluster, edges[..k + 1],
               if Open(community, taken, c, e.node) then
                 affinity[e.node := e.weight + if e.node in affinity then affinity[e.node] else 0]
               else affinity, c)
  {
    hide LinksTo, WeightTo, Pull, Linked, Open;
    var e := edges[k];
    forall u: nat
      ensures LinksTo(edges[..k + 1], u) <==> LinksTo(edges[..k], u) || e.node == u
      ensures WeightTo(edges[..k + 1], u) == WeightTo(edges[..k], u) + if e.node == u then e.weight else 0
    {
      EdgeStep(edges, k, u);
    }
    if e.node !in affinity && Open(community, taken, c, e.node) {
      UnlinkedPullsNothing(adjacency, cluster, e.node);
      UnlinkedWeighsNothing(edges[..k], e.node);
    }
  }

  lemma LinkedAdds(adjacency: map<nat, seq<Edge>>, cluster: seq<nat>, x: nat, u: nat)
    ensures Linked(adjacency, cluster + [x], u) <==> Linked(adjacency, cluster, u) || LinksTo(EdgesOf(adjacency, x), u)
    ensures Pull(adjacency, cluster + [x], u) == Pull(adjacency, cluster, u) + WeightTo(EdgesOf(adjacency, x), u)
  {
    hide LinksTo, WeightTo, EdgesOf;
    var more := cluster + [x];
    assert more[..|cluster|] == cluster && more[|cluster|] == x;
    if Linked(adjacency, cluster, u) {
      var k :| 0 <= k < |cluster| && LinksTo(EdgesOf(adjacency, cluster[k]), u);
      assert LinksTo(EdgesOf(adjacency, more[k]), u);
    }
    if Linked(adjacency, more, u) {
      var k :| 0 <= k < |more| && LinksTo(EdgesOf(adjacency, more[k]), u);
      assert k < |cluster| ==> LinksTo(EdgesOf(adjacency, cluster[k]), u);
    }
  }

  lemma AffinityAdds(community: seq<nat>, taken: seq<bool>, adjacency: map<nat, seq<Edge>>, cluster: seq<nat>,
                     affinity: map<nat, int>, c: nat, x: nat)
    requires Affinity(community, taken, adjacency, cluster, EdgesOf(adjacency, x), affinity, c)
    ensures Affinity(community, taken, adjacency, cluster + [x], [], affinity, c)
  {
    hide Pull, Linked, Open, EdgesOf;
    forall u: nat
      ensures Linked(adjacency, cluster + [x], u) <==> Linked(adjacency, cluster, u) || LinksTo(EdgesOf(adjacency, x), u)
      ensures Pull(adjacency, cluster + [x], u) == Pull(adjacency, cluster, u) + WeightTo(EdgesOf(adjacency, x), u)
    {
      LinkedAdds(adjacency, cluster, x, u);
    }
    assert forall u: nat :: !LinksTo([], u) && WeightTo([], u) == 0;
  }

  lemma AffinityTakes(community: seq<nat>, taken: seq<bool>, adjacency: map<nat, seq<Edge>>, cluster: seq<nat>,
                      affinity: map<nat, int>, c: nat, x: nat)
    requires Affinity(community, taken, adjacency, cluster, [], affinity, c) && x < |taken|
    ensures Affinity(community, taken[x := true], adjacency, cluster, [], affinity - {x}, c)
  {
    hide Pull, Linked, LinksTo, WeightTo;
  }

  /** `u` was free, and the nodes of `prefix`, which it is not one of, lead to it. */
  ghost predicate Candidate(community: seq<nat>, was: seq<bool>, adjacency: map<nat, seq<Edge>>, prefix: seq<nat>,
                            c: nat, u: nat) {
    Open(community, was, c, u) && u !in prefix && Linked(adjacency, prefix, u)
  }

  /** Strongest pull first, then most frequent, then smallest id. */
  function PullKey(adjacency: map<nat, seq<Edge>>, frequency: map<nat, int>, prefix: seq<nat>, u: nat): Key {
    Key(-Pull(adjacency, prefix, u), -Frequency(frequency, u), u)
  }

  ghost predicate BestCandidate(community: seq<nat>, was: seq<bool>, adjacency: map<nat, seq<Edge>>,
                                frequency: map<nat, int>, prefix: seq<nat>, c: nat, x: nat) {
    && Candidate(community, was, adjacency, prefix, c, x)
    && forall u: nat :: Candidate(community, was, adjacency, prefix, c, u) && u != x ==>
         Below(PullKey(adjacency, frequency, prefix, x), PullKey(adjacency, frequency, prefix, u))
  }

  /** Every node after the first was, when it joined, the candidate that those before it pulled most. */
  ghost predicate Greedy(community: seq<nat>, was: seq<bool>, adjacency: map<nat, seq<Edge>>,
                         frequency: map<nat, int>, cluster: seq<nat>, c: nat) {
    forall k :: 0 < k < |cluster| ==> BestCandidate(community, was, adjacency, frequency, cluster[..k], c, cluster[k])
  }

  lemma GreedyStart(community: seq<nat>, was: seq<bool>, adjacency: map<nat, seq<Edge>>, frequency: map<nat, int>,
                    seed: nat, c: nat)
    ensures Greedy(community, was, adjacency, frequency, [seed], c)
  {
  }

  /** The waiting nodes are the candidates. */
  lemma WaitingAreCandidates(community: seq<nat>, was: seq<bool>, taken: seq<bool>, adjacency: map<nat, seq<Edge>>,
                             cluster: seq<nat>, affinity: map<nat, int>, c: nat, u: nat)
    requires Affinity(community, taken, adjacency, cluster, [], affinity, c) && |was| == |taken|
    requires forall i :: 0 <= i < |taken| ==> taken[i] == (was[i] || i in cluster)
    ensures u in affinity <==> Candidate(community, was, adjacency, cluster, c, u)
    ensures u in affinity ==> affinity[u] == Pull(adjacency, cluster, u)
  {
    hide Linked, Pull;
    assert !LinksTo([], u) && WeightTo([], u) == 0;
  }

  lemma GreedyGrows(community: seq<nat>, was: seq<bool>, taken: seq<bool>, adjacency: map<nat, seq<Edge>>,
                    frequency: map<nat, int>, cluster: seq<nat>, affinity: map<nat, int>, c: nat, x: nat)
    requires Greedy(community, was, adjacency, frequency, cluster, c) && |was| == |taken|
    requires Affinity(community, taken, adjacency, cluster, [], affinity, c) && Best(affinity, frequency, x)
    requires forall i :: 0 <= i < |taken| ==> taken[i] == (was[i] || i in cluster)
    ensures Greedy(community, was, adjacency, frequency, cluster + [x], c)
  {
    hide Affinity, Candidate, Below, Pull;
    forall u: nat
      ensures u in affinity <==> Candidate(community, was, adjacency, cluster, c, u)
      ensures u in affinity ==> affinity[u] == Pull(adjacency, cluster, u)
    {
      WaitingAreCandidates(community, was, taken, adjacency, cluster, affinity, c, u);
    }
    assert BestCandidate(community, was, adjacency, frequency, cluster, c, x);
    var more := cluster + [x];
    forall k | 0 < k < |more| ensures BestCandidate(community, was, adjacency, frequency, more[..k], c, more[k]) {
      assert more[..k] == if k < |cluster| then cluster[..k] else cluster;
    }
  }

  lemma BestIsFree(community: seq<nat>, taken: seq<bool>, adjacency: map<nat, seq<Edge>>, frequency: map<nat, int>,
                   cluster: seq<nat>, affinity: map<nat, int>, c: nat, x: nat)
    requires Affinity(community, taken, adjacency, cluster, [], affinity, c) && Best(affinity, frequency, x)
    ensures x < |community| == |taken| && community[x] == c && !taken[x]
  {
    hide Linked, Pull, LinksTo, WeightTo;
  }

  lemma NoCandidateLeft(community: seq<nat>, was: seq<bool>, taken: seq<bool>, adjacency: map<nat, seq<Edge>>,
                        cluster: seq<nat>, c: nat)
    requires Affinity(community, taken, adjacency, cluster, [], map[], c) && |was| == |taken|
    requires forall i :: 0 <= i < |taken| ==> taken[i] == (was[i] || i in cluster)
    ensures forall u: nat :: !Candidate(community, was, adjacency, cluster, c, u)
  {
    hide Affinity, Candidate;
    forall u: nat ensures !Candidate(community, was, adjacency, cluster, c, u) {
      WaitingAreCandidates(community, was, taken, adjacency, cluster, map[], c, u);
    }
  }

  // ---------- Filling up in the order of the source Cells ----------

  predicate SourceBefore(source: seq<nat>, a: nat, b: nat)
    requires a < |source| && b < |source|
  {
    source[a] < source[b] || (source[a] == source[b] && a < b)
  }

  /** The first `n` of the eligible nodes in the order of source Cell and id, or all of them. */
  ghost predicate FirstOf(source: seq<nat>, eligible: set<nat>, n: nat, chosen: set<nat>) {
    && chosen <= eligible && (forall u :: u in eligible ==> u < |source|)
    && |chosen| == (if |eligible| < n then |eligible| else n)
    && forall x, u :: x in chosen && u in eligible && u !in chosen ==> SourceBefore(source, x, u)
  }

  ghost predicate AllBefore(source: seq<nat>, one: set<nat>, two: set<nat>) {
    forall x, u :: x in one && u in two ==> x < |source| && u < |source| && SourceBefore(source, x, u)
  }

  lemma SubsetOfSameSize(a: set<nat>, b: set<nat>)
    requires a <= b && |a| == |b|
    ensures a == b
  {
    assert b == a + (b - a);
    assert |b - a| == 0;
  }

  /** Filling up from one group of nodes and then from a later one. */
  lemma FirstOfJoin(source: seq<nat>, one: set<nat>, a: set<nat>, two: set<nat>, b: set<nat>, n: nat)
    requires FirstOf(source, one, n, a) && FirstOf(source, two, n - |a|, b) && one !! two
    requires AllBefore(source, one, two)
    ensures FirstOf(source, one + two, n, a + b)
  {
    assert |a + b| == |a| + |b| && |one + two| == |one| + |two|;
    if |one| <= n {
      SubsetOfSameSize(a, one);
    } else {
      assert b == {};
    }
  }

  /** Once there is no room, later nodes change nothing. */
  lemma FirstOfStop(source: seq<nat>, one: set<nat>, a: set<nat>, two: set<nat>, n: nat)
    requires FirstOf(source, one, n, a) && |a| == n && one !! two && AllBefore(source, one, two)
    requires forall u :: u in two ==> u < |source|
    ensures FirstOf(source, one + two, n, a)
  {
    FirstOfFull(source, two);
    FirstOfJoin(source, one, a, two, {}, n);
    assert a + {} == a;
  }

  lemma FirstOfOne(source: seq<nat>, u: nat, n: nat)
    requires u < |source|
    ensures FirstOf(source, {u}, n, if n > 0 then {u} else {})
  {
  }

  /** Nothing is taken once there is no room. */
  lemma FirstOfFull(source: seq<nat>, eligible: set<nat>)
    requires forall u :: u in eligible ==> u < |source|
    ensures FirstOf(source, eligible, 0, {})
  {
  }

  /** The free nodes of the Community. */
  ghost function OpenNodes(community: seq<nat>, taken: seq<bool>, c: nat): (nodes: set<nat>)
    ensures forall u: nat :: u in nodes <==> Open(community, taken, c, u)
  {
    set u: nat | u < |community| && Open(community, taken, c, u)
  }

  /** The free nodes of the Community in one source Cell. */
  ghost function OpenIn(community: seq<nat>, source: seq<nat>, taken: seq<bool>, c: nat, s: nat): (nodes: set<nat>)
    ensures forall u: nat :: u in nodes <==> Open(community, taken, c, u) && u < |source| && source[u] == s
  {
    set u: nat | u < |community| && u < |source| && Open(community, taken, c, u) && source[u] == s
  }

  /** The free nodes of the Community that share a source Cell with a node of `core`. */
  ghost function Sharers(community: seq<nat>, source: seq<nat>, taken: seq<bool>, c: nat, core: seq<nat>): (nodes: set<nat>)
    ensures forall u: nat :: u in nodes <==> Open(community, taken, c, u) && u !in core && SharesSource(source, core, u)
  {
    set u: nat | u < |community| && Open(community, taken, c, u) && u !in core && SharesSource(source, core, u)
  }

  /** The free nodes of the Community in any of the source Cells. */
  ghost function OpenInAny(community: seq<nat>, source: seq<nat>, taken: seq<bool>, c: nat, sources: seq<nat>)
    : (nodes: set<nat>)
    ensures forall u: nat :: u in nodes <==> Open(community, taken, c, u) && u < |source| && source[u] in sources
  {
    set u: nat | u < |community| && u < |source| && Open(community, taken, c, u) && source[u] in sources
  }

  /** The free nodes of a list. */
  ghost function FreeOf(taken: seq<bool>, list: seq<nat>): set<nat> {
    set u | u in list && u < |taken| && !taken[u]
  }

  lemma NonePassed(source: seq<nat>, taken: seq<bool>, mates: seq<nat>, n: nat)
    ensures FirstOf(source, FreeOf(taken, mates[..0]), n, {})
  {
    assert FreeOf(taken, mates[..0]) == {};
  }

  /** The cluster has grown from `start` by `extras`, which are now taken. */
  ghost predicate ToppedUp(was: seq<bool>, taken: seq<bool>, start: seq<nat>, cluster: seq<nat>, extras: set<nat>) {
    && start <= cluster && ToSet(cluster[|start|..]) == extras && |extras| == |cluster| - |start|
    && |taken| == |was| && forall i :: 0 <= i < |taken| ==> taken[i] == (was[i] || i in extras)
  }

  lemma NotTopped(taken: seq<bool>, start: seq<nat>)
    ensures ToppedUp(taken, taken, start, start, {})
  {
    assert ToSet(start[|start|..]) == {};
  }

  lemma TopsUp(was: seq<bool>, taken: seq<bool>, start: seq<nat>, cluster: seq<nat>, extras: set<nat>, x: nat)
    requires ToppedUp(was, taken, start, cluster, extras) && x < |taken| && !taken[x]
    ensures ToppedUp(was, taken[x := true], start, cluster + [x], extras + {x})
  {
    assert (cluster + [x])[|start|..] == cluster[|start|..] + [x];
    InAppend(cluster[|start|..], x);
    assert |extras + {x}| == |extras| + 1;
  }

  lemma ToppedIs(was: seq<bool>, taken: seq<bool>, start: seq<nat>, cluster: seq<nat>, extras: set<nat>)
    requires ToppedUp(was, taken, start, cluster, extras)
    ensures |taken| == |was| && start <= cluster && ToSet(cluster[|start|..]) == extras && |extras| == |cluster| - |start|
    ensures forall i :: 0 <= i < |taken| ==> taken[i] == (was[i] || i in extras)
    ensures forall i :: i in cluster <==> i in start || i in extras
  {
    assert cluster == start + cluster[|start|..];
  }

  /** The nodes of one source Cell in increasing order. */
  ghost predicate Ascend(source: seq<nat>, taken: seq<bool>, mates: seq<nat>, s: nat) {
    && (forall i, j :: 0 <= i < j < |mates| ==> mates[i] < mates[j])
    && forall i :: 0 <= i < |mates| ==> mates[i] < |taken| && mates[i] < |source| && source[mates[i]] == s
  }

  lemma FreeSplit(source: seq<nat>, taken: seq<bool>, mates: seq<nat>, k: nat, s: nat)
    requires k <= |mates| && Ascend(source, taken, mates, s)
    ensures FreeOf(taken, mates) == FreeOf(taken, mates[..k]) + FreeOf(taken, mates[k..])
    ensures FreeOf(taken, mates[..k]) !! FreeOf(taken, mates[k..])
    ensures AllBefore(source, FreeOf(taken, mates[..k]), FreeOf(taken, mates[k..]))
    ensures forall u :: u in FreeOf(taken, mates[k..]) ==> u < |source|
  {
    assert mates == mates[..k] + mates[k..];
  }

  /** Going past one more node of the source Cell. */
  lemma PassMate(source: seq<nat>, taken: seq<bool>, mates: seq<nat>, k: nat, n: nat, extras: set<nat>, s: nat)
    requires k < |mates| && Ascend(source, taken, mates, s)
    requires FirstOf(source, FreeOf(taken, mates[..k]), n, extras)
    ensures taken[mates[k]] ==> FirstOf(source, FreeOf(taken, mates[..k + 1]), n, extras)
    ensures !taken[mates[k]] && |extras| < n ==> FirstOf(source, FreeOf(taken, mates[..k + 1]), n, extras + {mates[k]})
  {
    hide FirstOf;
    var next := mates[..k + 1];
    assert next[..k] == mates[..k] && next[k..] == [mates[k]];
    FreeSplit(source, taken, next, k, s);
    if taken[mates[k]] {
      assert FreeOf(taken, next[k..]) == {};
      assert FreeOf(taken, next) == FreeOf(taken, mates[..k]);
    } else {
      assert FreeOf(taken, next[k..]) == {mates[k]};
      if |extras| < n {
        FirstOfOne(source, mates[k], n - |extras|);
        FirstOfJoin(source, FreeOf(taken, mates[..k]), extras, {mates[k]}, {mates[k]}, n);
      }
    }
  }

  /** Stopping in a source Cell when there is no more room. */
  lemma NoMoreMates(source: seq<nat>, taken: seq<bool>, mates: seq<nat>, k: nat, n: nat, extras: set<nat>, s: nat)
    requires k <= |mates| && Ascend(source, taken, mates, s)
    requires FirstOf(source, FreeOf(taken, mates[..k]), n, extras) && |extras| == n
    ensures FirstOf(source, FreeOf(taken, mates), n, extras)
  {
    hide FirstOf;
    FreeSplit(source, taken, mates, k, s);
    FirstOfStop(source, FreeOf(taken, mates[..k]), extras, FreeOf(taken, mates[k..]), n);
  }

  lemma MatesAre(community: seq<nat>, source: seq<nat>, taken: seq<bool>, c: nat, s: nat, mates: seq<nat>)
    requires |community| == |source| == |taken|
    requires forall i :: i in mates <==> 0 <= i < |community| && community[i] == c && source[i] == s
    requires forall i, j :: 0 <= i < j < |mates| ==> mates[i] < mates[j]
    ensures FreeOf(taken, mates) == OpenIn(community, source, taken, c, s) && Ascend(source, taken, mates, s)
    ensures forall k :: 0 <= k < |mates| ==> mates[k] < |community| && community[mates[k]] == c
  {
    assert forall k :: 0 <= k < |mates| ==> mates[k] in mates;
  }

  lemma FirstPassed(source: seq<nat>, taken: seq<bool>, mates: seq<nat>, k: nat, s: nat)
    requires k < |mates| && Ascend(source, taken, mates, s)
    ensures mates[k] < |taken| && mates[k] !in ToSet(mates[..k])
    ensures ToSet(mates[..k + 1]) == ToSet(mates[..k]) + {mates[k]}
  {
    assert mates[..k + 1] == mates[..k] + [mates[k]];
    InAppend(mates[..k], mates[k]);
  }

  /** One round of filling up from a source Cell. */
  lemma MateStep(source: seq<nat>, was: seq<bool>, taken: seq<bool>, start: seq<nat>, cluster: seq<nat>,
                 extras: set<nat>, mates: seq<nat>, k: nat, n: nat, s: nat)
    requires k < |mates| && Ascend(source, was, mates, s) && ToppedUp(was, taken, start, cluster, extras)
    requires extras <= ToSet(mates[..k]) && FirstOf(source, FreeOf(was, mates[..k]), n, extras)
    ensures mates[k] < |taken| && |extras| == |cluster| - |start|
    ensures |extras| == n ==> FirstOf(source, FreeOf(was, mates), n, extras)
    ensures taken[mates[k]] ==> extras <= ToSet(mates[..k + 1]) && FirstOf(source, FreeOf(was, mates[..k + 1]), n, extras)
    ensures !taken[mates[k]] && |extras| < n ==>
      var more := extras + {mates[k]};
      && ToppedUp(was, taken[mates[k] := true], start, cluster + [mates[k]], more)
      && more <= ToSet(mates[..k + 1]) && FirstOf(source, FreeOf(was, mates[..k + 1]), n, more)
  {
    hide FirstOf, FreeOf, ToppedUp, Ascend;
    ToppedIs(was, taken, start, cluster, extras);
    FirstPassed(source, was, mates, k, s);
    assert mates[k] !in extras;
    PassMate(source, was, mates, k, n, extras, s);
    if |extras| == n {
      NoMoreMates(source, was, mates, k, n, extras, s);
    }
    if !taken[mates[k]] {
      TopsUp(was, taken, start, cluster, extras, mates[k]);
    }
  }

  lemma SourcesAscend(source: seq<nat>, nodes: seq<nat>, sources: seq<nat>)
    requires SourcesAre(source, nodes, sources)
    ensures forall i, j :: 0 <= i < j < |sources| ==> sources[i] < sources[j]
  {
  }

  lemma NoSourceYet(community: seq<nat>, source: seq<nat>, taken: seq<bool>, c: nat, sources: seq<nat>, n: nat)
    ensures FirstOf(source, OpenInAny(community, source, taken, c, sources[..0]), n, {})
  {
    assert OpenInAny(community, source, taken, c, sources[..0]) == {};
  }

  lemma AnySplit(community: seq<nat>, source: seq<nat>, was: seq<bool>, c: nat, sources: seq<nat>, k: nat)
    requires |community| == |source| == |was| && k <= |sources|
    requires forall i, j :: 0 <= i < j < |sources| ==> sources[i] < sources[j]
    ensures var one := OpenInAny(community, source, was, c, sources[..k]);
      var two := OpenInAny(community, source, was, c, sources[k..]);
      && OpenInAny(community, source, was, c, sources) == one + two && one !! two && AllBefore(source, one, two)
      && forall u :: u in two ==> u < |source|
  {
    assert sources == sources[..k] + sources[k..];
  }

  /** Filling up from the next source Cell goes on with what is first of all of them. */
  lemma NextSource(community: seq<nat>, source: seq<nat>, was: seq<bool>, taken: seq<bool>, c: nat, start: seq<nat>,
                   sources: seq<nat>, k: nat, before: seq<nat>, after: seq<nat>, target: nat)
    requires |community| == |source| == |was| == |taken| && k < |sources|
    requires forall i, j :: 0 <= i < j < |sources| ==> sources[i] < sources[j]
    requires start <= before <= after && NoDup(before) && |before| <= target
    requires forall i :: 0 <= i < |taken| ==> taken[i] == (was[i] || i in before)
    requires forall x :: x in start ==> x < |was| && was[x]
    requires FirstOf(source, OpenInAny(community, source, was, c, sources[..k]), target - |start|, ToSet(before[|start|..]))
    requires FirstOf(source, OpenIn(community, source, taken, c, sources[k]), target - |before|, ToSet(after[|before|..]))
    ensures FirstOf(source, OpenInAny(community, source, was, c, sources[..k + 1]), target - |start|, ToSet(after[|start|..]))
  {
    hide FirstOf, Open, AllBefore, NoDup, ToSet;
    var one, two := OpenInAny(community, source, was, c, sources[..k]), OpenIn(community, source, taken, c, sources[k]);
    var a, b := ToSet(before[|start|..]), ToSet(after[|before|..]);
    Beyond(start, before);
    FirstOfWithin(source, one, target - |start|, a);
    SourceApart(community, source, was, taken, c, start, sources, k, before);
    Stretch(start, before, after);
    JoinAs(source, one, a, two, b, target - |start|, target - |before|, OpenInAny(community, source, was, c, sources[..k + 1]),
           ToSet(after[|start|..]));
  }

  lemma JoinAs(source: seq<nat>, one: set<nat>, a: set<nat>, two: set<nat>, b: set<nat>, n: nat, m: nat,
               all: set<nat>, whole: set<nat>)
    requires FirstOf(source, one, n, a) && FirstOf(source, two, m, b) && one !! two && AllBefore(source, one, two)
    requires m == n - |a| && all == one + two && whole == a + b
    ensures FirstOf(source, all, n, whole)
  {
    hide FirstOf;
    FirstOfJoin(source, one, a, two, b, n);
  }

  lemma FirstOfWithin(source: seq<nat>, eligible: set<nat>, n: nat, chosen: set<nat>)
    requires FirstOf(source, eligible, n, chosen)
    ensures chosen <= eligible
  {
  }

  lemma Beyond(start: seq<nat>, before: seq<nat>)
    requires start <= before && NoDup(before)
    ensures |ToSet(before[|start|..])| == |before| - |start|
  {
    NoDupCardinality(before[|start|..]);
  }

  lemma Stretch(start: seq<nat>, before: seq<nat>, after: seq<nat>)
    requires start <= before <= after
    ensures ToSet(after[|start|..]) == ToSet(before[|start|..]) + ToSet(after[|before|..])
  {
    assert after[|start|..] == before[|start|..] + after[|before|..];
  }

  lemma SourceApart(community: seq<nat>, source: seq<nat>, was: seq<bool>, taken: seq<bool>, c: nat, start: seq<nat>,
                    sources: seq<nat>, k: nat, before: seq<nat>)
    requires |community| == |source| == |was| == |taken| && k < |sources| && start <= before
    requires forall i, j :: 0 <= i < j < |sources| ==> sources[i] < sources[j]
    requires forall i :: 0 <= i < |taken| ==> taken[i] == (was[i] || i in before)
    requires forall x :: x in start ==> x < |was| && was[x]
    requires ToSet(before[|start|..]) <= OpenInAny(community, source, was, c, sources[..k])
    ensures var one, two := OpenInAny(community, source, was, c, sources[..k]), OpenIn(community, source, taken, c, sources[k]);
      OpenInAny(community, source, was, c, sources[..k + 1]) == one + two && one !! two && AllBefore(source, one, two)
  {
    StillOpen(community, source, was, taken, c, start, sources, k, before);
    var next := sources[..k + 1];
    assert next[..k] == sources[..k] && next[k..] == [sources[k]];
    AnySplit(community, source, was, c, next, k);
  }

  lemma StillOpen(community: seq<nat>, source: seq<nat>, was: seq<bool>, taken: seq<bool>, c: nat, start: seq<nat>,
                  sources: seq<nat>, k: nat, before: seq<nat>)
    requires |community| == |source| == |was| == |taken| && k < |sources| && start <= before
    requires forall i, j :: 0 <= i < j < |sources| ==> sources[i] < sources[j]
    requires forall i :: 0 <= i < |taken| ==> taken[i] == (was[i] || i in before)
    requires forall x :: x in start ==> x < |was| && was[x]
    requires ToSet(before[|start|..]) <= OpenInAny(community, source, was, c, sources[..k])
    ensures OpenIn(community, source, taken, c, sources[k]) == OpenInAny(community, source, was, c, [sources[k]])
  {
    assert before == start + before[|start|..];
    forall x | x in OpenInAny(community, source, was, c, sources[..k]) ensures source[x] < sources[k] {
      var i :| 0 <= i < k && sources[..k][i] == source[x];
    }
    assert forall x :: x in before ==> x in start || x in ToSet(before[|start|..]);
  }

  lemma FullIsDone(community: seq<nat>, source: seq<nat>, was: seq<bool>, c: nat, start: seq<nat>, sources: seq<nat>,
                   k: nat, cluster: seq<nat>, target: nat)
    requires |community| == |source| == |was| && k <= |sources| && start <= cluster && NoDup(cluster) && |cluster| == target
    requires forall i, j :: 0 <= i < j < |sources| ==> sources[i] < sources[j]
    requires FirstOf(source, OpenInAny(community, source, was, c, sources[..k]), target - |start|, ToSet(cluster[|start|..]))
    ensures FirstOf(source, OpenInAny(community, source, was, c, sources), target - |start|, ToSet(cluster[|start|..]))
  {
    hide FirstOf, Open, NoDup, AllBefore;
    var two := OpenInAny(community, source, was, c, sources[k..]);
    var a := ToSet(cluster[|start|..]);
    Beyond(start, cluster);
    AnySplit(community, source, was, c, sources, k);
    FirstOfStop(source, OpenInAny(community, source, was, c, sources[..k]), a, two, target - |start|);
  }

  lemma AllSources(community: seq<nat>, source: seq<nat>, was: seq<bool>, c: nat, start: seq<nat>, sources: seq<nat>)
    requires |community| == |source| == |was| && SourcesAre(source, start, sources)
    requires forall x :: x in start ==> x < |was| && was[x]
    ensures OpenInAny(community, source, was, c, sources) == Sharers(community, source, was, c, start)
  {
  }

  // ---------- Where Cells come from ----------

  ghost predicate InEarlier(cells: seq<seq<nat>>, k: nat, i: nat)
    requires k <= |cells|
  {
    exists l :: 0 <= l < k && i in cells[l]
  }

  /** `was` marks the nodes of the first `k` Cells. */
  ghost predicate Earlier(cells: seq<seq<nat>>, k: nat, was: seq<bool>) {
    k <= |cells| && forall i :: 0 <= i < |was| ==> (was[i] <==> InEarlier(cells, k, i))
  }

  function SeedKey(adjacency: map<nat, seq<Edge>>, frequency: map<nat, int>, u: nat): Key {
    Key(-Strength(EdgesOf(adjacency, u)), -Frequency(frequency, u), u)
  }

  ghost predicate SeedOrder(adjacency: map<nat, seq<Edge>>, frequency: map<nat, int>, seeds: seq<nat>) {
    forall i, j :: 0 <= i < j < |seeds| && seeds[i] != seeds[j] ==>
      Below(SeedKey(adjacency, frequency, seeds[i]), SeedKey(adjacency, frequency, seeds[j]))
  }

  lemma SortedSeeds(adjacency: map<nat, seq<Edge>>, frequency: map<nat, int>, nodes: seq<nat>)
    ensures SeedOrder(adjacency, frequency, Nodes(Sorted(SeedKeys(adjacency, frequency, nodes))))
  {
    hide Below, Sorted, Nodes, Strength;
    var keys := SeedKeys(adjacency, frequency, nodes);
    var s := Sorted(keys);
    SortedAscends(keys);
    forall i | 0 <= i < |s| ensures s[i] == SeedKey(adjacency, frequency, s[i].node) {
      assert s[i] in multiset(s);
      assert s[i] in keys;
    }
  }

  /** The strongest traced node of the Community that was free. */
  ghost predicate BestSeed(community: seq<nat>, was: seq<bool>, adjacency: map<nat, seq<Edge>>,
                           frequency: map<nat, int>, c: nat, x: nat) {
    && Open(community, was, c, x) && x in adjacency
    && forall u: nat :: Open(community, was, c, u) && u in adjacency && u != x ==>
         Below(SeedKey(adjacency, frequency, x), SeedKey(adjacency, frequency, u))
  }

  lemma FirstFreeIsBest(community: seq<nat>, was: seq<bool>, adjacency: map<nat, seq<Edge>>,
                        frequency: map<nat, int>, c: nat, seeds: seq<nat>, k: nat)
    requires |was| == |community| && SeedOrder(adjacency, frequency, seeds)
    requires forall u :: u in seeds <==> 0 <= u < |community| && community[u] == c && u in adjacency
    requires k < |seeds| && seeds[k] in seeds && !was[seeds[k]]
    requires forall q :: 0 <= q < k ==> seeds[q] < |was| && was[seeds[q]]
    ensures BestSeed(community, was, adjacency, frequency, c, seeds[k])
  {
    hide Below, SeedKey;
    forall u: nat | Open(community, was, c, u) && u in adjacency && u != seeds[k]
      ensures Below(SeedKey(adjacency, frequency, seeds[k]), SeedKey(adjacency, frequency, u))
    {
      assert u in seeds;
      var q :| 0 <= q < |seeds| && seeds[q] == u;
    }
  }

  /** `x` shares its source Cell with a node of `core`. */
  ghost predicate SharesSource(source: seq<nat>, core: seq<nat>, x: nat) {
    x < |source| && exists k :: 0 <= k < |core| && core[k] < |source| && source[core[k]] == source[x]
  }

  /** The source Cells of the nodes, in increasing order. */
  ghost predicate SourcesAre(source: seq<nat>, nodes: seq<nat>, sources: seq<nat>) {
    && (forall k :: 0 <= k < |nodes| ==> nodes[k] < |source| && source[nodes[k]] in sources)
    && (forall s :: s in sources ==> exists k :: 0 <= k < |nodes| && nodes[k] < |source| && source[nodes[k]] == s)
    && (forall i, j :: 0 <= i < j < |sources| ==> sources[i] < sources[j])
  }

  lemma SourcesInclude(source: seq<nat>, nodes: seq<nat>, sources: seq<nat>)
    requires SourcesAre(source, nodes, sources)
    ensures forall k :: 0 <= k < |nodes| ==> nodes[k] < |source| && source[nodes[k]] in sources
  {
  }

  /**
    The Cell was grown: its core starts at the strongest free traced node of the Community and
    grows greedily; a core short of the target had no free neighbour left; then the Cell was filled
    up from the source Cells of the core.
   */
  ghost predicate GrownFrom(community: seq<nat>, source: seq<nat>, was: seq<bool>, adjacency: map<nat, seq<Edge>>,
                            frequency: map<nat, int>, target: int, c: nat, core: seq<nat>, cell: seq<nat>) {
    && 0 < |core| <= target && BestSeed(community, was, adjacency, frequency, c, core[0])
    && Greedy(community, was, adjacency, frequency, core, c)
    && (|core| < target ==> forall u: nat :: !Candidate(community, was, adjacency, core, c, u))
    && (forall k :: 0 <= k < |core| ==> core[k] in cell)
    && FirstOf(source, Sharers(community, source, was, c, core), target - |core|, ToSet(cell) - ToSet(core))
  }

  lemma GrownCell(community: seq<nat>, source: seq<nat>, was: seq<bool>, taken: seq<bool>,
                  adjacency: map<nat, seq<Edge>>, frequency: map<nat, int>, target: int, c: nat, core: seq<nat>,
                  cluster: seq<nat>, cell: seq<nat>)
    requires 0 < |core| <= target && BestSeed(community, was, adjacency, frequency, c, core[0])
    requires Greedy(community, was, adjacency, frequency, core, c)
    requires |core| < target ==> forall u: nat :: !Candidate(community, was, adjacency, core, c, u)
    requires |was| == |taken| && forall i :: 0 <= i < |taken| ==> taken[i] == (was[i] || i in core)
    requires core <= cluster && NoDup(cluster) && Arranges(frequency, cluster, cell)
    requires FirstOf(source, Sharers(community, source, taken, c, core), target - |core|, ToSet(cluster[|core|..]))
    ensures GrownFrom(community, source, was, adjacency, frequency, target, c, core, cell)
  {
    hide BestSeed, Greedy, Candidate, SharesSource, Before, FirstOf;
    forall k | 0 <= k < |core| ensures core[k] in cell {
      assert cluster[k] == core[k];
    }
    assert cluster == core + cluster[|core|..];
    assert ToSet(cell) - ToSet(core) == ToSet(cluster[|core|..]);
    assert Sharers(community, source, was, c, core) == Sharers(community, source, taken, c, core);
  }

  /** The Community has a free traced node. */
  ghost predicate TracedLeft(community: seq<nat>, was: seq<bool>, adjacency: map<nat, seq<Edge>>, c: nat) {
    exists u: nat :: Open(community, was, c, u) && u in adjacency
  }

  /**
    The Cell is what comes next for the Community when the nodes in `was` are taken: a grown Cell as
    long as it has free traced nodes, after that its first free nodes in the order of source Cell and id.
   */
  ghost predicate ComesNext(community: seq<nat>, source: seq<nat>, was: seq<bool>, adjacency: map<nat, seq<Edge>>,
                            frequency: map<nat, int>, target: nat, c: nat, cell: seq<nat>) {
    if TracedLeft(community, was, adjacency, c) then
      exists core :: GrownFrom(community, source, was, adjacency, frequency, target, c, core, cell)
    else FirstOf(source, OpenNodes(community, was, c), target, ToSet(cell))
  }

  /** Cell `k` came next when the nodes of the earlier Cells were taken. */
  ghost predicate Origin(community: seq<nat>, source: seq<nat>, adjacency: map<nat, seq<Edge>>,
                         frequency: map<nat, int>, target: nat, cells: seq<seq<nat>>, k: nat, c: nat)
    requires k < |cells|
  {
    exists was :: |was| == |community| && Earlier(cells, k, was)
      && ComesNext(community, source, was, adjacency, frequency, target, c, cells[k])
  }

  ghost predicate Origins(community: seq<nat>, source: seq<nat>, adjacency: map<nat, seq<Edge>>,
                          frequency: map<nat, int>, target: nat, cells: seq<seq<nat>>, owner: seq<nat>) {
    && |owner| == |cells|
    && forall k :: 0 <= k < |cells| ==> Origin(community, source, adjacency, frequency, target, cells, k, owner[k])
  }

  lemma NoOrigins(community: seq<nat>, source: seq<nat>, adjacency: map<nat, seq<Edge>>, frequency: map<nat, int>,
                  target: nat)
    ensures Origins(community, source, adjacency, frequency, target, [], [])
  {
  }

  lemma EarlierStays(cells: seq<seq<nat>>, cell: seq<nat>, k: nat, was: seq<bool>)
    requires k <= |cells|
    ensures Earlier(cells + [cell], k, was) == Earlier(cells, k, was)
  {
    var more := cells + [cell];
    forall i: nat ensures InEarlier(more, k, i) == InEarlier(cells, k, i) {
      if l :| 0 <= l < k && i in cells[l] {
        assert i in more[l];
      }
      if l :| 0 <= l < k && i in more[l] {
        assert i in cells[l];
      }
    }
  }

  lemma OriginStays(community: seq<nat>, source: seq<nat>, adjacency: map<nat, seq<Edge>>, frequency: map<nat, int>,
                    target: nat, cells: seq<seq<nat>>, cell: seq<nat>, k: nat, c: nat)
    requires k < |cells| && Origin(community, source, adjacency, frequency, target, cells, k, c)
    ensures Origin(community, source, adjacency, frequency, target, cells + [cell], k, c)
  {
    hide ComesNext, Earlier;
    assert (cells + [cell])[k] == cells[k];
    var was :| |was| == |community| && Earlier(cells, k, was)
      && ComesNext(community, source, was, adjacency, frequency, target, c, cells[k]);
    EarlierStays(cells, cell, k, was);
  }

  lemma AllOriginsStay(community: seq<nat>, source: seq<nat>, adjacency: map<nat, seq<Edge>>,
                       frequency: map<nat, int>, target: nat, cells: seq<seq<nat>>, owner: seq<nat>, cell: seq<nat>, c: nat)
    requires Origins(community, source, adjacency, frequency, target, cells, owner)
    requires Origin(community, source, adjacency, frequency, target, cells + [cell], |cells|, c)
    ensures Origins(community, source, adjacency, frequency, target, cells + [cell], owner + [c])
  {
    hide Origin;
    forall k | 0 <= k < |cells|
      ensures Origin(community, source, adjacency, frequency, target, cells + [cell], k, owner[k])
    {
      OriginStays(community, source, adjacency, frequency, target, cells, cell, k, owner[k]);
    }
  }

  lemma OriginsGrow(community: seq<nat>, source: seq<nat>, adjacency: map<nat, seq<Edge>>, frequency: map<nat, int>,
                    target: nat, cells: seq<seq<nat>>, owner: seq<nat>, cell: seq<nat>, c: nat, was: seq<bool>)
    requires Origins(community, source, adjacency, frequency, target, cells, owner)
    requires |was| == |community| && Earlier(cells, |cells|, was)
    requires ComesNext(community, source, was, adjacency, frequency, target, c, cell)
    ensures Origins(community, source, adjacency, frequency, target, cells + [cell], owner + [c])
  {
    hide ComesNext, Earlier, Origins;
    EarlierStays(cells, cell, |cells|, was);
    assert (cells + [cell])[|cells|] == cell;
    AllOriginsStay(community, source, adjacency, frequency, target, cells, owner, cell, c);
  }

  lemma GrownComesNext(community: seq<nat>, source: seq<nat>, was: seq<bool>, adjacency: map<nat, seq<Edge>>,
                       frequency: map<nat, int>, target: nat, c: nat, core: seq<nat>, cell: seq<nat>)
    requires GrownFrom(community, source, was, adjacency, frequency, target, c, core, cell)
    ensures ComesNext(community, source, was, adjacency, frequency, target, c, cell)
  {
    hide Greedy, Candidate, FirstOf;
  }

  lemma PackedComesNext(community: seq<nat>, source: seq<nat>, was: seq<bool>, adjacency: map<nat, seq<Edge>>,
                        frequency: map<nat, int>, target: nat, c: nat, nodes: seq<nat>, cell: seq<nat>)
    requires FirstOf(source, OpenNodes(community, was, c), target, ToSet(nodes)) && Arranges(frequency, nodes, cell)
    requires forall i :: 0 <= i < |community| && community[i] == c && i in adjacency ==> i < |was| && was[i]
    ensures ComesNext(community, source, was, adjacency, frequency, target, c, cell)
  {
    hide Before, FirstOf;
    assert ToSet(cell) == ToSet(nodes);
  }

  /** When only published nodes are taken, they are the nodes of the Cells. */
  lemma SettledIs(cells: seq<seq<nat>>, ids: seq<int>, orders: seq<int>, taken: seq<bool>)
    requires Published(cells, ids, orders) && |taken| == |ids|
    requires forall i :: 0 <= i < |ids| ==> (taken[i] <==> ids[i] != -1)
    ensures Earlier(cells, |cells|, taken)
  {
    forall i | 0 <= i < |taken| ensures taken[i] <==> InEarlier(cells, |cells|, i) {
      assert Placed(cells, ids, orders, i);
      if l :| 0 <= l < |cells| && i in cells[l] {
        var r :| 0 <= r < |cells[l]| && cells[l][r] == i;
        assert Filled(cells, ids, orders, l, r);
      }
    }
  }

  lemma FreeAreUnplaced(ids: seq<int>, taken: seq<bool>, nodes: seq<nat>)
    requires |ids| == |taken| && forall i :: 0 <= i < |ids| && ids[i] != -1 ==> taken[i]
    requires forall k :: 0 <= k < |nodes| ==> nodes[k] < |taken| && !taken[nodes[k]]
    ensures forall k :: 0 <= k < |nodes| ==> ids[nodes[k]] == -1
  {
  }

  /** Every neighbour id is the id of a node. */
  ghost predicate EdgesInRange(adjacency: map<nat, seq<Edge>>, n: nat) {
    forall u, k :: u in adjacency && 0 <= k < |adjacency[u]| ==> adjacency[u][k].node < n
  }

  /** No waiting node comes before the chosen one. */
  ghost predicate Best(affinity: map<nat, int>, frequency: map<nat, int>, x: nat) {
    && x in affinity
    && forall u :: u in affinity && u != x ==> Below(Rank(affinity, frequency, x), Rank(affinity, frequency, u))
  }

  function Rank(affinity: map<nat, int>, frequency: map<nat, int>, u: nat): Key
    requires u in affinity
  {
    Key(-affinity[u], -Frequency(frequency, u), u)
  }

  method PickBest(affinity: map<nat, int>, frequency: map<nat, int>) returns (x: nat)
    requires |affinity| > 0
    ensures Best(affinity, frequency, x)
  {
    var rest := affinity.Keys;
    x :| x in rest;
    rest := rest - {x};
    while rest != {}
      invariant x in affinity && x !in rest && rest <= affinity.Keys
      invariant forall u :: u in affinity && u !in rest && u != x ==>
        Below(Rank(affinity, frequency, x), Rank(affinity, frequency, u))
      decreases rest
    {
      var u :| u in rest;
      rest := rest - {u};
      if Below(Rank(affinity, frequency, u), Rank(affinity, frequency, x)) {
        x := u;
      }
    }
  }

  /** The Cell has the nodes in the order of their frequency. */
  ghost predicate Arranges(frequency: map<nat, int>, nodes: seq<nat>, cell: seq<nat>) {
    && |cell| == |nodes| && NoDup(cell) && (forall x :: x in cell <==> x in nodes)
    && forall i, j :: 0 <= i < j < |cell| ==> Before(frequency, cell[i], cell[j])
  }

  lemma CellFrom(community: seq<nat>, frequency: map<nat, int>, ids: seq<int>, target: int, nodes: seq<nat>,
                 ordered: seq<nat>, c: nat)
    requires 0 < |nodes| <= target && Arranges(frequency, nodes, ordered) && |ids| == |community|
    requires forall r :: 0 <= r < |nodes| ==> nodes[r] < |community| && community[nodes[r]] == c && ids[nodes[r]] == -1
    ensures forall q :: 0 <= q < |ordered| ==> ordered[q] < |community| && ids[ordered[q]] == -1
    ensures GoodCell(community, frequency, target, c, ordered)
  {
    hide Before;
    forall q | 0 <= q < |ordered|
      ensures ordered[q] < |community| && community[ordered[q]] == c && ids[ordered[q]] == -1
    {
      assert ordered[q] in nodes;
    }
    GoodCellFrom(community, frequency, target, c, ordered);
  }

  lemma GoodCellFrom(community: seq<nat>, frequency: map<nat, int>, target: int, c: nat, cell: seq<nat>)
    requires 0 < |cell| <= target && forall i :: 0 <= i < |cell| ==> cell[i] < |community| && community[cell[i]] == c
    requires forall i, j :: 0 <= i < j < |cell| ==> Before(frequency, cell[i], cell[j])
    ensures GoodCell(community, frequency, target, c, cell)
  {
  }

  lemma GoodCellsGrow(community: seq<nat>, frequency: map<nat, int>, target: int, cells: seq<seq<nat>>, owner: seq<nat>,
                      c: nat, cell: seq<nat>)
    requires GoodCells(community, frequency, target, cells, owner)
    requires GoodCell(community, frequency, target, c, cell)
    requires |owner| > 0 ==> owner[|owner| - 1] <= c
    ensures GoodCells(community, frequency, target, cells + [cell], owner + [c])
  {
    hide GoodCell;
  }

  /** Sorting the nodes of a Cell keeps them and puts them in order. */
  lemma OrderedNodes(frequency: map<nat, int>, nodes: seq<nat>, ordered: seq<nat>)
    requires NoDup(nodes)
    requires ordered == Nodes(Sorted(CellKeys(frequency, nodes)))
    ensures Arranges(frequency, nodes, ordered)
  {
    hide Below, Sorted, Nodes;
    var keys := CellKeys(frequency, nodes);
    var s := Sorted(keys);
    SortedAscends(keys);
    SortedNodes(keys);
    forall i | 0 <= i < |s| ensures s[i] == Key(-Frequency(frequency, s[i].node), 0, s[i].node) {
      assert s[i] in multiset(s);
      assert s[i] in keys;
    }
    NoDupCardinality(nodes);
    assert ToSet(ordered) == ToSet(nodes);
    ShortSetRepeatsNothing(ordered);
  }

  // ---------- The operation ----------

  datatype Assignment = Assignment(cellIds: seq<nat>, orders: seq<nat>)

  /** Every node has its one place in a good Cell, and Cells with traced nodes were grown greedily. */
  ghost predicate IsAssignment(community: seq<nat>, source: seq<nat>, adjacency: map<nat, seq<Edge>>,
                               frequency: map<nat, int>, target: nat, a: Assignment) {
    && |a.cellIds| == |a.orders| == |community|
    && exists cells, owner ::
         && AssignmentCodec.Places(a.cellIds, a.orders, cells) && GoodCells(community, frequency, target, cells, owner)
         && Origins(community, source, adjacency, frequency, target, cells, owner)
  }

  lemma PublishedPlaces(cells: seq<seq<nat>>, ids: seq<int>, orders: seq<int>, a: Assignment)
    requires Published(cells, ids, orders) && |a.cellIds| == |a.orders| == |ids|
    requires forall i :: 0 <= i < |ids| ==> a.cellIds[i] == ids[i] && a.orders[i] == orders[i]
    ensures AssignmentCodec.Places(a.cellIds, a.orders, cells)
  {
    forall i | 0 <= i < |ids| ensures AssignmentCodec.HasPlace(a.cellIds, a.orders, cells, i) {
      assert Placed(cells, ids, orders, i);
    }
    forall c, r | 0 <= c < |cells| && 0 <= r < |cells[c]| ensures AssignmentCodec.IsFilled(a.cellIds, a.orders, cells, c, r) {
      assert Filled(cells, ids, orders, c, r);
    }
  }

  lemma AllPlaced(cells: seq<seq<nat>>, ids: seq<int>, orders: seq<int>)
    requires Published(cells, ids, orders) && forall i :: 0 <= i < |ids| ==> ids[i] != -1
    ensures forall i :: 0 <= i < |ids| ==> ids[i] >= 0 && orders[i] >= 0
  {
    forall i | 0 <= i < |ids| ensures ids[i] >= 0 && orders[i] >= 0 {
      assert Placed(cells, ids, orders, i);
    }
  }

  /** An accepted assignment of at least one node is accepted by the regrouping of the other trainer. */
  lemma AssignmentDescribes(community: seq<nat>, source: seq<nat>, adjacency: map<nat, seq<Edge>>,
                            frequency: map<nat, int>, target: nat, a: Assignment)
    requires IsAssignment(community, source, adjacency, frequency, target, a) && |community| > 0
    ensures exists cells: seq<seq<nat>> :: AssignmentCodec.Describes(a.cellIds, a.orders, |cells|, cells)
  {
    hide Origins;
    var cells, owner :|
      && AssignmentCodec.Places(a.cellIds, a.orders, cells) && GoodCells(community, frequency, target, cells, owner)
      && Origins(community, source, adjacency, frequency, target, cells, owner);
    forall c | 0 <= c < |cells| ensures |cells[c]| > 0 {
      assert GoodCell(community, frequency, target, owner[c], cells[c]);
    }
    assert AssignmentCodec.Describes(a.cellIds, a.orders, |cells|, cells);
  }

  /** Within a Cell, orders rank nodes by frequency; nodes of different Communities never share a Cell. */
  lemma OrdersFollowFrequency(community: seq<nat>, source: seq<nat>, adjacency: map<nat, seq<Edge>>,
                              frequency: map<nat, int>, target: nat, a: Assignment, i: nat, j: nat)
    requires IsAssignment(community, source, adjacency, frequency, target, a) && i < |community| && j < |community|
    requires a.cellIds[i] == a.cellIds[j]
    ensures community[i] == community[j]
    ensures a.orders[i] < a.orders[j] <==> Before(frequency, i, j)
    ensures a.orders[i] < target
  {
    hide AssignmentCodec.IsFilled, Origins;
    var cells, owner :|
      && AssignmentCodec.Places(a.cellIds, a.orders, cells) && GoodCells(community, frequency, target, cells, owner)
      && Origins(community, source, adjacency, frequency, target, cells, owner);
    assert AssignmentCodec.HasPlace(a.cellIds, a.orders, cells, i);
    assert AssignmentCodec.HasPlace(a.cellIds, a.orders, cells, j);
    assert GoodCell(community, frequency, target, owner[a.cellIds[i]], cells[a.cellIds[i]]);
  }

  /** The assignment, or an error for bad arguments or for a neighbour id that is no node; no other error occurs. */
  method BuildAssignments(community: seq<nat>, source: seq<nat>, adjacency: map<nat, seq<Edge>>, frequency: map<nat, int>,
                          target: int) returns (r: Result<Assignment, Error>)
    ensures r == Err(ProfileError) <==> |community| != |source| || target <= 0
    ensures EdgesInRange(adjacency, |community|) ==> r != Err(IndexError)
    ensures r.Ok? ==> target > 0 && IsAssignment(community, source, adjacency, frequency, target, r.value)
  {
    hide Published, GoodCells, AssignmentCodec.Places, Origins;
    if |community| != |source| || target <= 0 {
      return Err(ProfileError);
    }
    var builder := new Builder(community, source, adjacency, frequency, target);
    NoOrigins(community, source, adjacency, frequency, target);
    var list := Distinct(community);
    for k := 0 to |list|
      invariant builder.Settled() && fresh(builder) && builder.Traceable()
      invariant builder.community == community && builder.source == source && builder.adjacency == adjacency
      invariant builder.frequency == frequency && builder.target == target
      invariant |builder.owner| > 0 ==> k > 0 && builder.owner[|builder.owner| - 1] <= list[k - 1]
      invariant forall i :: 0 <= i < |community| && community[i] in list[..k] ==> builder.taken[i]
    {
      assert list[..k + 1] == list[..k] + [list[k]];
      assert list[k] !in list[..k];
      var ok := builder.ClusterSeeds(list[k]);
      if !ok {
        return Err(IndexError);
      }
      builder.PackRest(list[k]);
    }
    assert list[..|list|] == list;
    assert forall i :: 0 <= i < |community| ==> community[i] in community;
    var a := Collect(builder.cellIds, builder.orders, builder.cells);
    MakeAssignment(community, source, adjacency, frequency, target, a, builder.cells, builder.owner);
    return Ok(a);
  }

  lemma MakeAssignment(community: seq<nat>, source: seq<nat>, adjacency: map<nat, seq<Edge>>,
                       frequency: map<nat, int>, target: nat, a: Assignment, cells: seq<seq<nat>>, owner: seq<nat>)
    requires |a.cellIds| == |a.orders| == |community| && AssignmentCodec.Places(a.cellIds, a.orders, cells)
    requires GoodCells(community, frequency, target, cells, owner)
    requires Origins(community, source, adjacency, frequency, target, cells, owner)
    ensures IsAssignment(community, source, adjacency, frequency, target, a)
  {
  }

  /** The arrays as they are returned, once no entry is negative. */
  method Collect(ids: seq<int>, orders: seq<int>, ghost cells: seq<seq<nat>>) returns (a: Assignment)
    requires Published(cells, ids, orders) && forall i :: 0 <= i < |ids| ==> ids[i] != -1
    ensures |a.cellIds| == |a.orders| == |ids| && AssignmentCodec.Places(a.cellIds, a.orders, cells)
  {
    AllPlaced(cells, ids, orders);
    a := Assignment(seq(|ids|, i requires 0 <= i < |ids| => ids[i]), seq(|ids|, i requires 0 <= i < |ids| => orders[i]));
    PublishedPlaces(cells, ids, orders, a);
  }
}
