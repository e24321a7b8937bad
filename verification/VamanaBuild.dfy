/**
  Linking in src/vamana.cc: forward links from a search, reverse links with slack, and the
  final pass over lists that are still too long; sequentially and under any interleaving of
  the per-node locked sections.
 */
module VamanaBuild {
  import opened Common
  import opened NeighborQueue
  import opened VamanaSearch
  import opened VamanaPrune

  // ---------- Pools and pruning ----------

  /** Insertion into a pool kept in (distance, id) order. */
  function SortedInsert(q: seq<Neighbor>, x: Neighbor): (r: seq<Neighbor>)
    ensures multiset(r) == multiset(q) + multiset{x}
  {
    if |q| == 0 then [x]
    else if Less(q[|q| - 1], x) then q + [x]
    else
      assert q == q[..|q| - 1] + [q[|q| - 1]];
      SortedInsert(q[..|q| - 1], x) + [q[|q| - 1]]
  }

  function SortPool(pool: seq<Neighbor>): (r: seq<Neighbor>)
    ensures multiset(r) == multiset(pool)
  {
    if |pool| == 0 then []
    else
      assert pool == pool[..|pool| - 1] + [pool[|pool| - 1]];
      SortedInsert(SortPool(pool[..|pool| - 1]), pool[|pool| - 1])
  }

  lemma {:induction false} SortedInsertOrders(q: seq<Neighbor>, x: Neighbor)
    requires NonDecreasing(q)
    ensures NonDecreasing(SortedInsert(q, x))
  {
    var n := |q| - 1;
    if |q| > 0 && !Less(q[n], x) {
      var r := SortedInsert(q[..n], x);
      SortedInsertOrders(q[..n], x);
      forall i | 0 <= i < |r| ensures !Less(q[n], r[i]) {
        assert r[i] in multiset(r);
        assert r[i] == x || r[i] in q[..n];
      }
    }
  }

  lemma {:induction false} SortPoolOrders(pool: seq<Neighbor>)
    ensures NonDecreasing(SortPool(pool))
  {
    if |pool| > 0 {
      SortPoolOrders(pool[..|pool| - 1]);
      SortedInsertOrders(SortPool(pool[..|pool| - 1]), pool[|pool| - 1]);
    }
  }

  /** A list a node may be given: distinct nodes, not the node itself, at most `limit` of them. */
  ghost predicate LinkList(list: seq<int>, node: int, n: nat, limit: nat) {
    && NoDup(list) && |list| <= limit
    && forall i :: 0 <= i < |list| ==> 0 <= list[i] < n && list[i] != node
  }

  lemma {:induction false} ChosenIdsDistinct(pool: seq<Neighbor>, node: int, chosen: seq<int>)
    requires ValidChoice(pool, chosen) && DistinctIds(pool)
    ensures var r := ChosenIds(pool, node, chosen);
      && NoDup(r)
      && forall v :: v in r <==> v != node && exists k :: 0 <= k < |chosen| && pool[chosen[k]].id == v
  {
    if |chosen| > 0 {
      var n := |chosen| - 1;
      var less := chosen[..n];
      ChosenIdsDistinct(pool, node, less);
      var rest, id := ChosenIds(pool, node, less), pool[chosen[n]].id;
      forall k | 0 <= k < |less| ensures pool[less[k]].id != id {
        assert less[k] == chosen[k] != chosen[n];
      }
      assert id !in rest;
      forall v | v in rest ensures exists k :: 0 <= k < |chosen| && pool[chosen[k]].id == v {
        var k :| 0 <= k < |less| && pool[less[k]].id == v;
        assert pool[chosen[k]].id == v;
      }
      forall k | 0 <= k < |chosen| && pool[chosen[k]].id != node ensures pool[chosen[k]].id in ChosenIds(pool, node, chosen) {
        if k < n {
          assert pool[less[k]].id in rest;
        }
      }
    }
  }

  lemma SameIds(r: seq<Neighbor>, pool: seq<Neighbor>)
    requires multiset(r) == multiset(pool)
    ensures |r| == |pool| && ToSet(Ids(r)) <= ToSet(Ids(pool))
  {
    assert |r| == |multiset(r)| == |multiset(pool)| == |pool|;
    forall v | v in ToSet(Ids(r)) ensures v in ToSet(Ids(pool)) {
      var i :| 0 <= i < |r| && Ids(r)[i] == v;
      assert r[i] in multiset(r);
      assert r[i] in pool;
      var j :| 0 <= j < |pool| && pool[j] == r[i];
      assert Ids(pool)[j] == v;
    }
  }

  lemma SortKeepsPool(pool: seq<Neighbor>)
    requires DistinctIds(pool)
    ensures DistinctIds(SortPool(pool)) && |SortPool(pool)| == |pool|
    ensures ToSet(Ids(SortPool(pool))) == ToSet(Ids(pool))
  {
    var r := SortPool(pool);
    SameIds(r, pool);
    SameIds(pool, r);
    SameSizeDistinct(Ids(r), Ids(pool));
    forall i, j | 0 <= i < j < |r| ensures r[i].id != r[j].id {
      assert Ids(r)[i] != Ids(r)[j];
    }
  }

  lemma SameSizeDistinct(s: seq<int>, t: seq<int>)
    requires |s| == |t| && ToSet(s) == ToSet(t) && NoDup(t)
    ensures NoDup(s)
  {
    NoDupCardinality(t);
    ShortSetRepeatsNothing(s);
  }

  /** What pruning a pool may answer: at most `limit` distinct members, never the node. */
  ghost predicate PruneAnswer(pool: seq<Neighbor>, node: int, limit: nat, result: seq<int>) {
    && NoDup(result) && |result| <= limit
    && forall i :: 0 <= i < |result| ==> result[i] != node && result[i] in Ids(pool)
  }

  /** RobustPrune's answer on the first `maxCandidates` of the sorted pool. */
  ghost predicate RobustPruned(candidates: seq<Neighbor>, metric: Metric, node: int, limit: nat, maxCandidates: nat,
                               alpha: real, result: seq<int>)
  {
    exists chosen :: RobustChoice(Take(SortPool(candidates), maxCandidates), metric, node, limit, alpha, result, chosen)
  }

  /** The nearest candidate is always linked. */
  lemma NearestIsChosen(candidates: seq<Neighbor>, metric: Metric, node: int, limit: nat, maxCandidates: nat,
                        alpha: real, result: seq<int>, p: Neighbor)
    requires RobustPruned(candidates, metric, node, limit, maxCandidates, alpha, result)
    requires alpha >= 1.0 && limit > 0 && maxCandidates > 0 && DistinctIds(candidates)
    requires p in candidates && p.id != node && forall x :: x in candidates && x != p ==> Less(p, x)
    ensures p.id in result
  {
    hide Diverse, Covered, LastFactor, SortPool;
    var sorted := SortPool(candidates);
    var pool := Take(sorted, maxCandidates);
    var chosen :| RobustChoice(pool, metric, node, limit, alpha, result, chosen);
    SortKeepsPool(candidates);
    assert p in multiset(sorted);
    SortPoolOrders(candidates);
    assert sorted[0] in multiset(sorted);
    assert sorted[0] == p;
    ChosenIdsDistinct(pool, node, chosen);
    var k :| 0 <= k < |chosen| && chosen[k] == 0;
    assert pool[chosen[k]].id == p.id;
  }

  method Prune(node: int, candidates: seq<Neighbor>, metric: Metric, maxDegree: nat, maxCandidates: nat, alpha: real)
    returns (result: seq<int>)
    requires NonNegative(metric) && DistinctIds(candidates)
    ensures PruneAnswer(candidates, node, maxDegree, result)
    ensures RobustPruned(candidates, metric, node, maxDegree, maxCandidates, alpha, result)
  {
    hide Diverse, Covered, LastFactor, SortPool, NonDecreasing, DueInTurn, Exhausted;
    if |candidates| == 0 {
      EmptyPrune(candidates, metric, node, maxDegree, maxCandidates, alpha);
      return [];
    }
    var pool := SortPool(candidates);
    SortKeepsPool(candidates);
    SortPoolOrders(candidates);
    ghost var chosen;
    result, chosen := OccludeList(node, pool, metric, maxDegree, maxCandidates, alpha);
    assert RobustChoice(Take(SortPool(candidates), maxCandidates), metric, node, maxDegree, alpha, result, chosen);
    ChosenIdsDistinct(Take(pool, maxCandidates), node, chosen);
    forall i | 0 <= i < |result| ensures result[i] != node && result[i] in Ids(candidates) {
      assert result[i] in result;
      var k :| 0 <= k < |chosen| && Take(pool, maxCandidates)[chosen[k]].id == result[i];
      assert Ids(pool)[chosen[k]] == result[i];
      assert result[i] in ToSet(Ids(pool));
    }
  }

  lemma EmptyPrune(candidates: seq<Neighbor>, metric: Metric, node: int, limit: nat, maxCandidates: nat, alpha: real)
    requires |candidates| == 0
    ensures RobustPruned(candidates, metric, node, limit, maxCandidates, alpha, [])
  {
    hide LastFactor;
    assert RobustChoice(Take(SortPool(candidates), maxCandidates), metric, node, limit, alpha, [], []);
  }

  /** `pool` has every other node of the list once, with its distance. */
  ghost predicate PoolFor(node: int, neighbors: seq<int>, metric: Metric, pool: seq<Neighbor>) {
    && DistinctIds(pool) && (forall v :: v in Ids(pool) <==> v in neighbors && v != node)
    && forall i :: 0 <= i < |pool| ==> pool[i].dist == metric(node, pool[i].id) && !pool[i].expanded
  }

  /** What offering `node` does to the list of `v`: nothing, an append within the slack, or a re-pruning. */
  ghost predicate Offered(metric: Metric, maxDegree: nat, maxCandidates: nat, alpha: real, v: int, node: int,
                          before: seq<int>, after: seq<int>)
  {
    if node in before then after == before
    else if |before| < Slack(maxDegree) then after == before + [node]
    else Repruned(metric, maxDegree, maxCandidates, alpha, v, before + [node], after)
  }

  /** The list is the pruning of the other nodes of `before`. */
  ghost predicate Repruned(metric: Metric, maxDegree: nat, maxCandidates: nat, alpha: real, v: int,
                           before: seq<int>, after: seq<int>)
  {
    exists pool: seq<Neighbor> ::
      && PoolFor(v, before, metric, pool)
      && RobustPruned(pool, metric, v, maxDegree, maxCandidates, alpha, after)
  }

  /** Candidates for re-pruning `node`: its listed neighbours once each, with their distances. */
  method MakePool(node: int, neighbors: seq<int>, metric: Metric) returns (pool: seq<Neighbor>)
    ensures PoolFor(node, neighbors, metric, pool)
  {
    pool := [];
    var seen: set<int> := {};
    for k := 0 to |neighbors|
      invariant DistinctIds(pool)
      invariant forall v :: v in seen <==> v in Ids(pool)
      invariant forall v :: v in Ids(pool) <==> v in neighbors[..k] && v != node
      invariant forall i :: 0 <= i < |pool| ==> pool[i].dist == metric(node, pool[i].id) && !pool[i].expanded
    {
      var v := neighbors[k];
      assert neighbors[..k + 1] == neighbors[..k] + [v];
      if v != node && v !in seen {
        forall i | 0 <= i < |pool| ensures pool[i].id != v {
          assert Ids(pool)[i] in Ids(pool);
        }
        assert Ids(pool + [Neighbor(v, metric(node, v), false)]) == Ids(pool) + [v];
        seen := seen + {v};
        pool := pool + [Neighbor(v, metric(node, v), false)];
      }
    }
    assert neighbors[..|neighbors|] == neighbors;
  }

  // ---------- The locked sections ----------

  /** floor(1.3 * R), the length at which a reverse link triggers re-pruning. */
  function Slack(maxDegree: nat): (s: nat)
    ensures s >= maxDegree && 10 * s <= 13 * maxDegree < 10 * (s + 1)
  {
    13 * maxDegree / 10
  }

  /** Between builds every list is a link list within the slack. */
  ghost predicate GoodGraph(adj: seq<seq<int>>, limit: nat) {
    forall v :: 0 <= v < |adj| ==> LinkList(adj[v], v, |adj|, limit)
  }

  lemma GoodIsValid(adj: seq<seq<int>>, limit: nat)
    requires GoodGraph(adj, limit)
    ensures ValidGraph(adj)
  {
    forall v, i | 0 <= v < |adj| && 0 <= i < |adj[v]| ensures 0 <= adj[v][i] < |adj| {
      assert LinkList(adj[v], v, |adj|, limit);
    }
  }

  /** The section that offers `node` to `neighbor`: the new graph, and a copy when re-pruning is needed. */
  function Offer(adj: seq<seq<int>>, neighbor: nat, node: nat, maxDegree: nat): (seq<seq<int>>, Option<seq<int>>)
    requires neighbor < |adj|
  {
    if node in adj[neighbor] then (adj, None)
    else if |adj[neighbor]| < Slack(maxDegree) then (adj[neighbor := adj[neighbor] + [node]], None)
    else (adj, Some(adj[neighbor] + [node]))
  }

  lemma SetListKeepsGood(adj: seq<seq<int>>, v: nat, list: seq<int>, limit: nat)
    requires GoodGraph(adj, limit) && v < |adj| && LinkList(list, v, |adj|, limit)
    ensures GoodGraph(adj[v := list], limit)
  {
  }

  lemma OfferKeepsGood(adj: seq<seq<int>>, neighbor: nat, node: nat, maxDegree: nat)
    requires GoodGraph(adj, Slack(maxDegree)) && neighbor < |adj| && node < |adj| && node != neighbor
    ensures var (after, copy) := Offer(adj, neighbor, node, maxDegree);
      && GoodGraph(after, Slack(maxDegree)) && |after| == |adj|
      && (copy.None? ==> node in after[neighbor])
      && (copy.Some? ==> forall i :: 0 <= i < |copy.value| ==> 0 <= copy.value[i] < |adj|)
  {
    assert LinkList(adj[neighbor], neighbor, |adj|, Slack(maxDegree));
    var list := adj[neighbor] + [node];
    if node !in adj[neighbor] && |adj[neighbor]| < Slack(maxDegree) {
      assert LinkList(list, neighbor, |adj|, Slack(maxDegree));
      SetListKeepsGood(adj, neighbor, list, Slack(maxDegree));
    }
    assert list[|adj[neighbor]|] == node;
  }

  lemma PrunedIsLinkList(pool: seq<Neighbor>, node: int, limit: nat, result: seq<int>, n: nat)
    requires PruneAnswer(pool, node, limit, result) && forall v :: v in Ids(pool) ==> 0 <= v < n
    ensures LinkList(result, node, n, limit)
  {
  }

  lemma LinkListWidens(list: seq<int>, node: int, n: nat, a: nat, b: nat)
    requires LinkList(list, node, n, a) && a <= b
    ensures LinkList(list, node, n, b)
  {
  }

  lemma LinkListNarrows(list: seq<int>, node: int, n: nat, a: nat, b: nat)
    requires LinkList(list, node, n, a)
    ensures |list| <= b ==> LinkList(list, node, n, b)
    ensures forall i :: 0 <= i < |list| ==> 0 <= list[i] < n
  {
  }

  // ---------- Any interleaving of the locked sections ----------

  /**
    A builder thread: about to take a node, offering that node to `pruned[next..]`, or
    re-pruning the copied list of `pruned[next]`.
   */
  datatype Worker =
    | Free
    | Offering(node: nat, pruned: seq<int>, next: nat)
    | Repruning(node: nat, pruned: seq<int>, next: nat, copy: seq<int>)

  datatype Builder = Builder(adj: seq<seq<int>>, workers: seq<Worker>, maxDegree: nat)

  ghost predicate WorkerOk(w: Worker, n: nat, maxDegree: nat) {
    !w.Free? ==>
      && w.node < n && LinkList(w.pruned, w.node, n, maxDegree) && w.next <= |w.pruned|
      && (w.Repruning? ==> w.next < |w.pruned| && forall i :: 0 <= i < |w.copy| ==> 0 <= w.copy[i] < n)
  }

  ghost predicate BuilderOk(b: Builder) {
    && GoodGraph(b.adj, Slack(b.maxDegree))
    && forall t :: 0 <= t < |b.workers| ==> WorkerOk(b.workers[t], |b.adj|, b.maxDegree)
  }

  /** One step of worker `t`: a single locked section, or local work between two of them. */
  ghost predicate Step(b: Builder, t: nat, c: Builder) {
    && t < |b.workers| && c.maxDegree == b.maxDegree
    && match b.workers[t]
       case Free =>
         exists node, pool, pruned :: TakesNode(b, t, c, node, pool, pruned)
       case Offering(node, pruned, next) =>
         if next >= |pruned| then c == b.(workers := b.workers[t := Free])
         else
           && 0 <= pruned[next] < |b.adj|
           && var (adj, copy) := Offer(b.adj, pruned[next], node, b.maxDegree);
             c == b.(adj := adj,
                     workers := b.workers[t := if copy.None? then Offering(node, pruned, next + 1)
                                               else Repruning(node, pruned, next, copy.value)])
       case Repruning(node, pruned, next, copy) =>
         && next < |pruned| && 0 <= pruned[next] < |b.adj|
         && exists pool, list :: Reprunes(b, t, c, node, pruned, next, copy, pool, list)
  }

  /** The worker searches for `node` however the graph looks to it, prunes, and publishes the list. */
  ghost predicate TakesNode(b: Builder, t: nat, c: Builder, node: nat, pool: seq<Neighbor>, pruned: seq<int>)
    requires t < |b.workers|
  {
    && node < |b.adj| && DistinctIds(pool) && (forall v :: v in Ids(pool) ==> 0 <= v < |b.adj|)
    && PruneAnswer(pool, node, b.maxDegree, pruned)
    && c == b.(adj := b.adj[node := pruned], workers := b.workers[t := Offering(node, pruned, 0)])
  }

  /** The worker prunes the copy it took, which may be out of date by now, and stores the answer. */
  ghost predicate Reprunes(b: Builder, t: nat, c: Builder, node: nat, pruned: seq<int>, next: nat, copy: seq<int>,
                           pool: seq<Neighbor>, list: seq<int>)
    requires t < |b.workers| && next < |pruned| && 0 <= pruned[next] < |b.adj|
  {
    && (forall v :: v in Ids(pool) <==> v in copy && v != pruned[next])
    && PruneAnswer(pool, pruned[next], b.maxDegree, list)
    && c == b.(adj := b.adj[pruned[next] := list], workers := b.workers[t := Offering(node, pruned, next + 1)])
  }

  lemma TakesNodeKeepsOk(b: Builder, t: nat, c: Builder, node: nat, pool: seq<Neighbor>, pruned: seq<int>)
    requires BuilderOk(b) && t < |b.workers| && TakesNode(b, t, c, node, pool, pruned)
    ensures BuilderOk(c)
  {
    hide GoodGraph, LinkList;
    PrunedIsLinkList(pool, node, b.maxDegree, pruned, |b.adj|);
    LinkListWidens(pruned, node, |b.adj|, b.maxDegree, Slack(b.maxDegree));
    SetListKeepsGood(b.adj, node, pruned, Slack(b.maxDegree));
  }

  lemma OfferingKeepsOk(b: Builder, t: nat, c: Builder)
    requires BuilderOk(b) && Step(b, t, c) && b.workers[t].Offering?
    ensures BuilderOk(c)
  {
    hide GoodGraph, PruneAnswer, Offer;
    var w := b.workers[t];
    assert WorkerOk(w, |b.adj|, b.maxDegree);
    if w.next < |w.pruned| {
      OfferKeepsGood(b.adj, w.pruned[w.next], w.node, b.maxDegree);
      var copy := Offer(b.adj, w.pruned[w.next], w.node, b.maxDegree).1;
      assert WorkerOk(c.workers[t], |b.adj|, b.maxDegree);
      forall u | 0 <= u < |c.workers| && u != t ensures WorkerOk(c.workers[u], |c.adj|, c.maxDegree) {
        assert c.workers[u] == b.workers[u];
      }
    }
  }

  lemma RepruningKeepsOk(b: Builder, t: nat, c: Builder, pool: seq<Neighbor>, list: seq<int>)
    requires BuilderOk(b) && t < |b.workers| && b.workers[t].Repruning?
    requires var w := b.workers[t];
      w.next < |w.pruned| && 0 <= w.pruned[w.next] < |b.adj| && Reprunes(b, t, c, w.node, w.pruned, w.next, w.copy, pool, list)
    ensures BuilderOk(c)
  {
    hide GoodGraph, LinkList;
    var w := b.workers[t];
    assert WorkerOk(w, |b.adj|, b.maxDegree);
    var v := w.pruned[w.next];
    PrunedIsLinkList(pool, v, b.maxDegree, list, |b.adj|);
    LinkListWidens(list, v, |b.adj|, b.maxDegree, Slack(b.maxDegree));
    SetListKeepsGood(b.adj, v, list, Slack(b.maxDegree));
  }

  lemma StepKeepsOk(b: Builder, t: nat, c: Builder)
    requires BuilderOk(b) && Step(b, t, c)
    ensures BuilderOk(c)
  {
    hide BuilderOk;
    match b.workers[t]
    case Free =>
      var node, pool, pruned :| TakesNode(b, t, c, node, pool, pruned);
      TakesNodeKeepsOk(b, t, c, node, pool, pruned);
    case Offering(_, _, _) => OfferingKeepsOk(b, t, c);
    case Repruning(node, pruned, next, copy) =>
      var pool, list :| Reprunes(b, t, c, node, pruned, next, copy, pool, list);
      RepruningKeepsOk(b, t, c, pool, list);
  }

  ghost predicate Schedule(trace: seq<Builder>, who: seq<nat>) {
    |trace| == |who| + 1 && forall i :: 0 <= i < |who| ==> Step(trace[i], who[i], trace[i + 1])
  }

  /** From empty lists, every state of every schedule of any number of workers is a good graph. */
  lemma {:induction false} EveryScheduleIsGood(trace: seq<Builder>, who: seq<nat>, i: nat)
    requires Schedule(trace, who) && i < |trace|
    requires forall v :: 0 <= v < |trace[0].adj| ==> trace[0].adj[v] == []
    requires forall t :: 0 <= t < |trace[0].workers| ==> trace[0].workers[t].Free?
    ensures BuilderOk(trace[i])
  {
    if i > 0 {
      EveryScheduleIsGood(trace, who, i - 1);
      assert Step(trace[i - 1], who[i - 1], trace[i]);
      StepKeepsOk(trace[i - 1], who[i - 1], trace[i]);
    }
  }

  // ---------- The final pass ----------

  /** Only a list that is too long is pruned. */
  ghost predicate Shortened(metric: Metric, maxDegree: nat, maxCandidates: nat, alpha: real, v: int,
                            before: seq<int>, after: seq<int>)
  {
    if |before| <= maxDegree then after == before
    else Repruned(metric, maxDegree, maxCandidates, alpha, v, before, after)
  }

  lemma ShortenedCases(metric: Metric, maxDegree: nat, maxCandidates: nat, alpha: real, v: int, before: seq<int>)
    ensures |before| <= maxDegree ==> Shortened(metric, maxDegree, maxCandidates, alpha, v, before, before)
    ensures forall after :: |before| > maxDegree && Repruned(metric, maxDegree, maxCandidates, alpha, v, before, after) ==>
      Shortened(metric, maxDegree, maxCandidates, alpha, v, before, after)
  {
    hide Repruned;
  }

  lemma MakeRepruned(metric: Metric, maxDegree: nat, maxCandidates: nat, alpha: real, v: int, before: seq<int>,
                     pool: seq<Neighbor>, after: seq<int>)
    requires PoolFor(v, before, metric, pool) && RobustPruned(pool, metric, v, maxDegree, maxCandidates, alpha, after)
    ensures Repruned(metric, maxDegree, maxCandidates, alpha, v, before, after)
  {
  }

  /** Prune every list that is still longer than `maxDegree`. */
  method PruneOverfull(adj: seq<seq<int>>, metric: Metric, maxDegree: nat, maxCandidates: nat, alpha: real)
    returns (after: seq<seq<int>>)
    requires GoodGraph(adj, Slack(maxDegree)) && NonNegative(metric)
    ensures |after| == |adj| && GoodGraph(after, maxDegree)
    ensures forall v :: 0 <= v < |adj| ==> Shortened(metric, maxDegree, maxCandidates, alpha, v, adj[v], after[v])
  {
    hide GoodGraph, Shortened, Repruned, RobustPruned, PruneAnswer, LinkList, DistinctIds;
    after := adj;
    for v := 0 to |adj|
      invariant |after| == |adj| && GoodGraph(after, Slack(maxDegree))
      invariant forall u :: 0 <= u < v ==> LinkList(after[u], u, |adj|, maxDegree)
      invariant forall u :: v <= u < |adj| ==> after[u] == adj[u]
      invariant forall u :: 0 <= u < v ==> Shortened(metric, maxDegree, maxCandidates, alpha, u, adj[u], after[u])
    {
      ShortenedCases(metric, maxDegree, maxCandidates, alpha, v, adj[v]);
      GoodList(after, Slack(maxDegree), v);
      LinkListNarrows(after[v], v, |adj|, Slack(maxDegree), maxDegree);
      if |adj[v]| > maxDegree {
        var pool := MakePool(v, adj[v], metric);
        var pruned := Prune(v, pool, metric, maxDegree, maxCandidates, alpha);
        forall x | x in Ids(pool) ensures 0 <= x < |adj| {
          var i :| 0 <= i < |adj[v]| && adj[v][i] == x;
        }
        PrunedIsLinkList(pool, v, maxDegree, pruned, |adj|);
        LinkListWidens(pruned, v, |adj|, maxDegree, Slack(maxDegree));
        SetListKeepsGood(after, v, pruned, Slack(maxDegree));
        MakeRepruned(metric, maxDegree, maxCandidates, alpha, v, adj[v], pool, pruned);
        after := after[v := pruned];
      }
    }
    AllLists(after, maxDegree);
  }

  lemma GoodList(adj: seq<seq<int>>, limit: nat, v: nat)
    requires GoodGraph(adj, limit) && v < |adj|
    ensures LinkList(adj[v], v, |adj|, limit)
  {
  }

  lemma AllLists(adj: seq<seq<int>>, limit: nat)
    requires forall v :: 0 <= v < |adj| ==> LinkList(adj[v], v, |adj|, limit)
    ensures GoodGraph(adj, limit)
  {
  }

  // ---------- The sequential build ----------

  /** The entries other than the node's own, in order. */
  function Others(pool: seq<Neighbor>, node: int): seq<Neighbor> {
    if |pool| == 0 then []
    else Others(pool[..|pool| - 1], node) + if pool[|pool| - 1].id == node then [] else [pool[|pool| - 1]]
  }

  lemma PoolDistinct(adj: seq<seq<int>>, dists: seq<real>, entry: int, limit: nat, q: seq<Neighbor>,
                     pool: seq<Neighbor>,
                     seen: map<int, real>)
    requires FixedPoint(adj, dists, entry, limit, q, pool, seen)
    ensures NoDup(Ids(pool))
  {
  }

  lemma PoolInRange(adj: seq<seq<int>>, dists: seq<real>, entry: int, limit: nat, q: seq<Neighbor>, pool: seq<Neighbor>,
                    seen: map<int, real>)
    requires FixedPoint(adj, dists, entry, limit, q, pool, seen)
    ensures forall v :: v in Ids(pool) ==> 0 <= v < |dists|
  {
    forall v | v in Ids(pool) ensures 0 <= v < |dists| {
      var i :| 0 <= i < |pool| && Ids(pool)[i] == v;
      assert IsEntry(pool[i], dists);
    }
  }

  /** Drop `node` itself from the expanded pool. */
  method WithoutNode(pool: seq<Neighbor>, node: int) returns (rest: seq<Neighbor>)
    requires NoDup(Ids(pool))
    ensures DistinctIds(rest) && forall v :: v in Ids(rest) <==> v in Ids(pool) && v != node
    ensures rest == Others(pool, node)
  {
    rest := [];
    assert pool[..0] == [];
    for k := 0 to |pool|
      invariant DistinctIds(rest) && rest == Others(pool[..k], node)
      invariant forall v :: v in Ids(rest) <==> v in Ids(pool)[..k] && v != node
    {
      assert Ids(pool)[..k + 1] == Ids(pool)[..k] + [pool[k].id];
      assert pool[..k + 1][..k] == pool[..k];
      if pool[k].id != node {
        forall i | 0 <= i < |rest| ensures rest[i].id != pool[k].id {
          assert Ids(rest)[i] in Ids(rest);
          var j :| 0 <= j < k && Ids(pool)[j] == rest[i].id;
        }
        assert Ids(rest + [pool[k]]) == Ids(rest) + [pool[k].id];
        rest := rest + [pool[k]];
      }
    }
    assert Ids(pool)[..|pool|] == Ids(pool) && pool[..|pool|] == pool;
  }

  function DistsFrom(metric: Metric, node: int, n: nat): (dists: seq<real>)
    ensures |dists| == n && forall v :: 0 <= v < n ==> dists[v] == metric(node, v)
  {
    seq(n, v => metric(node, v))
  }

  datatype Params = Params(metric: Metric, maxDegree: nat, beam: nat, maxCandidates: nat, alpha: real, entry: int)

  /** The list is the pruning of what a finished beam search for the node expanded, less the node. */
  ghost predicate FromSearch(p: Params, adj: seq<seq<int>>, node: int, pruned: seq<int>) {
    exists q: seq<Neighbor>, pool: seq<Neighbor>, seen: map<int, real> ::
      && FixedPoint(adj, DistsFrom(p.metric, node, |adj|), p.entry, p.beam, q, pool, seen)
      && RobustPruned(Others(pool, node), p.metric, node, p.maxDegree, p.maxCandidates, p.alpha, pruned)
  }

  /**
    Linking `node` turns the graph `g` into `h`: the node's list comes from a search on `g`, the
    node is offered to everything on that list, and every other list stays.
   */
  ghost predicate LinksTo(p: Params, g: seq<seq<int>>, node: nat, pruned: seq<int>, h: seq<seq<int>>) {
    && |h| == |g| && node < |g| && node !in pruned
    && FromSearch(p, g, node, pruned) && h[node] == pruned
    && (forall v :: 0 <= v < |g| && v in pruned ==>
          Offered(p.metric, p.maxDegree, p.maxCandidates, p.alpha, v, node, g[v], h[v]))
    && (forall v :: 0 <= v < |g| && v !in pruned && v != node ==> h[v] == g[v])
  }

  ghost predicate LinkStep(p: Params, g: seq<seq<int>>, node: nat, h: seq<seq<int>>) {
    exists pruned :: LinksTo(p, g, node, pruned, h)
  }

  /** The graphs between the links of one node and the next, in the order of the nodes. */
  ghost predicate LinkTrace(p: Params, trace: seq<seq<seq<int>>>) {
    |trace| > 0 && forall i :: 0 <= i < |trace| - 1 ==> LinkStep(p, trace[i], i, trace[i + 1])
  }

  /** The graph that linking all nodes of `start` in turn and shortening the long lists ends in. */
  ghost predicate Built(p: Params, start: seq<seq<int>>, trace: seq<seq<seq<int>>>, adj: seq<seq<int>>) {
    && LinkTrace(p, trace) && |trace| == |start| + 1 && trace[0] == start
    && |adj| == |start| == |trace[|start|]|
    && forall v :: 0 <= v < |adj| ==>
         Shortened(p.metric, p.maxDegree, p.maxCandidates, p.alpha, v, trace[|start|][v], adj[v])
  }

  lemma ExtendTrace(p: Params, trace: seq<seq<seq<int>>>, pruned: seq<int>, h: seq<seq<int>>)
    requires LinkTrace(p, trace) && LinksTo(p, trace[|trace| - 1], |trace| - 1, pruned, h)
    ensures LinkTrace(p, trace + [h])
  {
    hide LinksTo;
    assert LinkStep(p, trace[|trace| - 1], |trace| - 1, h);
  }

  class VamanaBuilder {
    const metric: Metric
    const maxDegree: nat
    const beam: nat
    const maxCandidates: nat
    const alpha: real
    const entry: nat
    var adj: seq<seq<int>>

    function Settings(): Params {
      Params(metric, maxDegree, beam, maxCandidates, alpha, entry)
    }

    ghost predicate Valid()
      reads this
    {
      && NonNegative(metric) && beam > 0 && entry < |adj|
      && GoodGraph(adj, Slack(maxDegree))
    }

    constructor (n: nat, m: Metric, r: nat, l: nat, c: nat, a: real, start: nat)
      requires NonNegative(m) && r > 0 && start < n
      ensures Valid() && |adj| == n && (forall v :: 0 <= v < n ==> adj[v] == [])
      ensures beam >= r && beam >= l && (beam == r || beam == l)
      ensures metric == m && maxDegree == r && maxCandidates == c && alpha == a && entry == start
    {
      metric, maxDegree, maxCandidates, alpha, entry := m, r, c, a, start;
      beam := if l < r then r else l;
      adj := seq(n, _ => []);
    }

    /** Search for `node` and choose its out-neighbours among what was expanded. */
    method SearchAndPrune(node: nat) returns (pruned: seq<int>)
      requires Valid() && node < |adj|
      ensures LinkList(pruned, node, |adj|, maxDegree) && FromSearch(Settings(), adj, node, pruned)
    {
      hide GoodGraph, LinkList, FixedPoint, RobustPruned, Others;
      GoodIsValid(adj, Slack(maxDegree));
      var dists := DistsFrom(metric, node, |adj|);
      ghost var seen;
      var q, pool;
      q, pool, seen := BeamSearch(adj, dists, entry, beam);
      PoolDistinct(adj, dists, entry, beam, q, pool, seen);
      var rest := WithoutNode(pool, node);
      pruned := Prune(node, rest, metric, maxDegree, maxCandidates, alpha);
      PoolInRange(adj, dists, entry, beam, q, pool, seen);
      PrunedIsLinkList(rest, node, maxDegree, pruned, |adj|);
    }

    /** Offer `node` to each of its new out-neighbours. */
    method InterInsert(node: nat, pruned: seq<int>)
      requires Valid() && node < |adj| && LinkList(pruned, node, |adj|, maxDegree)
      modifies this
      ensures Valid() && |adj| == old(|adj|)
      ensures forall v :: 0 <= v < |adj| && v !in pruned ==> adj[v] == old(adj[v])
      ensures forall v :: 0 <= v < |adj| && v in pruned ==>
        Offered(metric, maxDegree, maxCandidates, alpha, v, node, old(adj[v]), adj[v])
    {
      hide GoodGraph, Offered;
      for k := 0 to |pruned|
        invariant Valid() && |adj| == old(|adj|)
        invariant forall v :: 0 <= v < |adj| && v !in pruned[..k] ==> adj[v] == old(adj[v])
        invariant forall v :: 0 <= v < |adj| && v in pruned[..k] ==>
          Offered(metric, maxDegree, maxCandidates, alpha, v, node, old(adj[v]), adj[v])
      {
        var neighbor := pruned[k];
        assert pruned[..k + 1] == pruned[..k] + [neighbor];
        assert neighbor !in pruned[..k];
        OfferedCases(metric, maxDegree, maxCandidates, alpha, neighbor, node, adj[neighbor]);
        OfferKeepsGood(adj, neighbor, node, maxDegree);
        if node !in adj[neighbor] {
          if |adj[neighbor]| < Slack(maxDegree) {
            adj := adj[neighbor := adj[neighbor] + [node]];
          } else {
            Reprune(neighbor, node);
          }
        }
      }
      assert pruned[..|pruned|] == pruned;
    }

    method Reprune(neighbor: nat, node: nat)
      requires Valid() && neighbor < |adj| && node < |adj|
      requires node !in adj[neighbor] && |adj[neighbor]| >= Slack(maxDegree)
      modifies this
      ensures Valid() && |adj| == old(|adj|)
      ensures forall v :: 0 <= v < |adj| && v != neighbor ==> adj[v] == old(adj[v])
      ensures Offered(metric, maxDegree, maxCandidates, alpha, neighbor, node, old(adj[neighbor]), adj[neighbor])
    {
      hide GoodGraph, RobustPruned;
      GoodList(adj, Slack(maxDegree), neighbor);
      var copy := adj[neighbor] + [node];
      var pool := MakePool(neighbor, copy, metric);
      var list := Prune(neighbor, pool, metric, maxDegree, maxCandidates, alpha);
      forall x | x in Ids(pool) ensures 0 <= x < |adj| {
        var i :| 0 <= i < |copy| && copy[i] == x;
      }
      PrunedIsLinkList(pool, neighbor, maxDegree, list, |adj|);
      LinkListWidens(list, neighbor, |adj|, maxDegree, Slack(maxDegree));
      SetListKeepsGood(adj, neighbor, list, Slack(maxDegree));
      adj := adj[neighbor := list];
    }

    /** Link every node in turn, then shorten what is left over-long. */
    method Build() returns (ghost trace: seq<seq<seq<int>>>)
      requires Valid()
      modifies this
      ensures Valid() && GoodGraph(adj, maxDegree)
      ensures Built(Settings(), old(adj), trace, adj)
    {
      hide GoodGraph, Offered, FromSearch, Shortened, LinkStep;
      trace := [adj];
      for node := 0 to |adj|
        invariant Valid() && |adj| == old(|adj|)
        invariant |trace| == node + 1 && trace[0] == old(adj) && trace[node] == adj
        invariant LinkTrace(Settings(), trace)
      {
        var pruned := SearchAndPrune(node);
        LinkListWidens(pruned, node, |adj|, maxDegree, Slack(maxDegree));
        SetListKeepsGood(adj, node, pruned, Slack(maxDegree));
        adj := adj[node := pruned];
        InterInsert(node, pruned);
        ExtendTrace(Settings(), trace, pruned, adj);
        trace := trace + [adj];
      }
      adj := PruneOverfull(adj, metric, maxDegree, maxCandidates, alpha);
      GoodWidens(adj, maxDegree, Slack(maxDegree));
    }
  }

  lemma OfferedCases(metric: Metric, maxDegree: nat, maxCandidates: nat, alpha: real, v: int, node: int,
                     before: seq<int>)
    ensures node in before ==> Offered(metric, maxDegree, maxCandidates, alpha, v, node, before, before)
    ensures node !in before && |before| < Slack(maxDegree) ==>
      Offered(metric, maxDegree, maxCandidates, alpha, v, node, before, before + [node])
  {
    hide RobustPruned;
  }

  lemma GoodWidens(adj: seq<seq<int>>, a: nat, b: nat)
    requires GoodGraph(adj, a) && a <= b
    ensures GoodGraph(adj, b)
  {
    forall v | 0 <= v < |adj| ensures LinkList(adj[v], v, |adj|, b) {
      LinkListWidens(adj[v], v, |adj|, a, b);
    }
  }
}
