/**
  The links that src/vamana.cc builds are determined by its parameters: what a search expands, what
  a pool is pruned to, and with them every step of the build has one outcome.
 */
module VamanaUnique {
  import opened Common
  import opened NeighborQueue
  import opened VamanaSearch
  import opened VamanaPrune
  import opened VamanaBuild

  // ---------- Pruning ----------

  ghost predicate SameMembers(a: seq<Neighbor>, b: seq<Neighbor>) {
    forall x :: x in a <==> x in b
  }

  lemma FirstIsNearest(a: seq<Neighbor>, x: Neighbor)
    requires NonDecreasing(a) && DistinctIds(a) && x in a
    ensures x == a[0] || Less(a[0], x)
  {
  }

  lemma FirstIsOut(a: seq<Neighbor>)
    requires NonDecreasing(a) && DistinctIds(a) && |a| > 0
    ensures NonDecreasing(a[1..]) && DistinctIds(a[1..]) && a[0] !in a[1..]
    ensures forall x :: x in a <==> x == a[0] || x in a[1..]
  {
    assert a == [a[0]] + a[1..];
  }

  /** A list in order without repeated ids is determined by its members. */
  lemma {:induction false} OrderIsUnique(a: seq<Neighbor>, b: seq<Neighbor>)
    requires NonDecreasing(a) && NonDecreasing(b) && DistinctIds(a) && DistinctIds(b) && SameMembers(a, b)
    ensures a == b
    decreases |a|
  {
    hide NonDecreasing, DistinctIds;
    if |b| > 0 {
      assert b[0] in b;
    }
    if |a| > 0 {
      assert a[0] in a;
      FirstIsNearest(a, b[0]);
      FirstIsNearest(b, a[0]);
      FirstIsOut(a);
      FirstIsOut(b);
      OrderIsUnique(a[1..], b[1..]);
      assert a == [a[0]] + a[1..] && b == [b[0]] + b[1..];
    }
  }

  lemma SortKeepsMembers(pool: seq<Neighbor>)
    ensures SameMembers(SortPool(pool), pool)
  {
    forall x ensures x in SortPool(pool) <==> x in pool {
      assert x in SortPool(pool) <==> x in multiset(SortPool(pool));
      assert x in pool <==> x in multiset(pool);
    }
  }

  /** Pruning does not depend on the order of the candidates and has one answer. */
  lemma PruningIsUnique(a: seq<Neighbor>, b: seq<Neighbor>, metric: Metric, node: int, limit: nat,
                        maxCandidates: nat, alpha: real, x: seq<int>, y: seq<int>)
    requires NonNegative(metric) && DistinctIds(a) && DistinctIds(b) && SameMembers(a, b)
    requires RobustPruned(a, metric, node, limit, maxCandidates, alpha, x)
    requires RobustPruned(b, metric, node, limit, maxCandidates, alpha, y)
    ensures x == y
  {
    hide RobustChoice, SortPool, NonDecreasing, DistinctIds;
    SortKeepsPool(a);
    SortKeepsPool(b);
    SortPoolOrders(a);
    SortPoolOrders(b);
    SortKeepsMembers(a);
    SortKeepsMembers(b);
    OrderIsUnique(SortPool(a), SortPool(b));
    var chosenX :| RobustChoice(Take(SortPool(a), maxCandidates), metric, node, limit, alpha, x, chosenX);
    var chosenY :| RobustChoice(Take(SortPool(b), maxCandidates), metric, node, limit, alpha, y, chosenY);
    RobustChoiceUnique(Take(SortPool(a), maxCandidates), metric, node, limit, alpha, x, chosenX, y, chosenY);
  }

  lemma PoolsHaveSameMembers(v: int, list: seq<int>, metric: Metric, a: seq<Neighbor>, b: seq<Neighbor>)
    requires PoolFor(v, list, metric, a) && PoolFor(v, list, metric, b)
    ensures SameMembers(a, b)
  {
    MembersInOther(v, list, metric, a, b);
    MembersInOther(v, list, metric, b, a);
  }

  lemma MembersInOther(v: int, list: seq<int>, metric: Metric, a: seq<Neighbor>, b: seq<Neighbor>)
    requires PoolFor(v, list, metric, a) && PoolFor(v, list, metric, b)
    ensures forall x :: x in a ==> x in b
  {
    forall x | x in a ensures x in b {
      var i :| 0 <= i < |a| && a[i] == x;
      assert Ids(a)[i] in Ids(a);
      assert x.id in Ids(b);
      var j :| 0 <= j < |b| && Ids(b)[j] == x.id;
      assert b[j] == x;
    }
  }

  lemma RepruningIsUnique(metric: Metric, maxDegree: nat, maxCandidates: nat, alpha: real, v: int, list: seq<int>,
                          x: seq<int>, y: seq<int>)
    requires NonNegative(metric)
    requires Repruned(metric, maxDegree, maxCandidates, alpha, v, list, x)
    requires Repruned(metric, maxDegree, maxCandidates, alpha, v, list, y)
    ensures x == y
  {
    hide RobustPruned;
    var a :| PoolFor(v, list, metric, a) && RobustPruned(a, metric, v, maxDegree, maxCandidates, alpha, x);
    var b :| PoolFor(v, list, metric, b) && RobustPruned(b, metric, v, maxDegree, maxCandidates, alpha, y);
    PoolsHaveSameMembers(v, list, metric, a, b);
    PruningIsUnique(a, b, metric, v, maxDegree, maxCandidates, alpha, x, y);
  }

  // ---------- The build ----------

  lemma OfferIsUnique(p: Params, v: int, node: int, list: seq<int>, x: seq<int>, y: seq<int>)
    requires NonNegative(p.metric)
    requires Offered(p.metric, p.maxDegree, p.maxCandidates, p.alpha, v, node, list, x)
    requires Offered(p.metric, p.maxDegree, p.maxCandidates, p.alpha, v, node, list, y)
    ensures x == y
  {
    hide Repruned;
    if node !in list && |list| >= Slack(p.maxDegree) {
      RepruningIsUnique(p.metric, p.maxDegree, p.maxCandidates, p.alpha, v, list + [node], x, y);
    }
  }

  lemma ShorteningIsUnique(p: Params, v: int, list: seq<int>, x: seq<int>, y: seq<int>)
    requires NonNegative(p.metric)
    requires Shortened(p.metric, p.maxDegree, p.maxCandidates, p.alpha, v, list, x)
    requires Shortened(p.metric, p.maxDegree, p.maxCandidates, p.alpha, v, list, y)
    ensures x == y
  {
    hide Repruned;
    if |list| > p.maxDegree {
      RepruningIsUnique(p.metric, p.maxDegree, p.maxCandidates, p.alpha, v, list, x, y);
    }
  }

  lemma {:induction false} OthersDistinct(pool: seq<Neighbor>, node: int)
    requires DistinctIds(pool)
    ensures DistinctIds(Others(pool, node)) && forall x :: x in Others(pool, node) ==> x in pool
  {
    if |pool| > 0 {
      var n := |pool| - 1;
      OthersDistinct(pool[..n], node);
      var rest := Others(pool[..n], node);
      forall i | 0 <= i < |rest| ensures rest[i].id != pool[n].id {
        assert rest[i] in pool[..n];
      }
    }
  }

  lemma SearchedIsUnique(p: Params, g: seq<seq<int>>, node: nat, x: seq<int>, y: seq<int>)
    requires NonNegative(p.metric) && FromSearch(p, g, node, x) && FromSearch(p, g, node, y)
    ensures x == y
  {
    hide FixedPoint, RobustPruned;
    var dists := DistsFrom(p.metric, node, |g|);
    var q: seq<Neighbor>, pool: seq<Neighbor>, seen: map<int, real> :|
      && FixedPoint(g, dists, p.entry, p.beam, q, pool, seen)
      && RobustPruned(Others(pool, node), p.metric, node, p.maxDegree, p.maxCandidates, p.alpha, x);
    var q': seq<Neighbor>, pool': seq<Neighbor>, seen': map<int, real> :|
      && FixedPoint(g, dists, p.entry, p.beam, q', pool', seen')
      && RobustPruned(Others(pool', node), p.metric, node, p.maxDegree, p.maxCandidates, p.alpha, y);
    SearchIsUnique(g, dists, p.entry, p.beam, q, pool, seen, q', pool', seen');
    PoolDistinct(g, dists, p.entry, p.beam, q, pool, seen);
    IdsDistinct(pool);
    OthersDistinct(pool, node);
    PruningIsUnique(Others(pool, node), Others(pool, node), p.metric, node, p.maxDegree, p.maxCandidates, p.alpha, x, y);
  }

  lemma IdsDistinct(pool: seq<Neighbor>)
    requires NoDup(Ids(pool))
    ensures DistinctIds(pool)
  {
    forall i, j | 0 <= i < j < |pool| ensures pool[i].id != pool[j].id {
      assert Ids(pool)[i] != Ids(pool)[j];
    }
  }

  lemma LinkingIsUnique(p: Params, g: seq<seq<int>>, node: nat, h: seq<seq<int>>, h': seq<seq<int>>)
    requires NonNegative(p.metric) && LinkStep(p, g, node, h) && LinkStep(p, g, node, h')
    ensures h == h'
  {
    hide FromSearch, Offered;
    var pruned :| LinksTo(p, g, node, pruned, h);
    var pruned' :| LinksTo(p, g, node, pruned', h');
    SearchedIsUnique(p, g, node, pruned, pruned');
    forall v | 0 <= v < |g| ensures h[v] == h'[v] {
      if v in pruned {
        OfferIsUnique(p, v, node, g[v], h[v], h'[v]);
      }
    }
  }

  lemma {:induction false} TracesAgree(p: Params, a: seq<seq<seq<int>>>, b: seq<seq<seq<int>>>, i: nat)
    requires NonNegative(p.metric) && LinkTrace(p, a) && LinkTrace(p, b) && a[0] == b[0] && i < |a| && i < |b|
    ensures a[i] == b[i]
  {
    hide LinkStep;
    if i > 0 {
      TracesAgree(p, a, b, i - 1);
      assert LinkStep(p, a[i - 1], i - 1, a[i]) && LinkStep(p, b[i - 1], i - 1, b[i]);
      LinkingIsUnique(p, a[i - 1], i - 1, a[i], b[i]);
    }
  }

  /** The parameters and the lists it starts from determine the built graph. */
  lemma BuildIsUnique(p: Params, start: seq<seq<int>>, a: seq<seq<seq<int>>>, x: seq<seq<int>>,
                      b: seq<seq<seq<int>>>, y: seq<seq<int>>)
    requires NonNegative(p.metric) && Built(p, start, a, x) && Built(p, start, b, y)
    ensures x == y
  {
    hide LinkTrace, Shortened;
    TracesAgree(p, a, b, |start|);
    forall v | 0 <= v < |start| ensures x[v] == y[v] {
      ShorteningIsUnique(p, v, a[|start|][v], x[v], y[v]);
    }
  }
}
