/**
  Inserting into the HNSW index of src/hnsw.cc: choosing neighbours, linking in both
  directions, and what every sequence of inserts and label updates keeps.
 */
module HnswIndex {
  import opened Common
  import opened HnswSearch
  import PqLloyd

  type Vector = PqLloyd.Vector

  function Between(vectors: seq<Vector>, dim: nat, u: nat, w: nat): real
    requires PqLloyd.Matrix(vectors, dim) && u < |vectors| && w < |vectors|
  {
    PqLloyd.Dist(vectors[u], vectors[w], dim)
  }

  /** Distances from a query to all nodes. */
  function Dists(vectors: seq<Vector>, dim: nat, query: Vector): (dists: seq<real>)
    requires PqLloyd.Matrix(vectors, dim) && |query| == dim
    ensures |dists| == |vectors|
    ensures forall u :: 0 <= u < |vectors| ==> dists[u] == PqLloyd.Dist(query, vectors[u], dim)
  {
    seq(|vectors|, u requires 0 <= u < |vectors| => PqLloyd.Dist(query, vectors[u], dim))
  }

  // ---------- Choosing neighbours ----------

  ghost predicate Nodes(cands: seq<Cand>, n: nat) {
    forall i :: 0 <= i < |cands| ==> cands[i].id < n
  }

  ghost predicate ByDist(cands: seq<Cand>) {
    forall i, j :: 0 <= i < j < |cands| ==> cands[i].dist <= cands[j].dist
  }

  /** `c` is closer to a kept candidate that is no farther away than to the query. */
  ghost predicate Shadowed(vectors: seq<Vector>, dim: nat, kept: seq<Cand>, c: Cand)
    requires PqLloyd.Matrix(vectors, dim) && Nodes(kept, |vectors|) && c.id < |vectors|
  {
    exists i :: 0 <= i < |kept| && kept[i].dist <= c.dist && Between(vectors, dim, c.id, kept[i].id) < c.dist
  }

  /** No later one is closer to an earlier one than to the query. */
  ghost predicate Spread(vectors: seq<Vector>, dim: nat, kept: seq<Cand>)
    requires PqLloyd.Matrix(vectors, dim) && Nodes(kept, |vectors|)
  {
    forall i, j :: 0 <= i < j < |kept| ==> Between(vectors, dim, kept[j].id, kept[i].id) >= kept[j].dist
  }

  /** The chosen are `good` spread-out candidates, then the nearest of the rest, up to the limit. */
  ghost predicate Selected(vectors: seq<Vector>, dim: nat, cands: seq<Cand>, limit: nat, chosen: seq<Cand>, good: nat)
    requires PqLloyd.Matrix(vectors, dim) && Nodes(cands, |vectors|)
  {
    && good <= |chosen| == (if |cands| < limit then |cands| else limit)
    && Nodes(chosen, |vectors|) && NoDup(Ids(chosen)) && (forall c :: c in chosen ==> c in cands)
    && ByDist(chosen[..good]) && Spread(vectors, dim, chosen[..good])
    && (forall c :: c in cands && c !in chosen[..good] ==>
          c.id < |vectors| && (Shadowed(vectors, dim, chosen[..good], c) || Behind(chosen[..good], limit, c)))
    && ByDist(chosen[good..])
    && (forall c, i :: c in cands && c !in chosen && good <= i < |chosen| ==> chosen[i].dist <= c.dist)
    && (|chosen| > 0 ==> forall c :: c in cands ==> chosen[0].dist <= c.dist)
  }

  function InsertByDist(s: seq<Cand>, x: Cand): (t: seq<Cand>)
    ensures |t| == |s| + 1 && forall y :: y in t <==> y in s || y == x
    ensures multiset(t) == multiset(s) + multiset{x}
  {
    if |s| == 0 || s[|s| - 1].dist <= x.dist then
      InAppend(s, x);
      s + [x]
    else
      var rest, last := s[..|s| - 1], s[|s| - 1];
      InAppend(rest, last);
      assert s == rest + [last];
      InAppend(InsertByDist(rest, x), last);
      InsertByDist(rest, x) + [last]
  }

  lemma {:induction false} InsertKeepsByDist(s: seq<Cand>, x: Cand)
    requires ByDist(s)
    ensures ByDist(InsertByDist(s, x))
  {
    if |s| > 0 && s[|s| - 1].dist > x.dist {
      var rest, last := s[..|s| - 1], s[|s| - 1];
      InsertKeepsByDist(rest, x);
      var t := InsertByDist(rest, x);
      forall i | 0 <= i < |t| ensures t[i].dist <= last.dist {
        assert t[i] in t;
        if t[i] in rest {
          var j :| 0 <= j < |rest| && rest[j] == t[i];
        }
      }
    }
  }

  method SortByDist(cands: seq<Cand>) returns (s: seq<Cand>)
    ensures ByDist(s) && multiset(s) == multiset(cands) && |s| == |cands|
    ensures forall c :: c in s <==> c in cands
  {
    hide InsertByDist;
    s := [];
    for i := 0 to |cands|
      invariant ByDist(s) && |s| == i && multiset(s) == multiset(cands[..i])
    {
      assert cands[..i + 1] == cands[..i] + [cands[i]];
      InsertKeepsByDist(s, cands[i]);
      s := InsertByDist(s, cands[i]);
    }
    assert cands[..|cands|] == cands;
    forall c ensures c in s <==> c in cands {
      assert c in multiset(s) <==> c in multiset(cands);
    }
  }

  ghost predicate DistinctIds(cands: seq<Cand>) {
    forall i, j :: 0 <= i < j < |cands| ==> cands[i].id != cands[j].id
  }

  /** As many as allowed have been kept, none of them farther than `c`. */
  ghost predicate Behind(kept: seq<Cand>, limit: nat, c: Cand) {
    |kept| == limit > 0 && kept[limit - 1].dist <= c.dist
  }

  /** What the first pass has kept of the first `n` candidates. */
  ghost predicate Kept(vectors: seq<Vector>, dim: nat, list: seq<Cand>, n: nat, limit: nat, kept: seq<Cand>)
    requires PqLloyd.Matrix(vectors, dim) && Nodes(list, |vectors|)
  {
    && n <= |list| && |kept| <= limit && Nodes(kept, |vectors|)
    && (forall c :: c in kept ==> c in list) && DistinctIds(kept)
    && ByDist(kept) && Spread(vectors, dim, kept)
    && (n > 0 ==> |kept| > 0 && kept[0] == list[0]) && (n == 0 ==> kept == [])
    && (forall i :: 0 <= i < n ==>
          list[i] in kept || Shadowed(vectors, dim, kept, list[i]) || Behind(kept, limit, list[i]))
    && (forall c :: c in kept ==> c in list[..n])
  }

  lemma NothingKept(vectors: seq<Vector>, dim: nat, list: seq<Cand>, limit: nat)
    requires PqLloyd.Matrix(vectors, dim) && Nodes(list, |vectors|)
    ensures Kept(vectors, dim, list, 0, limit, [])
  {
  }

  lemma KeptIsFull(vectors: seq<Vector>, dim: nat, list: seq<Cand>, n: nat, limit: nat, kept: seq<Cand>)
    requires PqLloyd.Matrix(vectors, dim) && Nodes(list, |vectors|) && Kept(vectors, dim, list, n, limit, kept)
    requires |kept| >= limit > 0 && ByDist(list)
    ensures Kept(vectors, dim, list, |list|, limit, kept)
  {
    hide Between, PqLloyd.Matrix, Shadowed, Spread, DistinctIds;
    var last := kept[limit - 1];
    assert last in kept && last in list[..n];
    var j :| 0 <= j < n && list[..n][j] == last;
    forall i | n <= i < |list| ensures Behind(kept, limit, list[i]) {
      assert list[j].dist <= list[i].dist;
    }
    assert list[..|list|] == list;
  }

  lemma KeptStep(vectors: seq<Vector>, dim: nat, list: seq<Cand>, i: nat, limit: nat, kept: seq<Cand>, isGood: bool)
    requires PqLloyd.Matrix(vectors, dim) && Nodes(list, |vectors|) && Kept(vectors, dim, list, i, limit, kept)
    requires i < |list| && |kept| < limit && ByDist(list) && DistinctIds(list)
    requires isGood ==> forall k :: 0 <= k < |kept| ==> Between(vectors, dim, list[i].id, kept[k].id) >= list[i].dist
    requires !isGood ==> exists k :: 0 <= k < |kept| && Between(vectors, dim, list[i].id, kept[k].id) < list[i].dist
    ensures Kept(vectors, dim, list, i + 1, limit, if isGood then kept + [list[i]] else kept)
  {
    hide Between, PqLloyd.Matrix, Shadowed, Spread, ByDist, DistinctIds;
    var cand := list[i];
    assert list[..i + 1] == list[..i] + [cand];
    InAppend(list[..i], cand);
    assert cand in list;
    if isGood {
      InAppend(kept, cand);
      KeptBefore(list, i, kept);
      GoodJoins(vectors, dim, kept, cand);
      forall j | 0 <= j < i && Shadowed(vectors, dim, kept, list[j])
        ensures Shadowed(vectors, dim, kept + [cand], list[j])
      {
        StaysShadowed(vectors, dim, kept, list[j], cand);
      }
    } else {
      KeptBefore(list, i, kept);
      IsShadowed(vectors, dim, kept, cand);
    }
  }

  /** What has been kept is no farther than, and different from, the next candidate. */
  lemma KeptBefore(list: seq<Cand>, i: nat, kept: seq<Cand>)
    requires i < |list| && ByDist(list) && DistinctIds(list) && forall c :: c in kept ==> c in list[..i]
    ensures forall k :: 0 <= k < |kept| ==> kept[k].dist <= list[i].dist && kept[k].id != list[i].id
  {
    forall k | 0 <= k < |kept| ensures kept[k].dist <= list[i].dist && kept[k].id != list[i].id {
      assert kept[k] in list[..i];
      var j :| 0 <= j < i && list[..i][j] == kept[k];
    }
  }

  lemma GoodJoins(vectors: seq<Vector>, dim: nat, kept: seq<Cand>, cand: Cand)
    requires PqLloyd.Matrix(vectors, dim) && Nodes(kept, |vectors|) && cand.id < |vectors|
    requires ByDist(kept) && DistinctIds(kept) && Spread(vectors, dim, kept)
    requires forall k :: 0 <= k < |kept| ==> kept[k].dist <= cand.dist && kept[k].id != cand.id
    requires forall k :: 0 <= k < |kept| ==> Between(vectors, dim, cand.id, kept[k].id) >= cand.dist
    ensures Nodes(kept + [cand], |vectors|) && ByDist(kept + [cand]) && DistinctIds(kept + [cand])
    ensures Spread(vectors, dim, kept + [cand])
  {
    hide Between, PqLloyd.Matrix;
  }

  lemma StaysShadowed(vectors: seq<Vector>, dim: nat, kept: seq<Cand>, c: Cand, cand: Cand)
    requires PqLloyd.Matrix(vectors, dim) && Nodes(kept + [cand], |vectors|) && Nodes(kept, |vectors|) && c.id < |vectors|
    requires Shadowed(vectors, dim, kept, c)
    ensures Shadowed(vectors, dim, kept + [cand], c)
  {
    hide Between, PqLloyd.Matrix;
    var k :| 0 <= k < |kept| && kept[k].dist <= c.dist && Between(vectors, dim, c.id, kept[k].id) < c.dist;
    assert (kept + [cand])[k] == kept[k];
  }

  lemma IsShadowed(vectors: seq<Vector>, dim: nat, kept: seq<Cand>, c: Cand)
    requires PqLloyd.Matrix(vectors, dim) && Nodes(kept, |vectors|) && c.id < |vectors|
    requires forall k :: 0 <= k < |kept| ==> kept[k].dist <= c.dist
    requires exists k :: 0 <= k < |kept| && Between(vectors, dim, c.id, kept[k].id) < c.dist
    ensures Shadowed(vectors, dim, kept, c)
  {
  }

  /** The second pass: `kept`, then the nearest candidates that are not kept, in order. */
  ghost predicate Filled(list: seq<Cand>, n: nat, limit: nat, kept: seq<Cand>, chosen: seq<Cand>) {
    && n <= |list| && |kept| <= |chosen| <= limit && chosen[..|kept|] == kept
    && DistinctIds(chosen) && (forall c :: c in chosen ==> c in list)
    && (forall i :: 0 <= i < n ==> list[i] in chosen) && (forall c :: c in chosen[|kept|..] ==> c in list[..n])
    && ByDist(chosen[|kept|..])
  }

  lemma NothingFilled(list: seq<Cand>, limit: nat, kept: seq<Cand>)
    requires |kept| <= limit && DistinctIds(kept) && forall c :: c in kept ==> c in list
    ensures Filled(list, 0, limit, kept, kept)
  {
  }

  lemma FilledStep(list: seq<Cand>, i: nat, limit: nat, kept: seq<Cand>, chosen: seq<Cand>)
    requires Filled(list, i, limit, kept, chosen) && i < |list| && |chosen| < limit && ByDist(list) && DistinctIds(list)
    ensures (exists k :: 0 <= k < |chosen| && chosen[k].id == list[i].id) ==> Filled(list, i + 1, limit, kept, chosen)
    ensures (forall k :: 0 <= k < |chosen| ==> chosen[k].id != list[i].id) ==>
      Filled(list, i + 1, limit, kept, chosen + [list[i]])
  {
    hide DistinctIds;
    var cand, rest := list[i], chosen[|kept|..];
    assert list[..i + 1] == list[..i] + [cand];
    InAppend(list[..i], cand);
    assert cand in list;
    if k :| 0 <= k < |chosen| && chosen[k].id == cand.id {
      assert chosen[k] in list;
      SameCand(list, chosen[k], cand);
    } else {
      InAppend(chosen, cand);
      InAppend(rest, cand);
      assert (chosen + [cand])[|kept|..] == rest + [cand];
      forall k | 0 <= k < |rest| ensures rest[k].dist <= cand.dist {
        assert rest[k] in list[..i];
        var j :| 0 <= j < i && list[..i][j] == rest[k];
      }
      DistinctAdds(chosen, cand);
    }
  }

  lemma SameCand(list: seq<Cand>, a: Cand, b: Cand)
    requires DistinctIds(list) && a in list && b in list && a.id == b.id
    ensures a == b
  {
  }

  lemma DistinctAdds(chosen: seq<Cand>, x: Cand)
    requires DistinctIds(chosen) && forall k :: 0 <= k < |chosen| ==> chosen[k].id != x.id
    ensures DistinctIds(chosen + [x])
  {
  }

  lemma DistinctNoDup(s: seq<Cand>)
    requires DistinctIds(s)
    ensures NoDup(s) && NoDup(Ids(s))
  {
  }

  lemma PermutedDistinct(a: seq<Cand>, b: seq<Cand>)
    requires DistinctIds(a) && |a| == |b| && forall c :: c in a <==> c in b
    ensures DistinctIds(b)
  {
    DistinctNoDup(a);
    NoDupCardinality(a);
    assert ToSet(a) == ToSet(b);
    ShortSetRepeatsNothing(b);
    forall i, j | 0 <= i < j < |b| ensures b[i].id != b[j].id {
      assert b[i] in a && b[j] in a;
      if b[i].id == b[j].id {
        SameCand(a, b[i], b[j]);
      }
    }
  }

  /** Different members are no more than all. */
  lemma MembersFit(a: seq<Cand>, b: seq<Cand>)
    requires DistinctIds(a) && forall c :: c in a ==> c in b
    ensures |a| <= |b|
  {
    DistinctNoDup(a);
    NoDupCardinality(a);
    SetIsShort(b);
    assert ToSet(b) == ToSet(a) + (ToSet(b) - ToSet(a));
  }

  lemma RestIsNearer(list: seq<Cand>, n: nat, limit: nat, kept: seq<Cand>, chosen: seq<Cand>, c: Cand, i: nat)
    requires ByDist(list) && Filled(list, n, limit, kept, chosen) && c in list && c !in chosen && |kept| <= i < |chosen|
    ensures chosen[i].dist <= c.dist
  {
    hide DistinctIds;
    var rest := chosen[|kept|..];
    assert rest[i - |kept|] == chosen[i] && rest[i - |kept|] in rest;
    var k :| 0 <= k < n && list[..n][k] == chosen[i];
    var j :| 0 <= j < |list| && list[j] == c;
  }

  lemma FrontIsNearest(vectors: seq<Vector>, dim: nat, list: seq<Cand>, n: nat, limit: nat, kept: seq<Cand>,
                       chosen: seq<Cand>, c: Cand)
    requires PqLloyd.Matrix(vectors, dim) && Nodes(list, |vectors|) && ByDist(list)
    requires Kept(vectors, dim, list, |list|, limit, kept) && Filled(list, n, limit, kept, chosen) && c in list && |chosen| > 0
    ensures chosen[0].dist <= c.dist
  {
    hide DistinctIds, Spread, Shadowed;
    var j :| 0 <= j < |list| && list[j] == c;
    assert chosen[..|kept|][0] == chosen[0];
  }

  /** Both passes together make a selection. */
  lemma MakeSelected(vectors: seq<Vector>, dim: nat, cands: seq<Cand>, list: seq<Cand>, limit: nat, n: nat,
                     kept: seq<Cand>, chosen: seq<Cand>)
    requires PqLloyd.Matrix(vectors, dim) && Nodes(cands, |vectors|) && Nodes(list, |vectors|) && limit > 0
    requires ByDist(list) && DistinctIds(list) && |list| == |cands| && forall c :: c in list <==> c in cands
    requires Kept(vectors, dim, list, |list|, limit, kept) && Filled(list, n, limit, kept, chosen)
    requires n == |list| || |chosen| == limit
    ensures Selected(vectors, dim, cands, limit, chosen, |kept|)
  {
    hide Spread, Shadowed, PqLloyd.Matrix, DistinctIds, ByDist;
    DistinctNoDup(chosen);
    MembersFit(chosen, list);
    if |chosen| < limit {
      MembersFit(list, chosen);
    }
    forall i | 0 <= i < |chosen| ensures chosen[i].id < |vectors| {
      assert chosen[i] in list;
    }
    forall c | c in cands && c !in kept
      ensures c.id < |vectors| && (Shadowed(vectors, dim, kept, c) || Behind(kept, limit, c))
    {
      var j :| 0 <= j < |list| && list[j] == c;
    }
    forall c, i | c in cands && c !in chosen && |kept| <= i < |chosen| ensures chosen[i].dist <= c.dist {
      RestIsNearer(list, n, limit, kept, chosen, c, i);
    }
    forall c | c in cands && |chosen| > 0 ensures chosen[0].dist <= c.dist {
      FrontIsNearest(vectors, dim, list, n, limit, kept, chosen, c);
    }
  }

  // ---------- The graph ----------

  function Limit(m: nat, layer: nat): nat {
    if layer == 0 then m * 2 else m
  }

  /** A list of distinct other nodes that exist at its layer, within the degree limit. */
  ghost predicate ListOk(links: Links, v: nat, layer: nat, limit: nat) {
    && v < |links| && layer < |links[v]| && NoDup(links[v][layer]) && |links[v][layer]| <= limit
    && forall i :: 0 <= i < |links[v][layer]| ==>
         links[v][layer][i] < |links| && links[v][layer][i] != v && layer < |links[links[v][layer][i]]|
  }

  /** Node `v` exists at layers 0 to |links[v]| - 1, and all its lists are right. */
  ghost predicate GoodGraph(links: Links, m: nat) {
    && (forall v :: 0 <= v < |links| ==> |links[v]| > 0)
    && (forall v, l :: 0 <= v < |links| && 0 <= l < |links[v]| ==> ListOk(links, v, l, Limit(m, l)))
  }

  /** Nobody lists `v` at the layer. */
  ghost predicate Unlisted(links: Links, v: nat, layer: nat) {
    forall u :: 0 <= u < |links| && layer < |links[u]| ==> v !in links[u][layer]
  }

  /** Every node exists at the same layers as before. */
  ghost predicate SameShape(before: Links, after: Links) {
    |after| == |before| && forall u :: 0 <= u < |before| ==> |after[u]| == |before[u]|
  }

  ghost predicate SameAt(before: Links, after: Links, layer: nat) {
    SameShape(before, after) && forall u :: 0 <= u < |before| && layer < |before[u]| ==> after[u][layer] == before[u][layer]
  }

  /** The nodes other than `v` that exist at the layer. */
  ghost function Present(links: Links, layer: nat, v: nat): (nodes: set<nat>)
    ensures forall u: nat :: u in nodes <==> u < |links| && u != v && layer < |links[u]|
  {
    set u: nat | u < |links| && u != v && layer < |links[u]|
  }

  lemma PresentClosed(links: Links, m: nat, v: nat, layer: nat)
    requires GoodGraph(links, m) && Unlisted(links, v, layer)
    ensures Closed(links, layer, Present(links, layer, v))
  {
    forall u | u in Present(links, layer, v)
      ensures forall i :: 0 <= i < |links[u][layer]| ==> links[u][layer][i] in Present(links, layer, v)
    {
      assert ListOk(links, u, layer, Limit(m, layer));
    }
  }

  ghost predicate ReplacesWorst(vectors: seq<Vector>, dim: nat, before: seq<nat>, after: seq<nat>, u: nat, v: nat,
                                w: int)
    requires PqLloyd.Matrix(vectors, dim) && u < |vectors| && v < |vectors|
    requires forall i :: 0 <= i < |before| ==> before[i] < |vectors|
  {
    && IsWorst(vectors, dim, before, u, w)
    && after == if Between(vectors, dim, u, v) < Between(vectors, dim, u, before[w]) then before[w := v] else before
  }

  /** The list with one entry appended or, when full, the farthest one replaced if the new one is nearer. */
  ghost predicate Relinked(vectors: seq<Vector>, dim: nat, before: seq<nat>, after: seq<nat>, u: nat, v: nat,
                           limit: nat)
    requires PqLloyd.Matrix(vectors, dim) && u < |vectors| && v < |vectors|
  {
    && (forall i :: 0 <= i < |before| ==> before[i] < |vectors|)
    && if |before| < limit then after == before + [v]
       else exists w :: ReplacesWorst(vectors, dim, before, after, u, v, w)
  }

  /** The first of the farthest entries. */
  ghost predicate IsWorst(vectors: seq<Vector>, dim: nat, list: seq<nat>, u: nat, w: int)
    requires PqLloyd.Matrix(vectors, dim) && u < |vectors| && (forall i :: 0 <= i < |list| ==> list[i] < |vectors|)
  {
    && 0 <= w < |list|
    && (forall i :: 0 <= i < |list| ==> Between(vectors, dim, u, list[i]) <= Between(vectors, dim, u, list[w]))
    && (forall i :: 0 <= i < w ==> Between(vectors, dim, u, list[i]) < Between(vectors, dim, u, list[w]))
  }

  /** Changing one list to a right one keeps the graph right. */
  lemma GoodGraphSet(links: Links, m: nat, u: nat, layer: nat, list: seq<nat>)
    requires GoodGraph(links, m) && u < |links| && layer < |links[u]|
    requires NoDup(list) && |list| <= Limit(m, layer)
    requires forall i :: 0 <= i < |list| ==> list[i] < |links| && list[i] != u && layer < |links[list[i]]|
    ensures GoodGraph(links[u := links[u][layer := list]], m)
  {
    hide Limit;
    var after := links[u := links[u][layer := list]];
    forall v, l | 0 <= v < |after| && 0 <= l < |after[v]| ensures ListOk(after, v, l, Limit(m, l)) {
      assert ListOk(links, v, l, Limit(m, l));
    }
  }

  /** Appending to, or replacing an entry of, a list that does not have `v`. */
  lemma RelinkedOk(vectors: seq<Vector>, dim: nat, links: Links, m: nat, u: nat, v: nat, layer: nat, after: seq<nat>)
    requires PqLloyd.Matrix(vectors, dim) && |vectors| == |links| && GoodGraph(links, m) && m > 0
    requires u < |links| && v < |links| && u != v && layer < |links[u]| && layer < |links[v]| && v !in links[u][layer]
    requires Relinked(vectors, dim, links[u][layer], after, u, v, Limit(m, layer))
    ensures GoodGraph(links[u := links[u][layer := after]], m)
  {
    hide IsWorst, GoodGraph;
    var before := links[u][layer];
    ListAt(links, m, u, layer);
    if |before| >= Limit(m, layer) {
      var w :| ReplacesWorst(vectors, dim, before, after, u, v, w);
      WorstInRange(vectors, dim, before, u, w);
    }
    assert NoDup(after) && |after| <= Limit(m, layer);
    GoodGraphSet(links, m, u, layer, after);
  }

  lemma WorstInRange(vectors: seq<Vector>, dim: nat, list: seq<nat>, u: nat, w: int)
    requires PqLloyd.Matrix(vectors, dim) && u < |vectors| && (forall i :: 0 <= i < |list| ==> list[i] < |vectors|)
    requires IsWorst(vectors, dim, list, u, w)
    ensures 0 <= w < |list|
  {
  }

  lemma ListAt(links: Links, m: nat, u: nat, layer: nat)
    requires GoodGraph(links, m) && u < |links| && layer < |links[u]|
    ensures ListOk(links, u, layer, Limit(m, layer))
  {
  }

  /** At one layer, those whom `v` lists relink to it and nobody else changes. */
  ghost predicate Connected(vectors: seq<Vector>, dim: nat, before: Links, after: Links, v: nat, layer: nat, limit: nat)
    requires PqLloyd.Matrix(vectors, dim)
  {
    && |vectors| == |before| && SameShape(before, after) && v < |before| && layer < |before[v]|
    && forall u :: 0 <= u < |before| && u != v && layer < |before[u]| ==>
         if u in after[v][layer] then Relinked(vectors, dim, before[u][layer], after[u][layer], u, v, limit)
         else after[u][layer] == before[u][layer]
  }

  /** `v` lists `ids`, of which the first `n` have relinked to it. */
  ghost predicate Connecting(vectors: seq<Vector>, dim: nat, before: Links, after: Links, v: nat, layer: nat,
                             limit: nat,
                             ids: seq<nat>, n: nat)
    requires PqLloyd.Matrix(vectors, dim)
  {
    && n <= |ids| && |vectors| == |before| && SameShape(before, after) && v < |before| && layer < |before[v]|
    && after[v][layer] == ids
    && (forall l :: l != layer ==> SameAt(before, after, l))
    && (forall u :: 0 <= u < |before| && u != v && layer < |before[u]| ==>
          if u in ids[..n] then Relinked(vectors, dim, before[u][layer], after[u][layer], u, v, limit)
          else after[u][layer] == before[u][layer])
  }

  ghost predicate CanList(links: Links, v: nat, layer: nat, ids: seq<nat>) {
    && NoDup(ids) && forall i :: 0 <= i < |ids| ==> ids[i] < |links| && ids[i] != v && layer < |links[ids[i]]|
  }

  lemma StartConnecting(vectors: seq<Vector>, dim: nat, links: Links, m: nat, v: nat, layer: nat, ids: seq<nat>)
    requires PqLloyd.Matrix(vectors, dim) && |vectors| == |links| && GoodGraph(links, m)
    requires v < |links| && layer < |links[v]| && CanList(links, v, layer, ids) && |ids| <= Limit(m, layer)
    ensures var after := links[v := links[v][layer := ids]];
      Connecting(vectors, dim, links, after, v, layer, Limit(m, layer), ids, 0) && GoodGraph(after, m)
  {
    hide Relinked, GoodGraph;
    GoodGraphSet(links, m, v, layer, ids);
  }

  lemma ConnectingStep(vectors: seq<Vector>, dim: nat, before: Links, links: Links, m: nat, v: nat, layer: nat,
                       ids: seq<nat>, i: nat, list: seq<nat>)
    requires PqLloyd.Matrix(vectors, dim) && GoodGraph(links, m) && m > 0 && i < |ids|
    requires Connecting(vectors, dim, before, links, v, layer, Limit(m, layer), ids, i)
    requires CanList(before, v, layer, ids) && Unlisted(before, v, layer)
    requires Relinked(vectors, dim, links[ids[i]][layer], list, ids[i], v, Limit(m, layer))
    ensures var after := links[ids[i] := links[ids[i]][layer := list]];
      Connecting(vectors, dim, before, after, v, layer, Limit(m, layer), ids, i + 1) && GoodGraph(after, m)
  {
    hide Relinked, GoodGraph, PqLloyd.Matrix;
    var u := ids[i];
    assert ids[..i + 1] == ids[..i] + [u];
    InAppend(ids[..i], u);
    assert u !in ids[..i];
    RelinkedOk(vectors, dim, links, m, u, v, layer, list);
    var after := links[u := links[u][layer := list]];
    assert SameShape(before, after) && after[v][layer] == ids;
    forall l | l != layer ensures SameAt(before, after, l) {
      assert SameAt(before, links, l);
    }
    assert links[u][layer] == before[u][layer];
  }

  lemma ConnectingDone(vectors: seq<Vector>, dim: nat, before: Links, after: Links, v: nat, layer: nat, limit: nat,
                       ids: seq<nat>)
    requires PqLloyd.Matrix(vectors, dim) && Connecting(vectors, dim, before, after, v, layer, limit, ids, |ids|)
    ensures Connected(vectors, dim, before, after, v, layer, limit) && after[v][layer] == ids
    ensures SameShape(before, after) && forall l :: l != layer ==> SameAt(before, after, l)
  {
    hide Relinked;
    assert ids[..|ids|] == ids;
  }

  /** The state before the first connection: the new node is there with empty lists. */
  function WithNode(links: Links, level: nat): (after: Links) {
    links + [seq(level + 1, _ => [])]
  }

  lemma WithNodeGood(links: Links, m: nat, level: nat)
    requires GoodGraph(links, m)
    ensures GoodGraph(WithNode(links, level), m)
    ensures forall l :: Unlisted(WithNode(links, level), |links|, l)
  {
    var after := WithNode(links, level);
    forall v, l | 0 <= v < |after| && 0 <= l < |after[v]| ensures ListOk(after, v, l, Limit(m, l)) {
      if v < |links| {
        assert ListOk(links, v, l, Limit(m, l));
      }
    }
    forall u, l: nat | 0 <= u < |after| && l < |after[u]| ensures |links| !in after[u][l] {
      if u < |links| {
        assert ListOk(links, u, l, Limit(m, l));
      }
    }
  }

  // ---------- The index ----------

  datatype Error = CapacityExceeded

  /** The chosen neighbours of a new node at one layer come from a search from `ep` that reached its fixed point. */
  ghost predicate FoundBySearch(links: Links, vectors: seq<Vector>, dim: nat, query: Vector, ep: nat, layer: nat,
                                cap: nat, limit: nat, list: seq<nat>)
    requires PqLloyd.Matrix(vectors, dim) && |query| == dim
  {
    exists top: seq<Cand>, seen: set<nat>, chosen: seq<Cand>, good: nat ::
      && LayerFixedPoint(links, layer, Dists(vectors, dim, query), ep, cap, top, seen)
      && Nodes(top, |vectors|) && Selected(vectors, dim, top, limit, chosen, good) && list == Ids(chosen)
  }

  /** Labels and nodes are in one-to-one correspondence. */
  ghost predicate Labelled(labels: seq<nat>, lookup: map<nat, nat>) {
    && (forall x :: x in lookup ==> lookup[x] < |labels| && labels[lookup[x]] == x)
    && (forall v :: 0 <= v < |labels| ==> labels[v] in lookup && lookup[labels[v]] == v)
  }

  ghost predicate Topped(links: Links, maxLevel: int, entry: nat) {
    && (|links| == 0 ==> maxLevel == -1)
    && (|links| > 0 ==> entry < |links| && |links[entry]| == maxLevel + 1)
    && (forall v :: 0 <= v < |links| ==> |links[v]| <= maxLevel + 1)
  }

  lemma LabelledAdds(labels: seq<nat>, lookup: map<nat, nat>, x: nat)
    requires Labelled(labels, lookup) && x !in lookup
    ensures Labelled(labels + [x], lookup[x := |labels|])
  {
  }

  lemma ToppedAdds(links: Links, after: Links, level: nat, maxLevel: int, entry: nat)
    requires Topped(links, maxLevel, entry) && SameShape(WithNode(links, level), after)
    ensures if level > maxLevel then Topped(after, level, |links|) else |links| > 0 && Topped(after, maxLevel, entry)
  {
    var start := WithNode(links, level);
    assert |start[|links|]| == level + 1;
    forall v | 0 <= v < |links| ensures start[v] == links[v] && |after[v]| == |links[v]| {
    }
  }

  class Index {
    const dim: nat
    const maxElements: nat
    const m: nat
    const ef: int
    var vectors: seq<Vector>
    var labels: seq<nat>
    var links: Links
    var lookup: map<nat, nat>
    var maxLevel: int
    var entry: nat

    ghost predicate Shape()
      reads this
    {
      && m > 0 && |vectors| == |labels| == |links| <= maxElements
      && PqLloyd.Matrix(vectors, dim) && GoodGraph(links, m)
      && Labelled(labels, lookup)
    }

    /** The entry point is on the top layer, and no node is above it. */
    ghost predicate Valid()
      reads this
    {
      && Shape()
      && Topped(links, maxLevel, entry)
    }

    constructor (d: nat, capacity: nat, degree: nat, width: int)
      requires degree > 0
      ensures Valid() && vectors == [] && labels == [] && links == [] && lookup == map[]
      ensures dim == d && maxElements == capacity && m == degree && ef == width
    {
      dim, maxElements, m, ef := d, capacity, degree, width;
      vectors, labels, links, lookup, maxLevel, entry := [], [], [], map[], -1, 0;
    }

    /** Keep, in order of distance, what is not closer to one already kept than to the query. */
    method KeepSpread(list: seq<Cand>, limit: nat) returns (kept: seq<Cand>)
      requires PqLloyd.Matrix(vectors, dim) && Nodes(list, |vectors|) && ByDist(list) && DistinctIds(list) && limit > 0
      ensures Kept(vectors, dim, list, |list|, limit, kept)
    {
      hide PqLloyd.Matrix, Between, ByDist, DistinctIds, Spread, Shadowed;
      kept := [];
      NothingKept(vectors, dim, list, limit);
      for i := 0 to |list|
        invariant Kept(vectors, dim, list, i, limit, kept)
      {
        if |kept| >= limit {
          KeptIsFull(vectors, dim, list, i, limit, kept);
          return;
        }
        var cand, isGood := list[i], true;
        for j := 0 to |kept|
          invariant isGood && forall k :: 0 <= k < j ==> Between(vectors, dim, cand.id, kept[k].id) >= cand.dist
        {
          if Between(vectors, dim, cand.id, kept[j].id) < cand.dist {
            isGood := false;
            break;
          }
        }
        KeptStep(vectors, dim, list, i, limit, kept, isGood);
        if isGood {
          kept := kept + [cand];
        }
      }
    }

    /** Add the nearest of the others until the limit is reached. */
    method FillUp(list: seq<Cand>, kept: seq<Cand>, limit: nat) returns (chosen: seq<Cand>, ghost n: nat)
      requires ByDist(list) && DistinctIds(list)
      requires |kept| <= limit && DistinctIds(kept) && forall c :: c in kept ==> c in list
      ensures Filled(list, n, limit, kept, chosen) && (n == |list| || |chosen| == limit)
      ensures exists m: nat :: Filled(list, m, limit, kept, chosen) && (m == |list| || |chosen| == limit)
    {
      hide Filled, ByDist, DistinctIds;
      chosen, n := kept, 0;
      NothingFilled(list, limit, kept);
      if |chosen| < limit {
        for i := 0 to |list|
          invariant Filled(list, i, limit, kept, chosen) && n == i
        {
          if |chosen| >= limit {
            FullIsLimit(list, i, limit, kept, chosen);
            return;
          }
          var duplicated := false;
          for j := 0 to |chosen|
            invariant !duplicated && forall k :: 0 <= k < j ==> chosen[k].id != list[i].id
          {
            if chosen[j].id == list[i].id {
              duplicated := true;
              break;
            }
          }
          FilledStep(list, i, limit, kept, chosen);
          if !duplicated {
            chosen := chosen + [list[i]];
          }
          n := n + 1;
        }
      }
    }

    /** Diverse neighbours first, then the nearest of the rest. */
    method SelectNeighbours(cands: seq<Cand>, limit: nat) returns (chosen: seq<Cand>, ghost good: nat)
      requires PqLloyd.Matrix(vectors, dim) && Nodes(cands, |vectors|) && DistinctIds(cands) && limit > 0
      ensures Selected(vectors, dim, cands, limit, chosen, good)
      ensures exists spread: nat :: Selected(vectors, dim, cands, limit, chosen, spread)
    {
      hide PqLloyd.Matrix, ByDist, DistinctIds, Kept, Filled, Selected;
      var list := SortByDist(cands);
      PermutedDistinct(cands, list);
      forall i | 0 <= i < |list| ensures list[i].id < |vectors| {
        assert list[i] in cands;
      }
      var kept := KeepSpread(list, limit);
      KeptFacts(vectors, dim, list, limit, kept);
      ghost var n;
      chosen, n := FillUp(list, kept, limit);
      good := |kept|;
      MakeSelected(vectors, dim, cands, list, limit, n, kept, chosen);
    }

    /** The first of the farthest entries of a list. */
    method FindWorst(list: seq<nat>, u: nat) returns (worst: nat)
      requires PqLloyd.Matrix(vectors, dim) && u < |vectors| && |list| > 0
      requires forall i :: 0 <= i < |list| ==> list[i] < |vectors|
      ensures IsWorst(vectors, dim, list, u, worst)
    {
      hide Between, PqLloyd.Matrix;
      worst := 0;
      var worstDist := Between(vectors, dim, u, list[0]);
      for i := 1 to |list|
        invariant worst < i && worstDist == Between(vectors, dim, u, list[worst])
        invariant forall k :: 0 <= k < i ==> Between(vectors, dim, u, list[k]) <= worstDist
        invariant forall k :: 0 <= k < worst ==> Between(vectors, dim, u, list[k]) < worstDist
      {
        var dist := Between(vectors, dim, u, list[i]);
        if dist > worstDist {
          worstDist, worst := dist, i;
        }
      }
    }

    /** Link the new node and its chosen neighbours in both directions. */
    method Connect(v: nat, ids: seq<nat>, layer: nat)
      requires m > 0 && PqLloyd.Matrix(vectors, dim) && |vectors| == |links| && GoodGraph(links, m)
      requires v < |links| && layer < |links[v]| && CanList(links, v, layer, ids) && |ids| <= Limit(m, layer)
      requires Unlisted(links, v, layer)
      modifies this`links
      ensures GoodGraph(links, m) && Connected(vectors, dim, old(links), links, v, layer, Limit(m, layer))
      ensures links[v][layer] == ids
      ensures SameShape(old(links), links) && forall l :: l != layer ==> SameAt(old(links), links, l)
    {
      hide PqLloyd.Matrix, GoodGraph, Relinked, Connecting, Connected, Between, CanList, Unlisted, SameAt, SameShape,
           IsWorst;
      StartConnecting(vectors, dim, links, m, v, layer, ids);
      links := links[v := links[v][layer := ids]];
      for i := 0 to |ids|
        invariant GoodGraph(links, m) && Connecting(vectors, dim, old(links), links, v, layer, Limit(m, layer), ids, i)
      {
        var u := ids[i];
        ConnectingFacts(vectors, dim, old(links), links, m, v, layer, ids, i);
        var list := links[u][layer];
        var after;
        if |list| < Limit(m, layer) {
          after := list + [v];
        } else {
          var newDist := Between(vectors, dim, u, v);
          var worst := FindWorst(list, u);
          WorstInRange(vectors, dim, list, u, worst);
          after := if newDist < Between(vectors, dim, u, list[worst]) then list[worst := v] else list;
          assert ReplacesWorst(vectors, dim, list, after, u, v, worst);
        }
        MakeRelinked(vectors, dim, list, after, u, v, Limit(m, layer));
        ConnectingStep(vectors, dim, old(links), links, m, v, layer, ids, i, after);
        links := links[u := links[u][layer := after]];
      }
      ConnectingDone(vectors, dim, old(links), links, v, layer, Limit(m, layer), ids);
    }

    /** Search one layer for the new node, choose neighbours there and connect; returns the next entry point. */
    method ConnectLayer(v: nat, vec: Vector, ep: nat, layer: nat, vt: VisitedTable) returns (next: nat)
      requires m > 0 && PqLloyd.Matrix(vectors, dim) && |vectors| == |links| && GoodGraph(links, m) && |vec| == dim
      requires v < |links| && layer < |links[v]| && Unlisted(links, v, layer) && ep in Present(links, layer, v)
      requires vt.Valid() && |links| <= |vt.marks|
      modifies this`links, vt
      ensures vt.Valid() && |vt.marks| == old(|vt.marks|)
      ensures GoodGraph(links, m) && Connected(vectors, dim, old(links), links, v, layer, Limit(m, layer))
      ensures FoundBySearch(old(links), vectors, dim, vec, ep, layer, Cap(ef), Limit(m, layer), links[v][layer])
      ensures SameShape(old(links), links) && forall l :: l != layer ==> SameAt(old(links), links, l)
      ensures next in Present(links, layer, v) && |links[v][layer]| > 0 && next == links[v][layer][0]
    {
      hide PqLloyd.Matrix, GoodGraph, Connected, Selected, LayerFixedPoint, Closed, Unlisted, SameAt, Dists, CanList;
      PresentClosed(links, m, v, layer);
      vt.Reset();
      ghost var inside := Present(links, layer, v);
      var top := SearchLayer(links, layer, Dists(vectors, dim, vec), ep, ef, vt, inside);
      TopFacts(links, layer, Dists(vectors, dim, vec), ep, Cap(ef), top, vt.visited);
      var chosen, good := SelectNeighbours(top, Limit(m, layer));
      ChosenFacts(vectors, dim, links, v, layer, top, Limit(m, layer), chosen, good, inside);
      var ids := Ids(chosen);
      Connect(v, ids, layer);
      assert FoundBySearch(old(links), vectors, dim, vec, ep, layer, Cap(ef), Limit(m, layer), ids);
      next := ep;
      if |chosen| > 0 {
        next := chosen[0].id;
      }
    }

    /** Walk down from the entry point to the first layer the node takes part in. */
    method Descend(v: nat, query: Vector, bottom: nat) returns (ep: nat)
      requires Navigable(links, m, v, entry, maxLevel) && PqLloyd.Matrix(vectors, dim) && |vectors| == |links| && |query| == dim
      requires forall l: nat :: Unlisted(links, v, l)
      ensures ep in Present(links, if bottom < maxLevel then bottom else maxLevel, v)
      ensures Descended(links, Dists(vectors, dim, query), entry, maxLevel, bottom, ep)
    {
      hide PqLloyd.Matrix, GoodGraph, Closed, Unlisted, Dists, GreedyWalk;
      ep := entry;
      var level := maxLevel;
      while level > bottom
        invariant level >= 0 && ep in Present(links, level, v)
        invariant level <= maxLevel && (level >= bottom || level == maxLevel)
        invariant Descended(links, Dists(vectors, dim, query), entry, maxLevel, level, ep)
        decreases level
      {
        PresentClosed(links, m, v, level);
        ghost var above, walk := ep, [];
        ep, walk := GreedyLower(links, level, Dists(vectors, dim, query), ep, Present(links, level, v));
        assert Descended(links, Dists(vectors, dim, query), entry, maxLevel, level - 1, ep);
        level := level - 1;
      }
    }

    /** Connect the new node layer by layer, from its highest shared layer down to 0. */
    method ConnectAll(v: nat, vec: Vector, start: nat, top: nat)
      requires m > 0 && PqLloyd.Matrix(vectors, dim) && |vectors| == |links| <= maxElements && GoodGraph(links, m)
      requires |vec| == dim && v < |links| && top < |links[v]| && start in Present(links, top, v)
      requires forall l: nat :: Unlisted(links, v, l)
      modifies this`links
      ensures GoodGraph(links, m) && Inserted(vectors, dim, old(links), links, v, vec, start, top, Cap(ef), m)
      ensures |links| == old(|links|)
    {
      hide PqLloyd.Matrix, GoodGraph, Unlisted, SameAt, SameShape, LayerDone, Untouched, DoneAbove, Connected,
           FoundBySearch;
      var vt := new VisitedTable(maxElements);
      var ep, level := start, top as int;
      ghost var before := links;
      StartLayers(vectors, dim, before, v, vec, start, top, Cap(ef), m);
      while level >= 0
        invariant |links| == |before| && -1 <= level <= top && vt.Valid() && |vt.marks| == maxElements && fresh(vt)
        invariant GoodGraph(links, m) && Untouched(before, links, level, top)
        invariant DoneAbove(vectors, dim, before, links, v, vec, start, level, top, Cap(ef), m)
        invariant level >= 0 ==> ep in Present(links, level, v) && ep == EntryAt(links, v, level, top, start)
        decreases level
      {
        ghost var mid := links;
        UntouchedFacts(before, links, level, top, v);
        ep := ConnectLayer(v, vec, ep, level, vt);
        LevelDone(vectors, dim, before, mid, links, v, vec, start, level, top, Cap(ef), m);
        SamePresent(mid, links, level, v);
        SameLength(mid, links);
        if level > 0 {
          EntryBelow(mid, links, v, level, top, start);
        }
        level := level - 1;
      }
      AllDone(vectors, dim, before, links, v, vec, start, top, Cap(ef), m);
    }

    /** Insert a vector under a new tag at the drawn level, or replace the vector of a known tag. */
    method Insert(vec: Vector, tag: nat, newLevel: nat) returns (r: Result<(), Error>)
      requires Valid() && |vec| == dim
      modifies this
      ensures Valid()
      ensures tag in old(lookup) ==>
        && r.Ok? && vectors == old(vectors)[old(lookup)[tag] := vec]
        && labels == old(labels) && links == old(links) && lookup == old(lookup)
        && maxLevel == old(maxLevel) && entry == old(entry)
      ensures tag !in old(lookup) && old(|labels|) == maxElements ==>
        && r == Err(CapacityExceeded) && vectors == old(vectors) && labels == old(labels) && links == old(links)
        && lookup == old(lookup) && maxLevel == old(maxLevel) && entry == old(entry)
      ensures tag !in old(lookup) && old(|labels|) < maxElements ==>
        && r.Ok? && vectors == old(vectors) + [vec] && labels == old(labels) + [tag]
        && lookup == old(lookup)[tag := old(|labels|)]
        && maxLevel == (if newLevel > old(maxLevel) then newLevel else old(maxLevel))
        && entry == (if newLevel > old(maxLevel) then old(|labels|) else old(entry))
        && SameShape(WithNode(old(links), newLevel), links)
        && (if old(|labels|) == 0 then links == WithNode([], newLevel)
            else exists ep: nat ::
              && Descended(WithNode(old(links), newLevel), Dists(vectors, dim, vec), old(entry), old(maxLevel),
                           newLevel, ep)
              && Inserted(vectors, dim, WithNode(old(links), newLevel), links, old(|labels|), vec, ep,
                          if newLevel < old(maxLevel) then newLevel else old(maxLevel), Cap(ef), m))
    {
      hide GoodGraph, Unlisted, Inserted, PqLloyd.Matrix, Labelled, Topped, SameShape, WithNode, Navigable;
      LookupFacts(labels, lookup);
      if tag in lookup {
        MatrixSet(vectors, dim, lookup[tag], vec);
        vectors := vectors[lookup[tag] := vec];
        return Ok(());
      }
      if |labels| >= maxElements {
        return Err(CapacityExceeded);
      }
      var v := |labels|;
      ghost var oldLinks := links;
      WithNodeGood(links, m, newLevel);
      WithNodeShape(links, m, newLevel, maxLevel, entry);
      MatrixAdd(vectors, dim, vec);
      LabelledAdds(labels, lookup, tag);
      lookup := lookup[tag := v];
      vectors, labels, links := vectors + [vec], labels + [tag], WithNode(links, newLevel);
      if v == 0 {
        ToppedAdds(oldLinks, links, newLevel, maxLevel, entry);
        assert oldLinks == [];
        entry, maxLevel := 0, newLevel;
        return Ok(());
      }
      var ep := Descend(v, vec, newLevel);
      var topLevel := maxLevel;
      ConnectAll(v, vec, ep, if newLevel < topLevel then newLevel else topLevel);
      InsertedShape(vectors, dim, WithNode(oldLinks, newLevel), links, v, vec, ep,
                    if newLevel < topLevel then newLevel else topLevel, Cap(ef), m);
      ToppedAdds(oldLinks, links, newLevel, maxLevel, entry);
      SameLength(WithNode(oldLinks, newLevel), links);
      if newLevel > maxLevel {
        entry, maxLevel := v, newLevel;
      }
      return Ok(());
    }

    /** The results with their labels, in the order of the pairs. */
    method WithLabels(top: seq<Cand>) returns (all: seq<Cand>)
      requires Labelled(labels, lookup) && Nodes(top, |labels|) && DistinctIds(top)
      ensures Ordered(all) && |all| == |top| && Relabelled(labels, top, all)
    {
      hide Labelled, DistinctIds, Push, Ordered;
      all := [];
      NothingOrdered();
      for i := 0 to |top|
        invariant Ordered(all) && |all| == i
        invariant forall y :: y in all <==> exists j :: 0 <= j < i && y == Cand(top[j].dist, labels[top[j].id])
      {
        var x := Cand(top[i].dist, labels[top[i].id]);
        forall j | 0 <= j < i ensures labels[top[j].id] != labels[top[i].id] {
          LabelsDiffer(labels, lookup, top, j, i);
        }
        PushOrdered(all, x);
        all := Push(all, x);
      }
    }

    /** The `k` first of the bottom layer's results in the order of distance and label. */
    method Search(query: Vector, k: nat, width: int)
      returns (found: seq<Cand>, ghost ep: nat, ghost top: seq<Cand>, ghost seen: set<nat>, ghost all: seq<Cand>)
      requires Valid() && |query| == dim
      ensures |links| == 0 ==> found == []
      ensures |links| > 0 ==>
        && Descended(links, Dists(vectors, dim, query), entry, maxLevel, 0, ep)
        && LayerFixedPoint(links, 0, Dists(vectors, dim, query), ep, Cap(if width > k then width else k), top, seen)
        && Nodes(top, |labels|) && Ordered(all) && |all| == |top| && Relabelled(labels, top, all)
        && found == all[..if k < |all| then k else |all|]
    {
      hide GoodGraph, PqLloyd.Matrix, Unlisted, LayerFixedPoint, Closed, Dists, Relabelled, Ordered, Labelled,
           DistinctIds;
      found, ep, top, seen, all := [], 0, [], {}, [];
      if |links| == 0 {
        return;
      }
      NoneListsBeyond(links, m);
      HasLayer(links, m, entry);
      var start := Descend(|links|, query, 0);
      var vt := new VisitedTable(maxElements);
      PresentClosed(links, m, |links|, 0);
      var beam := if width > k then width else k;
      var list := SearchLayer(links, 0, Dists(vectors, dim, query), start, beam, vt, Present(links, 0, |links|));
      top, seen, ep := list, vt.visited, start;
      TopFacts(links, 0, Dists(vectors, dim, query), ep, Cap(if width > k then width else k), list, vt.visited);
      var result := WithLabels(list);
      all := result;
      found := if |result| > k then result[..k] else result;
    }
  }

  lemma LookupFacts(labels: seq<nat>, lookup: map<nat, nat>)
    requires Labelled(labels, lookup)
    ensures forall x :: x in lookup ==> lookup[x] < |labels|
  {
  }

  lemma SameLength(a: Links, b: Links)
    requires SameShape(a, b)
    ensures |a| == |b|
  {
  }

  lemma WithNodeShape(links: Links, m: nat, level: nat, maxLevel: int, entry: nat)
    requires GoodGraph(links, m) && Topped(links, maxLevel, entry)
    ensures |WithNode(links, level)| == |links| + 1 && |WithNode(links, level)[|links|]| == level + 1 && maxLevel >= -1
    ensures SameShape(WithNode(links, level), WithNode(links, level))
    ensures |links| > 0 ==> maxLevel >= 0
    ensures |links| > 0 && GoodGraph(WithNode(links, level), m) ==>
      Navigable(WithNode(links, level), m, |links|, entry, maxLevel)
  {
  }

  /** `all` has the distance and label of every result, and nothing else. */
  ghost predicate Relabelled(labels: seq<nat>, top: seq<Cand>, all: seq<Cand>) {
    && Nodes(top, |labels|)
    && forall y :: y in all <==> exists j :: 0 <= j < |top| && y == Cand(top[j].dist, labels[top[j].id])
  }

  lemma NothingOrdered()
    ensures Ordered([])
  {
  }

  lemma LabelsDiffer(labels: seq<nat>, lookup: map<nat, nat>, top: seq<Cand>, i: nat, j: nat)
    requires Labelled(labels, lookup) && Nodes(top, |labels|) && DistinctIds(top) && i < j < |top|
    ensures labels[top[i].id] != labels[top[j].id]
  {
  }

  lemma HasLayer(links: Links, m: nat, v: nat)
    requires GoodGraph(links, m) && v < |links|
    ensures |links[v]| > 0
  {
  }

  lemma NoneListsBeyond(links: Links, m: nat)
    requires GoodGraph(links, m)
    ensures forall l: nat :: Unlisted(links, |links|, l)
  {
    forall u, l: nat | 0 <= u < |links| && l < |links[u]| ensures |links| !in links[u][l] {
      assert ListOk(links, u, l, Limit(m, l));
    }
  }

  /** The graph is right and its entry point, other than `v`, is on the top layer. */
  ghost predicate Navigable(links: Links, m: nat, v: nat, entry: nat, maxLevel: int) {
    && GoodGraph(links, m) && maxLevel >= 0 && entry < |links| && entry != v && |links[entry]| == maxLevel + 1
  }

  /**
    Where the greedy walks end that lead from `entry` down through the layers above `bottom`, one in
    each layer, each starting where the one above it ended.
   */
  ghost predicate Descended(links: Links, dists: seq<real>, entry: nat, maxLevel: int, bottom: nat, ep: nat)
    decreases maxLevel - bottom
  {
    if bottom >= maxLevel then ep == entry
    else
      var level := bottom + 1;
      exists from: nat :: Descended(links, dists, entry, maxLevel, level, from) && WalksTo(links, level, dists, from, ep)
  }

  /** The walks end at one node only, which is no farther than the entry point. */
  lemma {:induction false} DescentIsUnique(links: Links, dists: seq<real>, entry: nat, maxLevel: int, bottom: nat,
                                           ep: nat, ep': nat)
    requires Descended(links, dists, entry, maxLevel, bottom, ep) && Descended(links, dists, entry, maxLevel, bottom, ep')
    ensures ep == ep'
    ensures bottom < maxLevel ==> entry < |dists| && ep < |dists| && dists[ep] <= dists[entry]
    decreases maxLevel - bottom
  {
    hide GreedyWalk;
    if bottom < maxLevel {
      var from: nat :| Descended(links, dists, entry, maxLevel, bottom + 1, from)
        && WalksTo(links, bottom + 1, dists, from, ep);
      var from': nat :| Descended(links, dists, entry, maxLevel, bottom + 1, from')
        && WalksTo(links, bottom + 1, dists, from', ep');
      DescentIsUnique(links, dists, entry, maxLevel, bottom + 1, from, from');
      var walk :| GreedyWalk(links, bottom + 1, dists, from, walk, ep);
      var walk' :| GreedyWalk(links, bottom + 1, dists, from', walk', ep');
      GreedyWalkIsUnique(links, bottom + 1, dists, from, walk, ep, walk', ep');
      GreedyWalkComesCloser(links, bottom + 1, dists, from, walk, ep);
    }
  }

  /** Where the search of layer `l` starts: at the first neighbour chosen in the layer above, or at `start`. */
  function EntryAt(links: Links, v: nat, l: nat, top: nat, start: nat): nat {
    if l < top && v < |links| && l + 1 < |links[v]| && |links[v][l + 1]| > 0 then links[v][l + 1][0] else start
  }

  /** Layer `l` has been searched from the state before the insertion and connected. */
  ghost predicate LayerDone(vectors: seq<Vector>, dim: nat, before: Links, after: Links, v: nat, vec: Vector, ep: nat,
                            l: nat, cap: nat, m: nat)
    requires PqLloyd.Matrix(vectors, dim) && |vec| == dim
  {
    && v < |after| && l < |after[v]|
    && FoundBySearch(before, vectors, dim, vec, ep, l, cap, Limit(m, l), after[v][l])
    && Connected(vectors, dim, before, after, v, l, Limit(m, l))
  }

  /** Layers up to `top` have been searched, from `start` down, and connected; the layers above are as they were. */
  ghost predicate Inserted(vectors: seq<Vector>, dim: nat, before: Links, after: Links, v: nat, vec: Vector, start: nat,
                           top: nat, cap: nat, m: nat)
    requires PqLloyd.Matrix(vectors, dim) && |vec| == dim
  {
    && SameShape(before, after)
    && (forall l: nat :: l > top ==> SameAt(before, after, l))
    && (forall l: nat :: l <= top ==>
          LayerDone(vectors, dim, before, after, v, vec, EntryAt(after, v, l, top, start), l, cap, m))
  }

  lemma AllDone(vectors: seq<Vector>, dim: nat, before: Links, after: Links, v: nat, vec: Vector, start: nat, top: nat,
                cap: nat, m: nat)
    requires PqLloyd.Matrix(vectors, dim) && |vec| == dim && Untouched(before, after, -1, top)
    requires DoneAbove(vectors, dim, before, after, v, vec, start, -1, top, cap, m)
    ensures Inserted(vectors, dim, before, after, v, vec, start, top, cap, m)
  {
    hide LayerDone;
  }

  lemma InsertedShape(vectors: seq<Vector>, dim: nat, before: Links, after: Links, v: nat, vec: Vector, start: nat,
                      top: nat, cap: nat, m: nat)
    requires PqLloyd.Matrix(vectors, dim) && |vec| == dim
    requires Inserted(vectors, dim, before, after, v, vec, start, top, cap, m)
    ensures SameShape(before, after)
  {
  }

  /** Layers not yet reached, and those above the new node's top, are as they were. */
  ghost predicate Untouched(before: Links, after: Links, level: int, top: nat) {
    SameShape(before, after) && forall l: nat :: l <= level || l > top ==> SameAt(before, after, l)
  }

  ghost predicate DoneAbove(vectors: seq<Vector>, dim: nat, before: Links, after: Links, v: nat, vec: Vector,
                            start: nat, level: int, top: nat, cap: nat, m: nat)
    requires PqLloyd.Matrix(vectors, dim) && |vec| == dim
  {
    forall l: nat :: level < l <= top ==>
      LayerDone(vectors, dim, before, after, v, vec, EntryAt(after, v, l, top, start), l, cap, m)
  }

  lemma StartLayers(vectors: seq<Vector>, dim: nat, links: Links, v: nat, vec: Vector, start: nat, top: nat, cap: nat,
                    m: nat)
    requires PqLloyd.Matrix(vectors, dim) && |vec| == dim
    ensures Untouched(links, links, top, top) && DoneAbove(vectors, dim, links, links, v, vec, start, top, top, cap, m)
  {
  }

  lemma UntouchedFacts(before: Links, after: Links, level: nat, top: nat, v: nat)
    requires Untouched(before, after, level, top) && v < |before| && level < |before[v]| && Unlisted(before, v, level)
    ensures |after| == |before| && level < |after[v]| && Unlisted(after, v, level)
  {
    StillUnlisted(before, after, v, level);
  }

  lemma LevelDone(vectors: seq<Vector>, dim: nat, before: Links, mid: Links, after: Links, v: nat, vec: Vector,
                  start: nat, level: nat, top: nat, cap: nat, m: nat)
    requires PqLloyd.Matrix(vectors, dim) && |vec| == dim && level <= top && v < |mid| && level < |mid[v]|
    requires Untouched(before, mid, level, top) && DoneAbove(vectors, dim, before, mid, v, vec, start, level, top, cap, m)
    requires SameShape(mid, after) && forall l: nat :: l != level ==> SameAt(mid, after, l)
    requires Connected(vectors, dim, mid, after, v, level, Limit(m, level))
    requires FoundBySearch(mid, vectors, dim, vec, EntryAt(mid, v, level, top, start), level, cap, Limit(m, level),
                           after[v][level])
    ensures Untouched(before, after, level - 1, top)
    ensures DoneAbove(vectors, dim, before, after, v, vec, start, level - 1, top, cap, m)
  {
    hide Connected, FoundBySearch, LayerDone, PqLloyd.Matrix, SameAt, Limit, EntryAt;
    forall l: nat | level <= l ensures EntryAt(after, v, l, top, start) == EntryAt(mid, v, l, top, start) {
      SameEntry(mid, after, v, l, top, start);
    }
    LayerIsDone(vectors, dim, before, mid, after, v, vec, EntryAt(mid, v, level, top, start), level, cap, m);
    forall l: nat | l < level || l > top ensures SameAt(before, after, l) {
      SameAtTrans(before, mid, after, l);
    }
    forall l: nat | level < l <= top
      ensures LayerDone(vectors, dim, before, after, v, vec, EntryAt(after, v, l, top, start), l, cap, m)
    {
      LayerStaysDone(vectors, dim, before, mid, after, v, vec, EntryAt(mid, v, l, top, start), l, cap, m);
    }
  }

  lemma EntryBelow(before: Links, after: Links, v: nat, l: nat, top: nat, start: nat)
    requires SameShape(before, after) && v < |before| && l < |before[v]| && 0 < l <= top
    ensures l < |after[v]|
    ensures |after[v][l]| > 0 ==> EntryAt(after, v, l - 1, top, start) == after[v][l][0]
  {
  }

  lemma SameEntry(a: Links, b: Links, v: nat, l: nat, top: nat, start: nat)
    requires SameAt(a, b, l + 1)
    ensures EntryAt(b, v, l, top, start) == EntryAt(a, v, l, top, start)
  {
  }

  lemma StillUnlisted(before: Links, after: Links, v: nat, l: nat)
    requires SameAt(before, after, l) && Unlisted(before, v, l)
    ensures Unlisted(after, v, l)
  {
  }

  lemma SameAtTrans(a: Links, b: Links, c: Links, l: nat)
    requires SameAt(a, b, l) && SameAt(b, c, l)
    ensures SameAt(a, c, l)
  {
  }

  lemma SamePresent(a: Links, b: Links, l: nat, v: nat)
    requires SameShape(a, b)
    ensures Present(a, l, v) == Present(b, l, v)
    ensures l > 0 ==> Present(b, l, v) <= Present(b, l - 1, v)
  {
  }

  /** What was found in a layer that had not been touched was found in the state before the insertion. */
  lemma FoundBefore(before: Links, mid: Links, vectors: seq<Vector>, dim: nat, vec: Vector, ep: nat, l: nat, cap: nat,
                    limit: nat, list: seq<nat>)
    requires PqLloyd.Matrix(vectors, dim) && |vec| == dim && SameAt(before, mid, l)
    requires FoundBySearch(mid, vectors, dim, vec, ep, l, cap, limit, list)
    ensures FoundBySearch(before, vectors, dim, vec, ep, l, cap, limit, list)
  {
    hide Selected, Heap, Covers, Dists, PqLloyd.Matrix, ReachedFrom, Expansion;
    var top: seq<Cand>, seen: set<nat>, chosen: seq<Cand>, good: nat :|
      && LayerFixedPoint(mid, l, Dists(vectors, dim, vec), ep, cap, top, seen)
      && Nodes(top, |vectors|) && Selected(vectors, dim, top, limit, chosen, good) && list == Ids(chosen);
    forall t | t in top ensures Opened(before, l, seen, t.id) {
      assert Opened(mid, l, seen, t.id);
    }
    ReachedBefore(before, mid, l, ep, seen);
    var order :| Expansion(mid, l, Dists(vectors, dim, vec), ep, cap, order, seen);
    ExpandedBefore(before, mid, l, Dists(vectors, dim, vec), ep, cap, order, seen);
    assert LayerFixedPoint(before, l, Dists(vectors, dim, vec), ep, cap, top, seen);
  }

  lemma ReachedBefore(before: Links, mid: Links, l: nat, ep: nat, seen: set<nat>)
    requires SameAt(before, mid, l) && ReachedFrom(mid, l, ep, seen)
    ensures ReachedFrom(before, l, ep, seen)
  {
    hide Neighbours;
    forall w, u ensures Neighbours(mid, l, w, u) == Neighbours(before, l, w, u) {
      SameNeighbours(before, mid, l, w, u);
    }
    var trail: seq<nat> :| Trail(mid, l, ep, trail) && ToSet(trail) == seen;
    assert Trail(before, l, ep, trail);
  }

  lemma ExpandedBefore(before: Links, mid: Links, l: nat, dists: seq<real>, ep: nat, cap: nat, order: seq<nat>,
                       seen: set<nat>)
    requires SameAt(before, mid, l) && Expansion(mid, l, dists, ep, cap, order, seen)
    ensures Expansion(before, l, dists, ep, cap, order, seen)
  {
    forall k: nat, u: nat | k <= |order| ensures SeenBy(mid, l, ep, order, k, u) == SeenBy(before, l, ep, order, k, u) {
      SeenBefore(before, mid, l, ep, order, k, u);
    }
    hide SeenBy, SameAt;
    forall k | 0 <= k < |order| ensures BestAt(before, l, dists, ep, cap, order, k) {
      assert BestAt(mid, l, dists, ep, cap, order, k);
      assert Ahead(before, l, dists, ep, order, k, order[k]) == Ahead(mid, l, dists, ep, order, k, order[k]);
    }
    assert forall u: nat :: u < |dists| ==> NoFarther(before, l, dists, ep, order, u) == NoFarther(mid, l, dists, ep, order, u);
  }

  lemma SeenBefore(before: Links, mid: Links, l: nat, ep: nat, order: seq<nat>, k: nat, u: nat)
    requires SameAt(before, mid, l) && k <= |order|
    ensures SeenBy(mid, l, ep, order, k, u) == SeenBy(before, l, ep, order, k, u)
  {
    hide Neighbours;
    forall j | 0 <= j < k ensures Neighbours(mid, l, order[j], u) == Neighbours(before, l, order[j], u) {
      SameNeighbours(before, mid, l, order[j], u);
    }
  }

  lemma SameNeighbours(before: Links, mid: Links, l: nat, w: nat, u: nat)
    requires SameAt(before, mid, l)
    ensures Neighbours(mid, l, w, u) == Neighbours(before, l, w, u)
  {
  }

  lemma LayerIsDone(vectors: seq<Vector>, dim: nat, before: Links, mid: Links, after: Links, v: nat, vec: Vector,
                    ep: nat, l: nat, cap: nat, m: nat)
    requires PqLloyd.Matrix(vectors, dim) && |vec| == dim && SameAt(before, mid, l) && v < |after| && l < |after[v]|
    requires FoundBySearch(mid, vectors, dim, vec, ep, l, cap, Limit(m, l), after[v][l])
    requires Connected(vectors, dim, mid, after, v, l, Limit(m, l))
    ensures LayerDone(vectors, dim, before, after, v, vec, ep, l, cap, m)
  {
    hide FoundBySearch, Relinked, PqLloyd.Matrix;
    FoundBefore(before, mid, vectors, dim, vec, ep, l, cap, Limit(m, l), after[v][l]);
  }

  lemma LayerStaysDone(vectors: seq<Vector>, dim: nat, before: Links, mid: Links, after: Links, v: nat, vec: Vector,
                       ep: nat, l: nat, cap: nat, m: nat)
    requires PqLloyd.Matrix(vectors, dim) && |vec| == dim && SameAt(mid, after, l)
    requires LayerDone(vectors, dim, before, mid, v, vec, ep, l, cap, m)
    ensures LayerDone(vectors, dim, before, after, v, vec, ep, l, cap, m)
  {
    hide FoundBySearch, Relinked, PqLloyd.Matrix;
  }

  lemma MatrixAdd(vectors: seq<Vector>, dim: nat, vec: Vector)
    requires PqLloyd.Matrix(vectors, dim) && |vec| == dim
    ensures PqLloyd.Matrix(vectors + [vec], dim)
  {
  }

  lemma MatrixSet(vectors: seq<Vector>, dim: nat, i: nat, vec: Vector)
    requires PqLloyd.Matrix(vectors, dim) && |vec| == dim && i < |vectors|
    ensures PqLloyd.Matrix(vectors[i := vec], dim)
  {
  }

  lemma ConnectingFacts(vectors: seq<Vector>, dim: nat, before: Links, links: Links, m: nat, v: nat, layer: nat,
                        ids: seq<nat>, i: nat)
    requires PqLloyd.Matrix(vectors, dim) && GoodGraph(links, m) && i < |ids|
    requires Connecting(vectors, dim, before, links, v, layer, Limit(m, layer), ids, i) && CanList(before, v, layer, ids)
    ensures var u := ids[i];
      && u < |links| == |vectors| && layer < |links[u]| && v < |links|
      && forall k :: 0 <= k < |links[u][layer]| ==> links[u][layer][k] < |vectors|
  {
    hide Relinked;
    ListAt(links, m, ids[i], layer);
  }

  lemma MakeRelinked(vectors: seq<Vector>, dim: nat, before: seq<nat>, after: seq<nat>, u: nat, v: nat, limit: nat)
    requires PqLloyd.Matrix(vectors, dim) && u < |vectors| && v < |vectors|
    requires forall i :: 0 <= i < |before| ==> before[i] < |vectors|
    requires if |before| < limit then after == before + [v] else exists w :: ReplacesWorst(vectors, dim, before, after, u, v, w)
    ensures Relinked(vectors, dim, before, after, u, v, limit)
  {
  }

  lemma TopFacts(links: Links, layer: nat, dists: seq<real>, ep: nat, cap: nat, top: seq<Cand>, seen: set<nat>)
    requires LayerFixedPoint(links, layer, dists, ep, cap, top, seen)
    ensures |top| > 0 && DistinctIds(top) && Nodes(top, |dists|) && forall c :: c in top ==> c.id in seen
  {
    hide Opened;
    forall i, j | 0 <= i < j < |top| ensures top[i].id != top[j].id {
      assert Less(top[i], top[j]);
    }
  }

  lemma ChosenFacts(vectors: seq<Vector>, dim: nat, links: Links, v: nat, layer: nat, top: seq<Cand>, limit: nat,
                    chosen: seq<Cand>, good: nat, inside: set<nat>)
    requires PqLloyd.Matrix(vectors, dim) && Nodes(top, |vectors|) && Selected(vectors, dim, top, limit, chosen, good)
    requires (forall c :: c in top ==> c.id in inside) && inside == Present(links, layer, v) && |top| > 0 && limit > 0
    ensures CanList(links, v, layer, Ids(chosen)) && |chosen| <= limit && |chosen| > 0 && chosen[0].id in inside
  {
    hide Spread, Shadowed, ByDist, PqLloyd.Matrix;
    forall i | 0 <= i < |chosen| ensures chosen[i].id in inside {
      assert chosen[i] in top;
    }
  }

  lemma FullIsLimit(list: seq<Cand>, n: nat, limit: nat, kept: seq<Cand>, chosen: seq<Cand>)
    requires Filled(list, n, limit, kept, chosen) && |chosen| >= limit
    ensures |chosen| == limit
  {
  }

  lemma KeptFacts(vectors: seq<Vector>, dim: nat, list: seq<Cand>, limit: nat, kept: seq<Cand>)
    requires PqLloyd.Matrix(vectors, dim) && Nodes(list, |vectors|) && Kept(vectors, dim, list, |list|, limit, kept)
    ensures |kept| <= limit && DistinctIds(kept) && forall c :: c in kept ==> c in list
  {
  }
}
