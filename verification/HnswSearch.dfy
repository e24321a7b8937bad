/**
  Searching one layer of the HNSW graph of src/hnsw.cc: the visited table with its wrapping
  epoch, the two-heap beam search, and the greedy walk of the upper layers.
 */
module HnswSearch {
  import opened Common

  // ---------- The visited table ----------

  const EPOCHS: nat := 0x1_0000

  class VisitedTable {
    var marks: seq<nat>
    var epoch: nat
    ghost var visited: set<nat>

    ghost predicate Valid()
      reads this
    {
      && 0 < epoch < EPOCHS && (forall v :: 0 <= v < |marks| ==> marks[v] <= epoch)
      && (forall v :: v in visited <==> 0 <= v < |marks| && marks[v] == epoch)
    }

    constructor (n: nat)
      ensures Valid() && |marks| == n && visited == {}
    {
      marks, epoch, visited := seq(n, _ => 0), 1, {};
    }

    /** Mark a node; true if it was marked since the last reset. */
    method Visit(v: nat) returns (seen: bool)
      requires Valid() && v < |marks|
      modifies this
      ensures Valid() && |marks| == old(|marks|)
      ensures seen == (v in old(visited)) && visited == old(visited) + {v}
    {
      seen := marks[v] == epoch;
      marks := marks[v := epoch];
      visited := visited + {v};
    }

    /** Forget all marks, also when the 16-bit epoch wraps around. */
    method Reset()
      requires Valid()
      modifies this
      ensures Valid() && |marks| == old(|marks|) && visited == {}
    {
      epoch := (epoch + 1) % EPOCHS;
      if epoch == 0 {
        marks := seq(|marks|, _ => 0);
        epoch := 1;
      }
      visited := {};
    }
  }

  // ---------- Heaps of candidates ----------

  datatype Cand = Cand(dist: real, id: nat)

  /** The order of the pairs in both heaps. */
  predicate Less(a: Cand, b: Cand) {
    a.dist < b.dist || (a.dist == b.dist && a.id < b.id)
  }

  ghost predicate Ordered(s: seq<Cand>) {
    forall i, j :: 0 <= i < j < |s| ==> Less(s[i], s[j])
  }

  /** A heap as the ascending list of its entries. */
  function Push(s: seq<Cand>, x: Cand): (t: seq<Cand>)
    ensures |t| == |s| + 1 && forall y :: y in t <==> y in s || y == x
  {
    if |s| == 0 || Less(s[|s| - 1], x) then
      InAppend(s, x);
      s + [x]
    else
      var rest, last := s[..|s| - 1], s[|s| - 1];
      InAppend(rest, last);
      assert s == rest + [last];
      InAppend(Push(rest, x), last);
      Push(rest, x) + [last]
  }

  lemma {:induction false} PushOrdered(s: seq<Cand>, x: Cand)
    requires Ordered(s) && x !in s
    ensures Ordered(Push(s, x))
  {
    if |s| > 0 && !Less(s[|s| - 1], x) {
      var rest, last := s[..|s| - 1], s[|s| - 1];
      assert last in s;
      PushOrdered(rest, x);
      var t := Push(rest, x);
      forall i | 0 <= i < |t| ensures Less(t[i], last) {
        assert t[i] in t;
      }
    }
  }

  /** The entry of a node. */
  function Entry(dists: seq<real>, u: nat): Cand
    requires u < |dists|
  {
    Cand(dists[u], u)
  }

  /** The heap holds entries of seen nodes, in order. */
  ghost predicate Heap(s: seq<Cand>, dists: seq<real>, seen: set<nat>) {
    && Ordered(s)
    && forall i :: 0 <= i < |s| ==> s[i].id < |dists| && s[i] == Entry(dists, s[i].id) && s[i].id in seen
  }

  lemma HeapPush(s: seq<Cand>, dists: seq<real>, seen: set<nat>, u: nat)
    requires Heap(s, dists, seen) && u < |dists| && u !in seen
    ensures Heap(Push(s, Entry(dists, u)), dists, seen + {u})
  {
    var x := Entry(dists, u);
    PushOrdered(s, x);
    var t := Push(s, x);
    forall i | 0 <= i < |t| ensures t[i].id < |dists| && t[i] == Entry(dists, t[i].id) && t[i].id in seen + {u} {
      assert t[i] in t;
    }
  }

  // ---------- Layers ----------

  type Links = seq<seq<seq<nat>>>

  /** The nodes of `inside` have lists at this layer, and the lists stay inside. */
  ghost predicate Closed(links: Links, layer: nat, inside: set<nat>) {
    forall u :: u in inside ==>
      && u < |links| && layer < |links[u]|
      && forall i :: 0 <= i < |links[u][layer]| ==> links[u][layer][i] in inside
  }

  /** All neighbours of `u` have been seen. */
  ghost predicate Opened(links: Links, layer: nat, seen: set<nat>, u: nat) {
    && u < |links| && layer < |links[u]|
    && forall i :: 0 <= i < |links[u][layer]| ==> links[u][layer][i] in seen
  }

  /** Every seen node is in the result, or no closer than the last entry of a full result. */
  ghost predicate Covers(top: seq<Cand>, dists: seq<real>, cap: nat, seen: set<nat>) {
    && 0 < |top| <= cap
    && forall u :: u in seen ==>
         u < |dists| && (Entry(dists, u) in top || (|top| == cap && dists[u] >= top[|top| - 1].dist))
  }

  /** Every result waits as a candidate, or its neighbours have been seen; `open` may be halfway. */
  ghost predicate Explored(top: seq<Cand>, cands: seq<Cand>, links: Links, layer: nat, seen: set<nat>, open: set<nat>) {
    forall t :: t in top && t.id !in open ==> t in cands || Opened(links, layer, seen, t.id)
  }

  predicate Neighbours(links: Links, layer: nat, w: nat, u: nat) {
    w < |links| && layer < |links[w]| && u in links[w][layer]
  }

  /** Nodes in an order in which each but the first, `ep`, is a neighbour of an earlier one. */
  ghost predicate Trail(links: Links, layer: nat, ep: nat, trail: seq<nat>) {
    && |trail| > 0 && trail[0] == ep
    && forall k :: 0 < k < |trail| ==> exists j :: 0 <= j < k && Neighbours(links, layer, trail[j], trail[k])
  }

  /** The seen nodes were seen one after another, each from one seen before. */
  ghost predicate ReachedFrom(links: Links, layer: nat, ep: nat, seen: set<nat>) {
    exists trail: seq<nat> :: Trail(links, layer, ep, trail) && ToSet(trail) == seen
  }

  lemma ReachedStart(links: Links, layer: nat, ep: nat)
    ensures ReachedFrom(links, layer, ep, {ep})
  {
    assert Trail(links, layer, ep, [ep]) && ToSet([ep]) == {ep};
  }

  lemma ReachedStep(links: Links, layer: nat, ep: nat, seen: set<nat>, w: nat, u: nat)
    requires ReachedFrom(links, layer, ep, seen) && w in seen && Neighbours(links, layer, w, u)
    ensures ReachedFrom(links, layer, ep, seen + {u})
  {
    var trail: seq<nat> :| Trail(links, layer, ep, trail) && ToSet(trail) == seen;
    var more := trail + [u];
    InAppend(trail, u);
    assert ToSet(more) == seen + {u};
    assert w in trail;
    var i :| 0 <= i < |trail| && trail[i] == w;
    forall k | 0 < k < |more| ensures exists j :: 0 <= j < k && Neighbours(links, layer, more[j], more[k]) {
      if k < |trail| {
        var j :| 0 <= j < k && Neighbours(links, layer, trail[j], trail[k]);
        assert Neighbours(links, layer, more[j], more[k]);
      } else {
        assert Neighbours(links, layer, more[i], more[k]);
      }
    }
    assert Trail(links, layer, ep, more);
  }

  /** A walk along the links of one layer. */
  ghost predicate Walk(links: Links, layer: nat, walk: seq<nat>) {
    |walk| > 0 && forall i :: 0 <= i < |walk| - 1 ==> Neighbours(links, layer, walk[i], walk[i + 1])
  }

  lemma {:induction false} TrailHasWalk(links: Links, layer: nat, ep: nat, trail: seq<nat>, k: nat)
    returns (walk: seq<nat>)
    requires Trail(links, layer, ep, trail) && k < |trail|
    ensures Walk(links, layer, walk) && walk[0] == ep && walk[|walk| - 1] == trail[k]
    decreases k
  {
    if k == 0 {
      walk := [ep];
    } else {
      var j :| 0 <= j < k && Neighbours(links, layer, trail[j], trail[k]);
      walk := TrailHasWalk(links, layer, ep, trail, j);
      walk := walk + [trail[k]];
    }
  }

  lemma {:induction false} WalkStaysSeen(links: Links, layer: nat, seen: set<nat>, walk: seq<nat>)
    requires Walk(links, layer, walk) && walk[0] in seen && forall u :: u in seen ==> Opened(links, layer, seen, u)
    ensures walk[|walk| - 1] in seen
    decreases |walk|
  {
    if |walk| > 1 {
      var n := |walk| - 2;
      WalkStaysSeen(links, layer, seen, walk[..n + 1]);
      assert Opened(links, layer, seen, walk[n]) && Neighbours(links, layer, walk[n], walk[n + 1]);
    }
  }

  /** A search that does not fill its result finds exactly the nodes that can be reached from `ep`. */
  lemma UnfilledFindsReachable(links: Links, layer: nat, dists: seq<real>, ep: nat, cap: nat, top: seq<Cand>,
                               seen: set<nat>, u: nat)
    requires LayerFixedPoint(links, layer, dists, ep, cap, top, seen) && |top| < cap
    ensures (u < |dists| && Entry(dists, u) in top)
      <==> exists walk: seq<nat> :: Walk(links, layer, walk) && walk[0] == ep && walk[|walk| - 1] == u
  {
    hide Opened;
    assert forall w :: w in seen ==> w < |dists| && Entry(dists, w) in top;
    if u < |dists| && Entry(dists, u) in top {
      var i :| 0 <= i < |top| && top[i] == Entry(dists, u);
      var trail: seq<nat> :| Trail(links, layer, ep, trail) && ToSet(trail) == seen;
      assert u in trail;
      var k :| 0 <= k < |trail| && trail[k] == u;
      var walk := TrailHasWalk(links, layer, ep, trail, k);
    }
    forall w | w in seen ensures Opened(links, layer, seen, w) {
      assert Opened(links, layer, seen, Entry(dists, w).id);
    }
    forall walk: seq<nat> | Walk(links, layer, walk) && walk[0] == ep && walk[|walk| - 1] == u ensures u in seen {
      WalkStaysSeen(links, layer, seen, walk);
    }
  }

  // ---------- The order of the search ----------

  /** `u` has been seen after the first `k` nodes of `order` were expanded. */
  ghost predicate SeenBy(links: Links, layer: nat, ep: nat, order: seq<nat>, k: nat, u: nat)
    requires k <= |order|
  {
    u == ep || exists j :: 0 <= j < k && Neighbours(links, layer, order[j], u)
  }

  /** The seen nodes that are closer than `v`. */
  ghost function Ahead(links: Links, layer: nat, dists: seq<real>, ep: nat, order: seq<nat>, k: nat, v: nat): set<nat>
    requires k <= |order| && v < |dists|
  {
    set u: nat | u < |dists| && SeenBy(links, layer, ep, order, k, u) && dists[u] < dists[v]
  }

  /** The other seen nodes that are no farther than `v`. */
  ghost function NoFarther(links: Links, layer: nat, dists: seq<real>, ep: nat, order: seq<nat>, v: nat): set<nat>
    requires v < |dists|
  {
    set u: nat | u < |dists| && SeenBy(links, layer, ep, order, |order|, u) && u != v && dists[u] <= dists[v]
  }

  /**
    Expansion `k` takes a closest one of the nodes seen but not yet expanded, to which fewer than `cap`
    seen nodes are preferred.
   */
  ghost predicate BestAt(links: Links, layer: nat, dists: seq<real>, ep: nat, cap: nat, order: seq<nat>, k: nat)
    requires k < |order|
  {
    var v := order[k];
    && v < |dists| && SeenBy(links, layer, ep, order, k, v) && v !in order[..k]
    && |Ahead(links, layer, dists, ep, order, k, v)| < cap
    && forall u: nat :: u < |dists| && SeenBy(links, layer, ep, order, k, u) && u !in order[..k] ==> dists[u] >= dists[v]
  }

  ghost predicate BestFirst(links: Links, layer: nat, dists: seq<real>, ep: nat, cap: nat, order: seq<nat>) {
    forall k :: 0 <= k < |order| ==> BestAt(links, layer, dists, ep, cap, order, k)
  }

  /** To whatever has been seen but not expanded, at least `cap` other seen nodes are no worse. */
  ghost predicate Finished(links: Links, layer: nat, dists: seq<real>, ep: nat, cap: nat, order: seq<nat>) {
    forall u: nat :: u < |dists| && SeenBy(links, layer, ep, order, |order|, u) && u !in order ==>
      |NoFarther(links, layer, dists, ep, order, u)| >= cap
  }

  /** The nodes were expanded best first in this order, and `seen` is what was seen of it. */
  ghost predicate Expansion(links: Links, layer: nat, dists: seq<real>, ep: nat, cap: nat, order: seq<nat>,
                            seen: set<nat>) {
    && BestFirst(links, layer, dists, ep, cap, order) && Finished(links, layer, dists, ep, cap, order)
    && forall u: nat :: u in seen <==> SeenBy(links, layer, ep, order, |order|, u)
  }

  lemma SameSeenBy(links: Links, layer: nat, ep: nat, a: seq<nat>, b: seq<nat>, k: nat, u: nat)
    requires k <= |a| && k <= |b| && a[..k] == b[..k]
    ensures SeenBy(links, layer, ep, a, k, u) == SeenBy(links, layer, ep, b, k, u)
  {
    assert forall j :: 0 <= j < k ==> a[j] == a[..k][j] == b[..k][j] == b[j];
  }

  lemma BestGrows(links: Links, layer: nat, dists: seq<real>, ep: nat, cap: nat, order: seq<nat>, x: nat)
    requires BestFirst(links, layer, dists, ep, cap, order) && BestAt(links, layer, dists, ep, cap, order + [x], |order|)
    ensures BestFirst(links, layer, dists, ep, cap, order + [x])
  {
    hide SeenBy;
    var more := order + [x];
    forall k | 0 <= k < |order| ensures BestAt(links, layer, dists, ep, cap, more, k) {
      assert BestAt(links, layer, dists, ep, cap, order, k);
      assert more[..k] == order[..k];
      forall u ensures SeenBy(links, layer, ep, more, k, u) == SeenBy(links, layer, ep, order, k, u) {
        SameSeenBy(links, layer, ep, more, order, k, u);
      }
      assert Ahead(links, layer, dists, ep, more, k, order[k]) == Ahead(links, layer, dists, ep, order, k, order[k]);
    }
  }

  /**
    Every seen node has been expanded, waits as a candidate, or was passed over: it is not in the
    result, which is full, and no closer than its last entry.
   */
  ghost predicate Waiting(top: seq<Cand>, cands: seq<Cand>, dists: seq<real>, cap: nat, seen: set<nat>, order: seq<nat>) {
    && (forall u :: u in seen ==>
          u < |dists| && (u in order || Entry(dists, u) in cands || PassedOver(top, cap, Entry(dists, u))))
    && (forall c :: c in cands ==> c.id !in order) && (forall u :: u in order ==> u in seen)
  }

  ghost predicate PassedOver(top: seq<Cand>, cap: nat, x: Cand) {
    |top| > 0 && |top| == cap && x.dist >= top[|top| - 1].dist && x !in top
  }

  lemma WaitingAdmits(top: seq<Cand>, cands: seq<Cand>, dists: seq<real>, ef: int, seen: set<nat>, order: seq<nat>, u: nat)
    requires Waiting(top, cands, dists, Cap(ef), seen, order) && Heap(top, dists, seen) && 0 < |top| <= Cap(ef)
    requires u < |dists| && u !in seen
    ensures var x := Entry(dists, u);
      if |top| < ef || dists[u] < top[|top| - 1].dist then
        var top' := if |top| + 1 > ef then Push(top, x)[..|top|] else Push(top, x);
        Waiting(top', Push(cands, x), dists, Cap(ef), seen + {u}, order)
      else Waiting(top, cands, dists, Cap(ef), seen + {u}, order)
  {
    hide Push;
    var x := Entry(dists, u);
    if |top| < ef || dists[u] < top[|top| - 1].dist {
      var top' := if |top| + 1 > ef then Push(top, x)[..|top|] else Push(top, x);
      HeapPush(top, dists, seen, u);
      if |top| + 1 > ef {
        LastIsDropped(top, Push(top, x), x);
      }
      forall y | PassedOver(top, Cap(ef), y) && y != x ensures PassedOver(top', Cap(ef), y) {
        assert y !in Push(top, x);
      }
    }
  }

  /** The closest candidate, not beyond a full result, is the best node to expand. */
  lemma CandidateIsBest(links: Links, layer: nat, dists: seq<real>, ep: nat, cap: nat, top: seq<Cand>, cands: seq<Cand>,
                        seen: set<nat>, order: seq<nat>)
    requires Waiting(top, cands, dists, cap, seen, order) && Heap(top, dists, seen) && Heap(cands, dists, seen)
    requires Covers(top, dists, cap, seen) && |cands| > 0
    requires forall u: nat :: u in seen <==> SeenBy(links, layer, ep, order, |order|, u)
    requires |top| == cap ==> cands[0].dist <= top[|top| - 1].dist
    ensures BestAt(links, layer, dists, ep, cap, order + [cands[0].id], |order|)
  {
    hide SeenBy;
    var v, more := cands[0].id, order + [cands[0].id];
    assert cands[0] in cands && v in seen && v !in order && dists[v] == cands[0].dist;
    assert more[..|order|] == order == order[..|order|];
    forall u ensures SeenBy(links, layer, ep, more, |order|, u) == SeenBy(links, layer, ep, order, |order|, u) {
      SameSeenBy(links, layer, ep, more, order, |order|, u);
    }
    forall u | u in seen && u !in order ensures dists[u] >= dists[v] {
      if Entry(dists, u) in cands {
        var i :| 0 <= i < |cands| && cands[i] == Entry(dists, u);
      }
    }
    FewAhead(links, layer, dists, cap, top, seen, v, Ahead(links, layer, dists, ep, more, |order|, v));
  }

  function Ids(cands: seq<Cand>): (ids: seq<nat>)
    ensures |ids| == |cands| && forall i :: 0 <= i < |cands| ==> ids[i] == cands[i].id
  {
    seq(|cands|, i requires 0 <= i < |cands| => cands[i].id)
  }

  lemma HeapIds(top: seq<Cand>, dists: seq<real>, seen: set<nat>)
    requires Heap(top, dists, seen)
    ensures |ToSet(Ids(top))| == |top|
    ensures forall u: nat :: u in ToSet(Ids(top)) <==> u < |dists| && Entry(dists, u) in top
    ensures forall u :: u in ToSet(Ids(top)) ==> u in seen
  {
    var ids := Ids(top);
    NoDupCardinality(ids);
    forall u | u in ToSet(ids) ensures u < |dists| && Entry(dists, u) in top && u in seen {
      var i :| 0 <= i < |top| && ids[i] == u;
      assert top[i] in top;
    }
    forall u: nat | u < |dists| && Entry(dists, u) in top ensures u in ToSet(ids) {
      var i :| 0 <= i < |top| && top[i] == Entry(dists, u);
      assert ids[i] == u;
    }
  }

  lemma OneFewer(few: set<nat>, out: nat, all: set<nat>)
    requires few <= all && out in all && out !in few
    ensures |few| < |all|
  {
    assert all == few + {out} + (all - few - {out});
  }

  lemma FewAhead(links: Links, layer: nat, dists: seq<real>, cap: nat, top: seq<Cand>, seen: set<nat>, v: nat,
                 ahead: set<nat>)
    requires Heap(top, dists, seen) && Covers(top, dists, cap, seen) && v in seen && v < |dists|
    requires |top| == cap ==> dists[v] <= top[|top| - 1].dist
    requires forall u :: u in ahead ==> u in seen && u < |dists| && dists[u] < dists[v]
    ensures |ahead| < cap
  {
    HeapIds(top, dists, seen);
    var ids := ToSet(Ids(top));
    var last := top[|top| - 1];
    assert last in top && last == Entry(dists, last.id);
    OneFewer(ahead, if |top| == cap then last.id else v, ids);
  }

  /** When the search stops, what has not been expanded is no better than a full result. */
  lemma StopIsFinished(links: Links, layer: nat, dists: seq<real>, ep: nat, cap: nat, top: seq<Cand>, cands: seq<Cand>,
                       seen: set<nat>, order: seq<nat>)
    requires Waiting(top, cands, dists, cap, seen, order) && Heap(top, dists, seen) && Heap(cands, dists, seen)
    requires Covers(top, dists, cap, seen)
    requires forall u: nat :: u in seen <==> SeenBy(links, layer, ep, order, |order|, u)
    requires |cands| > 0 ==> |top| == cap && cands[0].dist > top[|top| - 1].dist
    ensures Finished(links, layer, dists, ep, cap, order)
  {
    hide SeenBy;
    forall u: nat | u < |dists| && SeenBy(links, layer, ep, order, |order|, u) && u !in order
      ensures |NoFarther(links, layer, dists, ep, order, u)| >= cap
    {
      if Entry(dists, u) in cands {
        var i :| 0 <= i < |cands| && cands[i] == Entry(dists, u);
        assert dists[u] >= cands[0].dist;
        LastIsFarthest(top, Entry(dists, u));
      }
      FullResult(dists, cap, top, seen, u, NoFarther(links, layer, dists, ep, order, u));
    }
  }

  lemma LastIsFarthest(top: seq<Cand>, x: Cand)
    requires Ordered(top) && |top| > 0 && x.dist > top[|top| - 1].dist
    ensures x !in top
  {
  }

  lemma FullResult(dists: seq<real>, cap: nat, top: seq<Cand>, seen: set<nat>, u: nat, others: set<nat>)
    requires Heap(top, dists, seen) && u < |dists| && PassedOver(top, cap, Entry(dists, u))
    requires forall w :: w in seen && w < |dists| && w != u && dists[w] <= dists[u] ==> w in others
    ensures |others| >= cap
  {
    HeapIds(top, dists, seen);
    var ids := ToSet(Ids(top));
    forall w | w in ids ensures w in others {
      var i :| 0 <= i < |top| && top[i] == Entry(dists, w);
    }
    assert others == ids + (others - ids);
  }

  function Cap(ef: int): nat {
    if ef < 1 then 1 else ef
  }

  /**
    What was seen was reached from `ep`, and the result is closed: every neighbour of a result is a
    result, or no closer than a full result's last entry.
   */
  ghost predicate LayerFixedPoint(links: Links, layer: nat, dists: seq<real>, ep: nat, cap: nat, top: seq<Cand>,
                                  seen: set<nat>) {
    && Heap(top, dists, seen) && Covers(top, dists, cap, seen) && ep in seen && ReachedFrom(links, layer, ep, seen)
    && (forall t :: t in top ==> Opened(links, layer, seen, t.id))
    && exists order :: Expansion(links, layer, dists, ep, cap, order, seen)
  }

  // ---------- One outcome when distances differ ----------

  ghost predicate NoTies(dists: seq<real>) {
    forall u, w :: 0 <= u < w < |dists| ==> dists[u] != dists[w]
  }

  lemma BestIsUnique(links: Links, layer: nat, dists: seq<real>, ep: nat, cap: nat, a: seq<nat>, b: seq<nat>, k: nat)
    requires NoTies(dists) && k < |a| && k < |b| && a[..k] == b[..k]
    requires BestAt(links, layer, dists, ep, cap, a, k) && BestAt(links, layer, dists, ep, cap, b, k)
    ensures a[k] == b[k]
  {
    hide SeenBy;
    SameSeenBy(links, layer, ep, a, b, k, a[k]);
    SameSeenBy(links, layer, ep, a, b, k, b[k]);
  }

  lemma {:induction false} OrdersAgree(links: Links, layer: nat, dists: seq<real>, ep: nat, cap: nat,
                                       a: seq<nat>, b: seq<nat>, n: nat)
    requires NoTies(dists) && n <= |a| && n <= |b|
    requires BestFirst(links, layer, dists, ep, cap, a) && BestFirst(links, layer, dists, ep, cap, b)
    ensures a[..n] == b[..n]
  {
    hide BestAt, NoTies;
    if n > 0 {
      OrdersAgree(links, layer, dists, ep, cap, a, b, n - 1);
      BestIsUnique(links, layer, dists, ep, cap, a, b, n - 1);
      assert a[..n] == a[..n - 1] + [a[n - 1]] && b[..n] == b[..n - 1] + [b[n - 1]];
    }
  }

  /** After a finished order there is nothing to expand. */
  lemma NothingIsBest(links: Links, layer: nat, dists: seq<real>, ep: nat, cap: nat, a: seq<nat>, b: seq<nat>)
    requires NoTies(dists) && Finished(links, layer, dists, ep, cap, a) && |b| > |a| && b[..|a|] == a
    ensures !BestAt(links, layer, dists, ep, cap, b, |a|)
  {
    hide SeenBy;
    var n, v := |a|, b[|a|];
    assert a[..n] == a;
    forall u ensures SeenBy(links, layer, ep, b, n, u) == SeenBy(links, layer, ep, a, n, u) {
      SameSeenBy(links, layer, ep, a, b, n, u);
    }
    if v < |dists| {
      assert Ahead(links, layer, dists, ep, b, n, v) == NoFarther(links, layer, dists, ep, a, v);
    }
  }

  lemma NotLonger(links: Links, layer: nat, dists: seq<real>, ep: nat, cap: nat, a: seq<nat>, b: seq<nat>)
    requires NoTies(dists) && Finished(links, layer, dists, ep, cap, a)
    requires BestFirst(links, layer, dists, ep, cap, a) && BestFirst(links, layer, dists, ep, cap, b)
    ensures |b| <= |a|
  {
    hide BestAt, NoTies, Finished;
    if |b| > |a| {
      OrdersAgree(links, layer, dists, ep, cap, a, b, |a|);
      assert a[..|a|] == a;
      NothingIsBest(links, layer, dists, ep, cap, a, b);
    }
  }

  lemma ExpansionIsUnique(links: Links, layer: nat, dists: seq<real>, ep: nat, cap: nat, a: seq<nat>, seen: set<nat>,
                          b: seq<nat>, seen': set<nat>)
    requires NoTies(dists)
    requires Expansion(links, layer, dists, ep, cap, a, seen) && Expansion(links, layer, dists, ep, cap, b, seen')
    ensures a == b && seen == seen'
  {
    hide BestFirst, NoTies, Finished, SeenBy;
    NotLonger(links, layer, dists, ep, cap, a, b);
    NotLonger(links, layer, dists, ep, cap, b, a);
    OrdersAgree(links, layer, dists, ep, cap, a, b, |a|);
    assert a[..|a|] == a && b[..|b|] == b;
  }

  /** With `cap` slots the result is the nearest seen nodes, in order. */
  lemma TopIsUnique(dists: seq<real>, cap: nat, seen: set<nat>, a: seq<Cand>, b: seq<Cand>)
    requires NoTies(dists) && Heap(a, dists, seen) && Covers(a, dists, cap, seen)
    requires Heap(b, dists, seen) && Covers(b, dists, cap, seen)
    ensures forall x :: x in a ==> x in b
  {
    hide NoTies;
    forall x | x in a ensures x in b {
      if x !in b {
        NearerAreIn(dists, cap, seen, a, x, b);
        OneMore(a, b, x);
      }
    }
  }

  lemma OneMore(a: seq<Cand>, b: seq<Cand>, x: Cand)
    requires Ordered(b) && x in a && x !in b && forall y :: y in b ==> y in a
    ensures |a| > |b|
  {
    OrderedIsSet(b);
    SetIsShort(a);
    assert ToSet(a) == ToSet(b) + {x} + (ToSet(a) - ToSet(b) - {x});
  }

  lemma NearerAreIn(dists: seq<real>, cap: nat, seen: set<nat>, a: seq<Cand>, x: Cand, b: seq<Cand>)
    requires NoTies(dists) && Heap(a, dists, seen) && Covers(a, dists, cap, seen) && x in a && x !in b
    requires Heap(b, dists, seen) && Covers(b, dists, cap, seen)
    ensures |b| == cap && forall y :: y in b ==> y in a
  {
    assert |b| == cap && x.dist >= b[|b| - 1].dist;
    forall y | y in b ensures y in a {
      NearerInTop(dists, cap, seen, a, x, b, y);
    }
  }

  lemma NearerInTop(dists: seq<real>, cap: nat, seen: set<nat>, a: seq<Cand>, x: Cand, b: seq<Cand>, y: Cand)
    requires NoTies(dists) && Heap(a, dists, seen) && Covers(a, dists, cap, seen) && x in a
    requires Heap(b, dists, seen) && y in b && x !in b && x.dist >= b[|b| - 1].dist
    ensures y in a
  {
    var j :| 0 <= j < |b| && b[j] == y;
    assert j < |b| - 1 ==> Less(b[j], b[|b| - 1]);
    assert y.dist < x.dist;
    var i :| 0 <= i < |a| && a[i] == x;
    assert i < |a| - 1 ==> Less(a[i], a[|a| - 1]);
  }

  lemma OrderedIsSet(s: seq<Cand>)
    requires Ordered(s)
    ensures |ToSet(s)| == |s|
  {
    NoDupCardinality(s);
  }

  lemma {:induction false} SameOrdered(a: seq<Cand>, b: seq<Cand>)
    requires Ordered(a) && Ordered(b) && forall x :: x in a <==> x in b
    ensures a == b
    decreases |a|
  {
    if |b| > 0 {
      assert b[0] in b;
    }
    if |a| > 0 {
      assert a[0] in a;
      OrderedSplit(a, b[0]);
      OrderedSplit(b, a[0]);
      SameOrdered(a[1..], b[1..]);
      assert a == [a[0]] + a[1..] && b == [b[0]] + b[1..];
    }
  }

  lemma OrderedSplit(s: seq<Cand>, x: Cand)
    requires Ordered(s) && x in s
    ensures (x == s[0] || Less(s[0], x)) && Ordered(s[1..]) && s[0] !in s[1..]
    ensures forall y :: y in s <==> y == s[0] || y in s[1..]
  {
    assert s == [s[0]] + s[1..];
  }

  /** When no two nodes are equally far, the search of a layer has one outcome. */
  lemma SearchIsUnique(links: Links, layer: nat, dists: seq<real>, ep: nat, cap: nat, a: seq<Cand>, seen: set<nat>,
                       b: seq<Cand>, seen': set<nat>)
    requires NoTies(dists)
    requires LayerFixedPoint(links, layer, dists, ep, cap, a, seen) && LayerFixedPoint(links, layer, dists, ep, cap, b, seen')
    ensures a == b && seen == seen'
  {
    hide NoTies, Covers, Expansion, Opened, ReachedFrom, Ordered;
    var orderA :| Expansion(links, layer, dists, ep, cap, orderA, seen);
    var orderB :| Expansion(links, layer, dists, ep, cap, orderB, seen');
    ExpansionIsUnique(links, layer, dists, ep, cap, orderA, seen, orderB, seen');
    TopIsUnique(dists, cap, seen, a, b);
    TopIsUnique(dists, cap, seen, b, a);
    SameOrdered(a, b);
  }

  /** What the fixed point says about one neighbour of one result. */
  lemma FixedPointIsLocal(links: Links, layer: nat, dists: seq<real>, ep: nat, cap: nat, top: seq<Cand>, seen: set<nat>,
                          t: Cand, i: nat)
    requires LayerFixedPoint(links, layer, dists, ep, cap, top, seen) && t in top
    requires t.id < |links| && layer < |links[t.id]| && i < |links[t.id][layer]|
    ensures var u := links[t.id][layer][i];
      u < |dists| && (Entry(dists, u) in top || (|top| == cap && dists[u] >= top[|top| - 1].dist))
  {
    assert Opened(links, layer, seen, t.id);
  }

  /** Seeing one more node and admitting it as the search does. */
  lemma Admit(top: seq<Cand>, cands: seq<Cand>, links: Links, layer: nat, dists: seq<real>, ef: int, seen: set<nat>,
              open: set<nat>, u: nat)
    requires Heap(top, dists, seen) && Heap(cands, dists, seen) && Covers(top, dists, Cap(ef), seen)
    requires Explored(top, cands, links, layer, seen, open) && u < |dists| && u !in seen
    ensures var x := Entry(dists, u);
      if |top| < ef || dists[u] < top[|top| - 1].dist then
        var top' := if |top| + 1 > ef then Push(top, x)[..|top|] else Push(top, x);
        && Heap(Push(cands, x), dists, seen + {u})
        && Explored(top', Push(cands, x), links, layer, seen + {u}, open)
        && Heap(top', dists, seen + {u}) && Covers(top', dists, Cap(ef), seen + {u})
      else
        && Heap(top, dists, seen + {u}) && Covers(top, dists, Cap(ef), seen + {u})
        && Heap(cands, dists, seen + {u}) && Explored(top, cands, links, layer, seen + {u}, open)
  {
    hide Push, Opened, Heap, Covers, Explored;
    CoversSome(top, dists, Cap(ef), seen);
    if |top| < ef || dists[u] < top[|top| - 1].dist {
      HeapPush(cands, dists, seen, u);
      HeapPush(top, dists, seen, u);
      ExploredGrows(top, cands, links, layer, seen, open, Entry(dists, u));
      if |top| + 1 > ef {
        EvictCovers(top, dists, Cap(ef), seen, u);
        ExploredDrops(Push(top, Entry(dists, u)), Push(cands, Entry(dists, u)), links, layer, seen + {u}, open);
      } else {
        RoomCovers(top, dists, Cap(ef), seen, u);
      }
    } else {
      RejectCovers(top, cands, dists, Cap(ef), seen, u);
      ExploredSees(top, cands, links, layer, seen, open, u);
    }
  }

  lemma RoomCovers(top: seq<Cand>, dists: seq<real>, cap: nat, seen: set<nat>, u: nat)
    requires Covers(top, dists, cap, seen) && |top| < cap && u < |dists|
    ensures Covers(Push(top, Entry(dists, u)), dists, cap, seen + {u})
  {
    hide Push;
  }

  lemma RejectCovers(top: seq<Cand>, cands: seq<Cand>, dists: seq<real>, cap: nat, seen: set<nat>, u: nat)
    requires Heap(top, dists, seen) && Heap(cands, dists, seen) && Covers(top, dists, cap, seen) && u < |dists|
    requires |top| == cap && dists[u] >= top[|top| - 1].dist
    ensures Heap(top, dists, seen + {u}) && Heap(cands, dists, seen + {u}) && Covers(top, dists, cap, seen + {u})
  {
  }

  lemma ExploredSees(top: seq<Cand>, cands: seq<Cand>, links: Links, layer: nat, seen: set<nat>, open: set<nat>, u: nat)
    requires Explored(top, cands, links, layer, seen, open)
    ensures Explored(top, cands, links, layer, seen + {u}, open)
  {
    forall t | t in top && t.id !in open ensures t in cands || Opened(links, layer, seen + {u}, t.id) {
    }
  }

  lemma ExploredGrows(top: seq<Cand>, cands: seq<Cand>, links: Links, layer: nat, seen: set<nat>, open: set<nat>,
                      x: Cand)
    requires Explored(top, cands, links, layer, seen, open)
    ensures Explored(Push(top, x), Push(cands, x), links, layer, seen + {x.id}, open)
  {
    hide Push;
    ExploredSees(top, cands, links, layer, seen, open, x.id);
  }

  lemma ExploredDrops(top: seq<Cand>, cands: seq<Cand>, links: Links, layer: nat, seen: set<nat>, open: set<nat>)
    requires Explored(top, cands, links, layer, seen, open) && |top| > 0
    ensures Explored(top[..|top| - 1], cands, links, layer, seen, open)
  {
    hide Opened;
  }

  /** Pushing a closer node onto a full result and dropping the last entry. */
  lemma EvictCovers(top: seq<Cand>, dists: seq<real>, cap: nat, seen: set<nat>, u: nat)
    requires Heap(top, dists, seen) && Covers(top, dists, cap, seen) && u < |dists| && u !in seen
    requires |top| == cap && dists[u] < top[|top| - 1].dist
    ensures var t := Push(top, Entry(dists, u));
      Covers(t[..|top|], dists, cap, seen + {u}) && Heap(t[..|top|], dists, seen + {u})
  {
    hide Push;
    HeapPush(top, dists, seen, u);
    var t := Push(top, Entry(dists, u));
    var last := t[|top|];
    InAppend(t[..|top|], last);
    assert t == t[..|top|] + [last];
    LastIsDropped(top, t, Entry(dists, u));
    forall w | w in seen + {u} ensures w < |dists|
      && (Entry(dists, w) in t[..|top|] || dists[w] >= t[|top| - 1].dist)
    {
      assert w in seen && Entry(dists, w) !in top ==> dists[w] >= top[|top| - 1].dist;
    }
  }

  lemma LastIsDropped(top: seq<Cand>, t: seq<Cand>, x: Cand)
    requires Ordered(top) && Ordered(t) && |top| > 0 && |t| == |top| + 1 && x !in top && x.dist < top[|top| - 1].dist
    requires forall y :: y in t <==> y in top || y == x
    ensures t[|top|] == top[|top| - 1] && t[|top| - 1].dist <= t[|top|].dist
  {
    var m := top[|top| - 1];
    assert m in t && t[|top|] in t;
    var i :| 0 <= i < |t| && t[i] == m;
    if i < |top| {
      assert Less(m, t[|top|]);
      var j :| 0 <= j < |top| && top[j] == t[|top|];
    }
    assert Less(t[|top| - 1], t[|top|]);
  }

  /** Look at the neighbours of a candidate that has just left the candidate heap. */
  method Expand(links: Links, layer: nat, dists: seq<real>, ef: int, vt: VisitedTable, cand: nat,
                top0: seq<Cand>, cands0: seq<Cand>, ghost inside: set<nat>, ghost ep: nat, ghost order: seq<nat>)
    returns (top: seq<Cand>, cands: seq<Cand>)
    requires vt.Valid() && |links| == |dists| <= |vt.marks| && Closed(links, layer, inside) && cand in inside
    requires Heap(top0, dists, vt.visited) && Heap(cands0, dists, vt.visited) && vt.visited <= inside
    requires Covers(top0, dists, Cap(ef), vt.visited) && Explored(top0, cands0, links, layer, vt.visited, {cand})
    requires cand in vt.visited && ReachedFrom(links, layer, ep, vt.visited)
    requires Waiting(top0, cands0, dists, Cap(ef), vt.visited, order)
    modifies vt
    ensures vt.Valid() && |vt.marks| == old(|vt.marks|) && old(vt.visited) <= vt.visited <= inside
    ensures Heap(top, dists, vt.visited) && Heap(cands, dists, vt.visited)
    ensures Covers(top, dists, Cap(ef), vt.visited) && Explored(top, cands, links, layer, vt.visited, {})
    ensures vt.visited == old(vt.visited) ==> cands == cands0
    ensures ReachedFrom(links, layer, ep, vt.visited) && Waiting(top, cands, dists, Cap(ef), vt.visited, order)
    ensures forall u: nat :: u in vt.visited <==> u in old(vt.visited) || Neighbours(links, layer, cand, u)
  {
    hide Heap, Waiting, Covers, Explored, Closed, Push, ReachedFrom;
    top, cands := top0, cands0;
    InsideNeighbours(links, layer, inside, cand);
    var list := links[cand][layer];
    for i := 0 to |list|
      invariant vt.Valid() && |vt.marks| == old(|vt.marks|) && old(vt.visited) <= vt.visited <= inside
      invariant Heap(top, dists, vt.visited) && Heap(cands, dists, vt.visited)
      invariant Covers(top, dists, Cap(ef), vt.visited) && Explored(top, cands, links, layer, vt.visited, {cand})
      invariant forall j :: 0 <= j < i ==> list[j] in vt.visited
      invariant vt.visited == old(vt.visited) ==> cands == cands0
      invariant ReachedFrom(links, layer, ep, vt.visited) && Waiting(top, cands, dists, Cap(ef), vt.visited, order)
      invariant forall u :: u in vt.visited ==> u in old(vt.visited) || u in list
    {
      var u := list[i];
      ghost var before := vt.visited;
      var seen := vt.Visit(u);
      if seen {
        assert vt.visited == before;
        continue;
      }
      CoversSome(top, dists, Cap(ef), before);
      ReachedStep(links, layer, ep, before, cand, u);
      Admit(top, cands, links, layer, dists, ef, before, {cand}, u);
      WaitingAdmits(top, cands, dists, ef, before, order, u);
      if |top| < ef || dists[u] < top[|top| - 1].dist {
        top := Push(top, Entry(dists, u));
        cands := Push(cands, Entry(dists, u));
        if |top| > ef {
          top := top[..|top| - 1];
        }
      } else {
      }
    }
    AllSeen(links, layer, top, cands, vt.visited, cand);
  }

  lemma InsideNeighbours(links: Links, layer: nat, inside: set<nat>, u: nat)
    requires Closed(links, layer, inside) && u in inside
    ensures u < |links| && layer < |links[u]|
    ensures forall i :: 0 <= i < |links[u][layer]| ==> links[u][layer][i] in inside && links[u][layer][i] < |links|
  {
  }

  lemma CoversSome(top: seq<Cand>, dists: seq<real>, cap: nat, seen: set<nat>)
    requires Covers(top, dists, cap, seen)
    ensures 0 < |top| <= cap
  {
  }

  lemma AllSeen(links: Links, layer: nat, top: seq<Cand>, cands: seq<Cand>, seen: set<nat>, cand: nat)
    requires cand < |links| && layer < |links[cand]|
    requires forall j :: 0 <= j < |links[cand][layer]| ==> links[cand][layer][j] in seen
    requires Explored(top, cands, links, layer, seen, {cand})
    ensures Explored(top, cands, links, layer, seen, {})
  {
    assert Opened(links, layer, seen, cand);
  }

  /** Beam search in one layer, from `ep`, keeping the `ef` nearest. */
  method SearchLayer(links: Links, layer: nat, dists: seq<real>, ep: nat, ef: int, vt: VisitedTable,
                     ghost inside: set<nat>)
    returns (top: seq<Cand>)
    requires vt.Valid() && vt.visited == {} && |links| == |dists| <= |vt.marks|
    requires Closed(links, layer, inside) && ep in inside
    modifies vt
    ensures vt.Valid() && |vt.marks| == old(|vt.marks|) && vt.visited <= inside
    ensures LayerFixedPoint(links, layer, dists, ep, Cap(ef), top, vt.visited)
  {
    hide Heap, Covers, Explored, Closed, Push, LayerFixedPoint, ReachedFrom, Waiting, BestFirst, Expansion, SeenBy;
    InsideNeighbours(links, layer, inside, ep);
    ghost var order: seq<nat> := [];
    top := [Entry(dists, ep)];
    var cands := [Entry(dists, ep)];
    var seen := vt.Visit(ep);
    StartSearch(links, layer, dists, ep, Cap(ef), vt.visited);
    ReachedStart(links, layer, ep);
    StartOrder(links, layer, dists, ep, Cap(ef));
    while |cands| > 0
      invariant vt.Valid() && |vt.marks| == old(|vt.marks|) && ep in vt.visited && vt.visited <= inside
      invariant Heap(top, dists, vt.visited) && Heap(cands, dists, vt.visited)
      invariant Covers(top, dists, Cap(ef), vt.visited) && Explored(top, cands, links, layer, vt.visited, {})
      invariant ReachedFrom(links, layer, ep, vt.visited) && Waiting(top, cands, dists, Cap(ef), vt.visited, order)
      invariant BestFirst(links, layer, dists, ep, Cap(ef), order)
      invariant forall u: nat :: u in vt.visited <==> SeenBy(links, layer, ep, order, |order|, u)
      decreases inside - vt.visited, |cands|
    {
      var cand := cands[0];
      ghost var all := cands;
      cands := cands[1..];
      CoversSome(top, dists, Cap(ef), vt.visited);
      if cand.dist > top[|top| - 1].dist && |top| >= ef {
        FinishOrder(links, layer, dists, ep, Cap(ef), top, all, vt.visited, order);
        StoppedEarly(links, layer, dists, ep, Cap(ef), top, all, vt.visited, order);
        return;
      }
      PopFirst(links, layer, dists, top, all, vt.visited);
      ghost var before := vt.visited;
      CandidateIsBest(links, layer, dists, ep, Cap(ef), top, all, before, order);
      BestGrows(links, layer, dists, ep, Cap(ef), order, cand.id);
      PopWaits(top, all, dists, Cap(ef), before, order);
      ghost var earlier := order;
      order := order + [cand.id];
      top, cands := Expand(links, layer, dists, ef, vt, cand.id, top, cands, inside, ep, order);
      SeenGrows(links, layer, ep, earlier, cand.id, before, vt.visited);
      if vt.visited != before {
        assert inside - vt.visited < inside - before;
      }
    }
    FinishOrder(links, layer, dists, ep, Cap(ef), top, cands, vt.visited, order);
    RanDry(links, layer, dists, ep, Cap(ef), top, cands, vt.visited, order);
  }

  lemma StartOrder(links: Links, layer: nat, dists: seq<real>, ep: nat, cap: nat)
    requires ep < |dists|
    ensures Waiting([Entry(dists, ep)], [Entry(dists, ep)], dists, cap, {ep}, [])
    ensures BestFirst(links, layer, dists, ep, cap, []) && forall u: nat :: u == ep <==> SeenBy(links, layer, ep, [], 0, u)
  {
  }

  /** The first candidate moves from the candidates to the expanded nodes. */
  lemma PopWaits(top: seq<Cand>, cands: seq<Cand>, dists: seq<real>, cap: nat, seen: set<nat>, order: seq<nat>)
    requires Waiting(top, cands, dists, cap, seen, order) && Heap(cands, dists, seen) && |cands| > 0
    ensures Waiting(top, cands[1..], dists, cap, seen, order + [cands[0].id])
  {
    InAppend(order, cands[0].id);
    assert cands == [cands[0]] + cands[1..] && cands[0] in cands;
    assert forall c :: c in cands <==> c == cands[0] || c in cands[1..];
    forall c | c in cands[1..] ensures c.id != cands[0].id {
      var i :| 0 < i < |cands| && cands[i] == c;
    }
  }

  lemma SeenGrows(links: Links, layer: nat, ep: nat, order: seq<nat>, x: nat, before: set<nat>, seen: set<nat>)
    requires forall u: nat :: u in before <==> SeenBy(links, layer, ep, order, |order|, u)
    requires forall u: nat :: u in seen <==> u in before || Neighbours(links, layer, x, u)
    ensures forall u: nat :: u in seen <==> SeenBy(links, layer, ep, order + [x], |order| + 1, u)
  {
    hide Neighbours;
    var more := order + [x];
    assert forall j :: 0 <= j < |order| ==> more[j] == order[j];
    forall u: nat ensures u in seen <==> SeenBy(links, layer, ep, more, |order| + 1, u) {
      assert more[|order|] == x;
    }
  }

  lemma FinishOrder(links: Links, layer: nat, dists: seq<real>, ep: nat, cap: nat, top: seq<Cand>, cands: seq<Cand>,
                    seen: set<nat>, order: seq<nat>)
    requires Waiting(top, cands, dists, cap, seen, order) && Heap(top, dists, seen) && Heap(cands, dists, seen)
    requires Covers(top, dists, cap, seen) && BestFirst(links, layer, dists, ep, cap, order)
    requires forall u: nat :: u in seen <==> SeenBy(links, layer, ep, order, |order|, u)
    requires |cands| > 0 ==> |top| == cap && cands[0].dist > top[|top| - 1].dist
    ensures Expansion(links, layer, dists, ep, cap, order, seen)
  {
    hide Waiting, Heap, Covers, SeenBy, BestFirst, Finished;
    StopIsFinished(links, layer, dists, ep, cap, top, cands, seen, order);
  }

  lemma StartSearch(links: Links, layer: nat, dists: seq<real>, ep: nat, cap: nat, seen: set<nat>)
    requires ep < |dists| && seen == {ep} && cap > 0
    ensures var s := [Entry(dists, ep)];
      Heap(s, dists, seen) && Covers(s, dists, cap, seen) && Explored(s, s, links, layer, seen, {})
  {
  }

  lemma PopFirst(links: Links, layer: nat, dists: seq<real>, top: seq<Cand>, cands: seq<Cand>, seen: set<nat>)
    requires |cands| > 0 && Heap(cands, dists, seen) && Explored(top, cands, links, layer, seen, {})
    ensures cands[0].id in seen
    ensures Heap(cands[1..], dists, seen) && Explored(top, cands[1..], links, layer, seen, {cands[0].id})
  {
    hide Opened;
    forall t | t in cands && t.id != cands[0].id ensures t in cands[1..] {
      var i :| 0 <= i < |cands| && cands[i] == t;
      assert cands[1..][i - 1] == cands[i];
    }
  }

  /** When the nearest candidate is beyond a full result, no result is still a candidate. */
  lemma StoppedEarly(links: Links, layer: nat, dists: seq<real>, ep: nat, cap: nat, top: seq<Cand>, cands: seq<Cand>,
                     seen: set<nat>, order: seq<nat>)
    requires Heap(top, dists, seen) && Heap(cands, dists, seen) && Covers(top, dists, cap, seen) && ep in seen
    requires Explored(top, cands, links, layer, seen, {}) && |cands| > 0 && cands[0].dist > top[|top| - 1].dist
    requires ReachedFrom(links, layer, ep, seen)
    requires Expansion(links, layer, dists, ep, cap, order, seen)
    ensures LayerFixedPoint(links, layer, dists, ep, cap, top, seen)
  {
    hide Opened, Expansion;
    forall t | t in top ensures Opened(links, layer, seen, t.id) {
      var i :| 0 <= i < |top| && top[i] == t;
      forall j | 0 <= j < |cands| ensures cands[j] != t {
        assert j > 0 ==> Less(cands[0], cands[j]);
        assert i < |top| - 1 ==> Less(top[i], top[|top| - 1]);
      }
      assert t == Entry(dists, t.id);
    }
  }

  lemma RanDry(links: Links, layer: nat, dists: seq<real>, ep: nat, cap: nat, top: seq<Cand>, cands: seq<Cand>,
               seen: set<nat>, order: seq<nat>)
    requires Heap(top, dists, seen) && Covers(top, dists, cap, seen) && ep in seen
    requires Explored(top, cands, links, layer, seen, {}) && |cands| == 0 && ReachedFrom(links, layer, ep, seen)
    requires Expansion(links, layer, dists, ep, cap, order, seen)
    ensures LayerFixedPoint(links, layer, dists, ep, cap, top, seen)
  {
    hide Opened, Expansion;
  }

  // ---------- The greedy walk ----------

  ghost function Closer(inside: set<nat>, dists: seq<real>, bound: real): set<nat> {
    set u | u in inside && u < |dists| && dists[u] < bound
  }

  predicate InLayer(links: Links, layer: nat, dists: seq<real>, w: nat) {
    w < |links| && layer < |links[w]| && w < |dists| && forall i :: 0 <= i < |links[w][layer]| ==> links[w][layer][i] < |dists|
  }

  /** No neighbour of `w` is closer than `bound`. */
  ghost predicate NoneCloser(links: Links, layer: nat, dists: seq<real>, w: nat, bound: real)
    requires InLayer(links, layer, dists, w)
  {
    forall i :: 0 <= i < |links[w][layer]| ==> dists[links[w][layer][i]] >= bound
  }

  /** `u` is the nearest neighbour of `w`, the first listed one if several are as near, and closer than `w`. */
  ghost predicate Steepest(links: Links, layer: nat, dists: seq<real>, w: nat, u: nat)
    requires InLayer(links, layer, dists, w)
  {
    var list := links[w][layer];
    exists i :: 0 <= i < |list| && FirstNearest(list, dists, i) && list[i] == u && dists[u] < dists[w]
  }

  ghost predicate FirstNearest(list: seq<nat>, dists: seq<real>, i: int)
    requires 0 <= i < |list| && forall k :: 0 <= k < |list| ==> list[k] < |dists|
  {
    && (forall k :: 0 <= k < |list| ==> dists[list[k]] >= dists[list[i]])
    && (forall k :: 0 <= k < i ==> dists[list[k]] > dists[list[i]])
  }

  /** A walk that always steps to the nearest neighbour. */
  ghost predicate Downhill(links: Links, layer: nat, dists: seq<real>, walk: seq<nat>) {
    && |walk| > 0 && (forall i :: 0 <= i < |walk| ==> InLayer(links, layer, dists, walk[i]))
    && forall i :: 0 <= i < |walk| - 1 ==> Steepest(links, layer, dists, walk[i], walk[i + 1])
  }

  /** A walk downhill from `from` to `to`, where no neighbour is closer. */
  ghost predicate GreedyWalk(links: Links, layer: nat, dists: seq<real>, from: nat, walk: seq<nat>, to: nat) {
    && Downhill(links, layer, dists, walk) && walk[0] == from && walk[|walk| - 1] == to
    && NoneCloser(links, layer, dists, to, dists[to])
  }

  ghost predicate WalksTo(links: Links, layer: nat, dists: seq<real>, from: nat, to: nat) {
    exists walk :: GreedyWalk(links, layer, dists, from, walk, to)
  }

  lemma {:induction false} DownhillComesCloser(links: Links, layer: nat, dists: seq<real>, walk: seq<nat>)
    requires Downhill(links, layer, dists, walk)
    ensures dists[walk[|walk| - 1]] <= dists[walk[0]]
  {
    hide FirstNearest;
    if |walk| > 1 {
      assert Steepest(links, layer, dists, walk[0], walk[1]);
      DownhillComesCloser(links, layer, dists, walk[1..]);
    }
  }

  lemma GreedyWalkComesCloser(links: Links, layer: nat, dists: seq<real>, from: nat, walk: seq<nat>, to: nat)
    requires GreedyWalk(links, layer, dists, from, walk, to)
    ensures from < |dists| && to < |dists| && dists[to] <= dists[from]
  {
    DownhillComesCloser(links, layer, dists, walk);
  }

  lemma SteepestIsUnique(links: Links, layer: nat, dists: seq<real>, w: nat, u: nat, u': nat)
    requires InLayer(links, layer, dists, w) && Steepest(links, layer, dists, w, u) && Steepest(links, layer, dists, w, u')
    ensures u == u' && !NoneCloser(links, layer, dists, w, dists[w])
  {
  }

  /** The walk is determined by where it starts. */
  lemma {:induction false} GreedyWalkIsUnique(links: Links, layer: nat, dists: seq<real>, from: nat,
                                              a: seq<nat>, to: nat, b: seq<nat>, to': nat)
    requires GreedyWalk(links, layer, dists, from, a, to) && GreedyWalk(links, layer, dists, from, b, to')
    ensures a == b && to == to'
    decreases |a|
  {
    hide Steepest, NoneCloser, InLayer;
    if |a| > 1 {
      SteepestIsUnique(links, layer, dists, from, a[1], a[1]);
    }
    if |b| > 1 {
      SteepestIsUnique(links, layer, dists, from, b[1], b[1]);
    }
    if |a| > 1 && |b| > 1 {
      SteepestIsUnique(links, layer, dists, from, a[1], b[1]);
      GreedyWalkIsUnique(links, layer, dists, a[1], a[1..], to, b[1..], to');
      assert a == [from] + a[1..] && b == [from] + b[1..];
    }
  }

  lemma IsFirstNearest(list: seq<nat>, dists: seq<real>, i: nat)
    requires i < |list| && forall k :: 0 <= k < |list| ==> list[k] < |dists|
    requires forall k :: 0 <= k < |list| ==> dists[list[k]] >= dists[list[i]]
    requires forall k :: 0 <= k < i ==> dists[list[k]] > dists[list[i]]
    ensures FirstNearest(list, dists, i)
  {
  }

  /** Walk to ever closer neighbours until none is closer. */
  method GreedyLower(links: Links, layer: nat, dists: seq<real>, ep: nat, ghost inside: set<nat>)
    returns (cur: nat, ghost walk: seq<nat>)
    requires |links| == |dists| && Closed(links, layer, inside) && ep in inside
    ensures cur in inside && GreedyWalk(links, layer, dists, ep, walk, cur)
    ensures WalksTo(links, layer, dists, ep, cur)
  {
    hide Closed, FirstNearest;
    InsideNeighbours(links, layer, inside, ep);
    cur, walk := ep, [ep];
    var best, changed := dists[cur], true;
    while changed
      invariant cur in inside && cur < |links| && best == dists[cur] && InLayer(links, layer, dists, cur)
      invariant Downhill(links, layer, dists, walk) && walk[0] == ep && walk[|walk| - 1] == cur
      invariant !changed ==> NoneCloser(links, layer, dists, cur, dists[cur])
      decreases Closer(inside, dists, best), changed
    {
      changed := false;
      InsideNeighbours(links, layer, inside, cur);
      ghost var start, at := cur, 0;
      var list := links[cur][layer];
      for i := 0 to |list|
        invariant cur in inside && cur < |links| && best == dists[cur] <= dists[start]
        invariant if changed then 0 <= at < i && list[at] == cur && dists[cur] < dists[start] else cur == start
        invariant forall k :: 0 <= k < i ==> dists[list[k]] >= dists[cur]
        invariant changed ==> forall k :: 0 <= k < at ==> dists[list[k]] > dists[cur]
      {
        if dists[list[i]] < best {
          best, cur, changed := dists[list[i]], list[i], true;
          at := i;
        }
      }
      InsideNeighbours(links, layer, inside, cur);
      if changed {
        IsFirstNearest(list, dists, at);
        assert Steepest(links, layer, dists, start, cur);
        walk := walk + [cur];
        assert cur in Closer(inside, dists, dists[start]) && cur !in Closer(inside, dists, best);
      }
    }
  }
}
