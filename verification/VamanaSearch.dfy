/**
  The beam search of src/vamana.cc over a graph that does not change while it runs, with
  the builder's own candidate queue.
 */
module VamanaSearch {
  import opened Common
  import opened NeighborQueue

  /** Out-neighbour lists; node ids are positions. */
  ghost predicate ValidGraph(adj: seq<seq<int>>) {
    forall v, i :: 0 <= v < |adj| && 0 <= i < |adj[v]| ==> 0 <= adj[v][i] < |adj|
  }

  /** The vector-backed queue of the builder; `cap` entries at most. */
  class BestQueue {
    var data: seq<Neighbor>
    var cap: nat
    var cur: nat

    constructor (capacity: nat)
      ensures data == [] && cap == capacity && cur == 0
    {
      data, cap, cur := [], capacity, 0;
    }

    method Contains(id: int) returns (b: bool)
      ensures b <==> Queued(data, id)
    {
      for i := 0 to |data|
        invariant forall j :: 0 <= j < i ==> data[j].id != id
      {
        if data[i].id == id {
          return true;
        }
      }
      return false;
    }

    /** The first position whose entry is not before `x`. */
    method LowerBound(x: Neighbor) returns (k: nat)
      requires Sorted(data)
      ensures k <= |data|
      ensures forall i :: 0 <= i < k ==> Less(data[i], x)
      ensures forall i :: k <= i < |data| ==> !Less(data[i], x)
    {
      var lo, hi := 0, |data|;
      while lo < hi
        invariant 0 <= lo <= hi <= |data|
        invariant forall i :: 0 <= i < lo ==> Less(data[i], x)
        invariant forall i :: hi <= i < |data| ==> !Less(data[i], x)
      {
        var mid := (lo + hi) / 2;
        if Less(data[mid], x) {
          forall i | lo <= i <= mid ensures Less(data[i], x) {
            if i < mid {
              assert Less(data[i], data[mid]);
            }
          }
          lo := mid + 1;
        } else {
          forall i | mid <= i < hi ensures !Less(data[i], x) {
            if i > mid {
              assert Less(data[mid], data[i]);
            }
          }
          hi := mid;
        }
      }
      k := lo;
    }

    /** Insert by id; a full queue takes only what is nearer than its last entry. */
    method Insert(x: Neighbor)
      requires cap > 0 && |data| <= cap && Sorted(data) && !x.expanded && cur <= |data|
      modifies this
      ensures cap == old(cap)
      ensures data == if Queued(old(data), x.id) then old(data) else Inserted(old(data), cap, x)
      ensures cur == if Queued(old(data), x.id) then old(cur) else CursorAfterInsert(old(data), cap, old(cur), x)
    {
      ghost var q := data;
      var present := Contains(x.id);
      if present {
        return;
      }
      PlacedFits(q, cap, x);
      if |data| == cap && !Less(x, data[|data| - 1]) {
        return;
      }
      var pos := LowerBound(x);
      FitsIsUnique(q, x, pos, Placed(q, cap, x).value);
      data := data[..pos] + [x] + data[pos..];
      if |data| > cap {
        data := data[..|data| - 1];
      }
      if cur >= |data| || pos < cur {
        cur := pos;
      }
    }

    method ClosestUnexpanded() returns (x: Neighbor)
      requires cur < |data|
      modifies this
      ensures cap == old(cap)
      ensures data == Expand(old(data), old(cur))
      ensures x == data[old(cur)]
      ensures cur == NextUnexpanded(data, old(cur))
    {
      var pre := cur;
      data := data[cur := data[cur].(expanded := true)];
      x := data[cur];
      while cur < |data| && data[cur].expanded
        invariant pre <= cur <= |data| && cap == old(cap) && data == Expand(old(data), pre)
        invariant NextUnexpanded(data, pre) == NextUnexpanded(data, cur)
        decreases |data| - cur
      {
        cur := cur + 1;
      }
    }
  }

  lemma FitsIsUnique(q: seq<Neighbor>, x: Neighbor, k: nat, m: nat)
    requires Fits(q, x, m) && k <= |q|
    requires forall i :: 0 <= i < k ==> Less(q[i], x)
    requires forall i :: k <= i < |q| ==> !Less(q[i], x)
    ensures k == m
  {
    assert m < |q| ==> Less(x, q[m]);
    assert k < |q| ==> !Less(q[k], x);
  }

  // ---------- Beam search ----------

  ghost predicate IsEntry(x: Neighbor, dists: seq<real>) {
    0 <= x.id < |dists| && x.dist == dists[x.id]
  }

  function Ids(pool: seq<Neighbor>): (r: seq<int>)
    ensures |r| == |pool|
    ensures forall i :: 0 <= i < |r| ==> r[i] == pool[i].id
  {
    seq(|pool|, i requires 0 <= i < |pool| => pool[i].id)
  }

  /** Every id in `seen` is a node at its own distance. */
  ghost predicate SeenNodes(seen: map<int, real>, dists: seq<real>) {
    forall v :: v in seen ==> 0 <= v < |dists| && seen[v] == dists[v]
  }

  /** The out-neighbours of every expanded node have been seen. */
  ghost predicate ClosedUnder(adj: seq<seq<int>>, expanded: set<int>, seen: map<int, real>) {
    forall v, i :: v in expanded && 0 <= v < |adj| && 0 <= i < |adj[v]| ==> adj[v][i] in seen
  }

  predicate Links(adj: seq<seq<int>>, u: int, v: int) {
    0 <= u < |adj| && v in adj[u]
  }

  /** `v` is the entry or an out-neighbour of one of the first `k` nodes of `order`. */
  ghost predicate Reached(adj: seq<seq<int>>, entry: int, order: seq<int>, k: nat, v: int)
    requires k <= |order|
  {
    v == entry || exists j :: 0 <= j < k && Links(adj, order[j], v)
  }

  /** Nodes expanded in this order from `entry`: each is reached from those before it. */
  ghost predicate InTurn(adj: seq<seq<int>>, entry: int, order: seq<int>) {
    forall k :: 0 <= k < |order| ==> Reached(adj, entry, order, k, order[k])
  }

  function NodeAt(dists: seq<real>, v: int): Neighbor
    requires 0 <= v < |dists|
  {
    Neighbor(v, dists[v], false)
  }

  /** The nodes seen after the first `k` expansions that are nearer than `v`. */
  ghost function Ahead(adj: seq<seq<int>>, dists: seq<real>, entry: int, order: seq<int>, k: nat, v: int): set<int>
    requires k <= |order| && 0 <= v < |dists|
  {
    set u | 0 <= u < |dists| && Reached(adj, entry, order, k, u) && Less(NodeAt(dists, u), NodeAt(dists, v))
  }

  /**
    Expansion `k` takes the nearest node seen but not yet expanded, and it is one of the `limit`
    nearest nodes seen.
   */
  ghost predicate BestAt(adj: seq<seq<int>>, dists: seq<real>, entry: int, limit: nat, order: seq<int>, k: nat)
    requires k < |order|
  {
    var v := order[k];
    && 0 <= v < |dists| && Reached(adj, entry, order, k, v) && v !in order[..k]
    && |Ahead(adj, dists, entry, order, k, v)| < limit
    && forall u :: 0 <= u < |dists| && Reached(adj, entry, order, k, u) && u !in order[..k] && u != v ==>
         Less(NodeAt(dists, v), NodeAt(dists, u))
  }

  ghost predicate BestFirst(adj: seq<seq<int>>, dists: seq<real>, entry: int, limit: nat, order: seq<int>) {
    forall k :: 0 <= k < |order| ==> BestAt(adj, dists, entry, limit, order, k)
  }

  /**
    What the search stops at: `pool` was expanded best first from the entry, everything seen
    is the entry or a neighbour of the pool, the queue is the `limit` smallest nodes seen,
    each one expanded.
   */
  ghost predicate FixedPoint(adj: seq<seq<int>>, dists: seq<real>, entry: int, limit: nat,
                             q: seq<Neighbor>, pool: seq<Neighbor>, seen: map<int, real>) {
    && SmallestOf(q, limit, seen) && SeenNodes(seen, dists)
    && NoDup(Ids(pool)) && (forall i :: 0 <= i < |pool| ==> IsEntry(pool[i], dists) && pool[i].expanded)
    && InTurn(adj, entry, Ids(pool)) && BestFirst(adj, dists, entry, limit, Ids(pool))
    && entry in seen && (forall v :: v in seen ==> Reached(adj, entry, Ids(pool), |pool|, v))
    && ClosedUnder(adj, ToSet(Ids(pool)), seen)
    && (forall i :: 0 <= i < |q| ==> q[i].expanded && q[i].id in ToSet(Ids(pool)))
  }

  /** At a fixed point no edge out of the queue leads to a node nearer than what the queue holds. */
  lemma FixedPointIsLocal(adj: seq<seq<int>>, dists: seq<real>, entry: int, limit: nat,
                          q: seq<Neighbor>, pool: seq<Neighbor>, seen: map<int, real>, i: nat, k: nat)
    requires ValidGraph(adj) && |dists| == |adj| && FixedPoint(adj, dists, entry, limit, q, pool, seen)
    requires i < |q| && 0 <= q[i].id < |adj| && k < |adj[q[i].id]|
    ensures var v := adj[q[i].id][k];
      0 <= v < |dists| && (Queued(q, v) || (|q| == limit && |q| > 0 && Less(q[|q| - 1], Neighbor(v, dists[v], false))))
  {
    var v := adj[q[i].id][k];
    assert v in seen;
  }

  /** A walk along the edges of the graph. */
  ghost predicate Walk(adj: seq<seq<int>>, walk: seq<int>) {
    |walk| > 0 && forall i :: 0 <= i < |walk| - 1 ==> Links(adj, walk[i], walk[i + 1])
  }

  /** A walk from `u` to `v` all of whose nodes but the last are in `through`. */
  ghost predicate WalkTo(adj: seq<seq<int>>, u: int, v: int, through: set<int>, walk: seq<int>) {
    && Walk(adj, walk) && walk[0] == u && walk[|walk| - 1] == v
    && forall i :: 0 <= i < |walk| - 1 ==> walk[i] in through
  }

  lemma {:induction false} ReachedByWalk(adj: seq<seq<int>>, entry: int, order: seq<int>, k: nat, v: int)
    returns (walk: seq<int>)
    requires InTurn(adj, entry, order) && k <= |order| && Reached(adj, entry, order, k, v)
    ensures WalkTo(adj, entry, v, ToSet(order), walk)
    decreases k
  {
    if v == entry {
      walk := [entry];
    } else {
      var j :| 0 <= j < k && Links(adj, order[j], v);
      assert Reached(adj, entry, order, j, order[j]);
      walk := ReachedByWalk(adj, entry, order, j, order[j]);
      walk := walk + [v];
    }
  }

  lemma {:induction false} WalkStaysSeen(adj: seq<seq<int>>, expanded: set<int>, seen: map<int, real>, walk: seq<int>)
    requires Walk(adj, walk) && walk[0] in seen && ClosedUnder(adj, expanded, seen)
    requires forall v :: v in seen ==> v in expanded
    ensures walk[|walk| - 1] in seen
    decreases |walk|
  {
    if |walk| > 1 {
      var n := |walk| - 2;
      WalkStaysSeen(adj, expanded, seen, walk[..n + 1]);
      assert Links(adj, walk[n], walk[n + 1]);
    }
  }

  /** Everything seen lies at the end of a walk from the entry through expanded nodes. */
  lemma SeenIsReachable(adj: seq<seq<int>>, dists: seq<real>, entry: int, limit: nat,
                        q: seq<Neighbor>, pool: seq<Neighbor>, seen: map<int, real>, v: int)
    requires FixedPoint(adj, dists, entry, limit, q, pool, seen) && v in seen
    ensures exists walk :: WalkTo(adj, entry, v, ToSet(Ids(pool)), walk)
  {
    var walk := ReachedByWalk(adj, entry, Ids(pool), |pool|, v);
  }

  /** A search whose queue never filled up returns exactly the nodes that can be reached from the entry. */
  lemma UnfilledFindsReachable(adj: seq<seq<int>>, dists: seq<real>, entry: int, limit: nat,
                               q: seq<Neighbor>, pool: seq<Neighbor>, seen: map<int, real>, v: int)
    requires FixedPoint(adj, dists, entry, limit, q, pool, seen) && |q| < limit
    ensures Queued(q, v) <==> exists walk :: Walk(adj, walk) && walk[0] == entry && walk[|walk| - 1] == v
  {
    forall u | u in seen ensures Queued(q, u) && u in ToSet(Ids(pool)) {
      var i :| 0 <= i < |q| && q[i].id == u;
    }
    if Queued(q, v) {
      var walk := ReachedByWalk(adj, entry, Ids(pool), |pool|, v);
      assert Walk(adj, walk);
    }
    forall walk | Walk(adj, walk) && walk[0] == entry && walk[|walk| - 1] == v ensures v in seen {
      WalkStaysSeen(adj, ToSet(Ids(pool)), seen, walk);
    }
  }

  lemma BestIsUnique(adj: seq<seq<int>>, dists: seq<real>, entry: int, limit: nat, a: seq<int>, b: seq<int>, k: nat)
    requires k < |a| && k < |b| && a[..k] == b[..k]
    requires BestAt(adj, dists, entry, limit, a, k) && BestAt(adj, dists, entry, limit, b, k)
    ensures a[k] == b[k]
  {
    forall v ensures Reached(adj, entry, a, k, v) == Reached(adj, entry, b, k, v) {
      SamePrefixReached(adj, entry, a, b, k, v);
    }
    hide Reached;
  }

  lemma SamePrefixReached(adj: seq<seq<int>>, entry: int, a: seq<int>, b: seq<int>, k: nat, v: int)
    requires k <= |a| && k <= |b| && a[..k] == b[..k]
    ensures Reached(adj, entry, a, k, v) == Reached(adj, entry, b, k, v)
  {
    assert forall j :: 0 <= j < k ==> a[j] == a[..k][j] == b[..k][j] == b[j];
  }

  lemma {:induction false} OrdersAgree(adj: seq<seq<int>>, dists: seq<real>, entry: int, limit: nat,
                                       a: seq<int>, b: seq<int>, n: nat)
    requires BestFirst(adj, dists, entry, limit, a) && BestFirst(adj, dists, entry, limit, b) && n <= |a| && n <= |b|
    ensures a[..n] == b[..n]
  {
    hide BestAt;
    if n > 0 {
      OrdersAgree(adj, dists, entry, limit, a, b, n - 1);
      BestIsUnique(adj, dists, entry, limit, a, b, n - 1);
      assert a[..n] == a[..n - 1] + [a[n - 1]] && b[..n] == b[..n - 1] + [b[n - 1]];
    }
  }

  lemma FixedSeen(adj: seq<seq<int>>, dists: seq<real>, entry: int, limit: nat, q: seq<Neighbor>, pool: seq<Neighbor>,
                  seen: map<int, real>, v: int)
    requires FixedPoint(adj, dists, entry, limit, q, pool, seen)
    ensures v in seen <==> Reached(adj, entry, Ids(pool), |pool|, v)
  {
    hide BestFirst, InTurn, SmallestOf;
    if v != entry && Reached(adj, entry, Ids(pool), |pool|, v) {
      var j :| 0 <= j < |pool| && Links(adj, Ids(pool)[j], v);
      assert Ids(pool)[j] in ToSet(Ids(pool));
    }
  }

  lemma FullQueueAhead(adj: seq<seq<int>>, dists: seq<real>, entry: int, limit: nat, q: seq<Neighbor>,
                       seen: map<int, real>, order: seq<int>, k: nat, x: int)
    requires SmallestOf(q, limit, seen) && SeenNodes(seen, dists) && x in seen && !Queued(q, x) && k <= |order|
    requires forall v :: v in seen <==> Reached(adj, entry, order, k, v)
    ensures |Ahead(adj, dists, entry, order, k, x)| >= limit
  {
    hide SmallestOf, Reached;
    QueueIsAhead(dists, limit, q, seen, x);
    var ahead, queued := Ahead(adj, dists, entry, order, k, x), ToSet(Ids(q));
    assert ahead == queued + (ahead - queued);
  }

  /** Beyond a fixed point there is nothing to expand. */
  lemma NothingIsBest(adj: seq<seq<int>>, dists: seq<real>, entry: int, limit: nat, q: seq<Neighbor>,
                      pool: seq<Neighbor>, seen: map<int, real>, order: seq<int>)
    requires FixedPoint(adj, dists, entry, limit, q, pool, seen)
    requires |order| > |pool| && order[..|pool|] == Ids(pool)
    ensures !BestAt(adj, dists, entry, limit, order, |pool|)
  {
    hide BestFirst, InTurn, SmallestOf, Reached;
    var n, x := |pool|, order[|pool|];
    assert Ids(pool)[..n] == Ids(pool);
    forall v ensures v in seen <==> Reached(adj, entry, order, n, v) {
      FixedSeen(adj, dists, entry, limit, q, pool, seen, v);
      SamePrefixReached(adj, entry, order, Ids(pool), n, v);
    }
    if x in seen && !Queued(q, x) {
      FullQueueAhead(adj, dists, entry, limit, q, seen, order, n, x);
    }
  }

  /** A seen node that is not queued has the whole full queue ahead of it. */
  lemma QueueIsAhead(dists: seq<real>, limit: nat, q: seq<Neighbor>, seen: map<int, real>, x: int)
    requires SmallestOf(q, limit, seen) && SeenNodes(seen, dists) && x in seen && !Queued(q, x)
    ensures |ToSet(Ids(q))| == limit
    ensures forall u :: u in ToSet(Ids(q)) ==> u in seen && Less(NodeAt(dists, u), NodeAt(dists, x))
  {
    NoDupCardinality(Ids(q));
    forall u | u in ToSet(Ids(q)) ensures u in seen && Less(NodeAt(dists, u), NodeAt(dists, x)) {
      var i :| 0 <= i < |q| && Ids(q)[i] == u;
    }
  }

  lemma NotLonger(adj: seq<seq<int>>, dists: seq<real>, entry: int, limit: nat, q: seq<Neighbor>, pool: seq<Neighbor>,
                  seen: map<int, real>, order: seq<int>)
    requires FixedPoint(adj, dists, entry, limit, q, pool, seen) && BestFirst(adj, dists, entry, limit, order)
    ensures |order| <= |pool|
  {
    hide BestAt;
    if |order| > |pool| {
      assert BestFirst(adj, dists, entry, limit, Ids(pool)) by {
        hide BestFirst;
      }
      OrdersAgree(adj, dists, entry, limit, Ids(pool), order, |pool|);
      assert Ids(pool)[..|pool|] == Ids(pool);
      NothingIsBest(adj, dists, entry, limit, q, pool, seen, order);
    }
  }

  /** The search has one outcome: which nodes are expanded, in which order, and which are found. */
  lemma SearchIsUnique(adj: seq<seq<int>>, dists: seq<real>, entry: int, limit: nat,
                       q: seq<Neighbor>, pool: seq<Neighbor>, seen: map<int, real>,
                       q': seq<Neighbor>, pool': seq<Neighbor>, seen': map<int, real>)
    requires FixedPoint(adj, dists, entry, limit, q, pool, seen) && FixedPoint(adj, dists, entry, limit, q', pool', seen')
    ensures pool == pool' && seen == seen'
    ensures forall v :: Queued(q, v) <==> Queued(q', v)
  {
    hide BestFirst, InTurn, SmallestOf;
    NotLonger(adj, dists, entry, limit, q, pool, seen, Ids(pool'));
    NotLonger(adj, dists, entry, limit, q', pool', seen', Ids(pool));
    OrdersAgree(adj, dists, entry, limit, Ids(pool), Ids(pool'), |pool|);
    assert Ids(pool)[..|pool|] == Ids(pool) && Ids(pool')[..|pool|] == Ids(pool');
    forall v ensures v in seen <==> v in seen' {
      FixedSeen(adj, dists, entry, limit, q, pool, seen, v);
      FixedSeen(adj, dists, entry, limit, q', pool', seen', v);
    }
    assert forall i :: 0 <= i < |pool| ==> Ids(pool)[i] == Ids(pool')[i] && pool[i] == pool'[i];
    SameSeen(dists, seen, seen');
    SmallestAgree(dists, q, q', limit, seen);
    SmallestAgree(dists, q', q, limit, seen);
  }

  lemma SameSeen(dists: seq<real>, a: map<int, real>, b: map<int, real>)
    requires SeenNodes(a, dists) && SeenNodes(b, dists) && forall v :: v in a <==> v in b
    ensures a == b
  {
    forall v ensures v in a.Keys <==> v in b.Keys {
    }
    assert a.Keys == b.Keys;
    forall v | v in a ensures a[v] == b[v] {
    }
  }

  lemma SmallestAgree(dists: seq<real>, q: seq<Neighbor>, q': seq<Neighbor>, limit: nat, seen: map<int, real>)
    requires SmallestOf(q, limit, seen) && SmallestOf(q', limit, seen) && SeenNodes(seen, dists)
    ensures forall v :: Queued(q, v) ==> Queued(q', v)
  {
    SetIsShort(Ids(q));
    forall v | Queued(q, v) ensures Queued(q', v) {
      if !Queued(q', v) {
        OneMore(dists, q, q', limit, seen, v);
      }
    }
  }

  lemma OneMore(dists: seq<real>, q: seq<Neighbor>, q': seq<Neighbor>, limit: nat, seen: map<int, real>, v: int)
    requires SmallestOf(q, limit, seen) && SmallestOf(q', limit, seen) && SeenNodes(seen, dists)
    requires Queued(q, v) && !Queued(q', v)
    ensures |ToSet(Ids(q))| > limit
  {
    hide SmallestOf, Less, Queued;
    QueuedIds(q, limit, seen);
    QueuedIds(q', limit, seen);
    QueueIsAhead(dists, limit, q', seen, v);
    forall u | u in ToSet(Ids(q')) ensures Queued(q, u) {
      AheadIsQueued(dists, q, limit, seen, v, u);
    }
    BiggerSet(ToSet(Ids(q')), v, ToSet(Ids(q)));
  }

  /** What is nearer than a queued node is queued. */
  lemma AheadIsQueued(dists: seq<real>, q: seq<Neighbor>, limit: nat, seen: map<int, real>, v: int, u: int)
    requires SmallestOf(q, limit, seen) && SeenNodes(seen, dists) && Queued(q, v) && v in seen && u in seen
    requires Less(NodeAt(dists, u), NodeAt(dists, v))
    ensures Queued(q, u)
  {
    var i :| 0 <= i < |q| && q[i].id == v;
    assert q[i].dist == dists[v];
  }

  lemma QueuedIds(q: seq<Neighbor>, limit: nat, seen: map<int, real>)
    requires SmallestOf(q, limit, seen)
    ensures forall u :: Queued(q, u) <==> u in ToSet(Ids(q))
    ensures forall u :: Queued(q, u) ==> u in seen
  {
    forall u | Queued(q, u) ensures u in ToSet(Ids(q)) && u in seen {
      var i :| 0 <= i < |q| && q[i].id == u;
      assert Ids(q)[i] == u;
    }
  }

  lemma BiggerSet(small: set<int>, v: int, all: set<int>)
    requires small <= all && v in all && v !in small
    ensures |all| > |small|
  {
    assert all == small + {v} + (all - small - {v});
  }

  lemma {:induction false} BoundedIds(s: set<int>, n: nat)
    requires forall v :: v in s ==> 0 <= v < n
    ensures |s| <= n
  {
    if n > 0 {
      BoundedIds(s - {n - 1}, n - 1);
    } else {
      assert forall v :: v !in s;
    }
  }

  lemma ToSetAppend<T>(s: seq<T>, x: T)
    ensures ToSet(s + [x]) == ToSet(s) + {x}
  {
  }

  /** The queue, its cursor and the visited flags are what the history `run` says. */
  ghost predicate Tracks(run: Run, limit: nat, data: seq<Neighbor>, cur: nat, visited: seq<bool>, dists: seq<real>) {
    && Inv(run, limit) && run.q == data && run.cur == cur
    && SeenNodes(run.seen, dists) && |visited| == |dists|
    && forall v :: 0 <= v < |visited| ==> (visited[v] <==> v in run.seen)
  }

  lemma TrackedInsert(run: Run, limit: nat, data: seq<Neighbor>, cur: nat, visited: seq<bool>, dists: seq<real>, v: nat)
    requires limit > 0 && Tracks(run, limit, data, cur, visited, dists) && v < |visited| && !visited[v]
    ensures var x := Neighbor(v, dists[v], false);
      && Allowed(run, Insert(v, dists[v]))
      && Tracks(Do(run, limit, Insert(v, dists[v])), limit, Inserted(data, limit, x),
                CursorAfterInsert(data, limit, cur, x), visited[v := true], dists)
  {
    hide Inserted, CursorAfterInsert, SmallestOf;
    InsertKeepsInv(run, limit, v, dists[v]);
    hide Inv;
  }

  lemma TrackedQueue(run: Run, limit: nat, data: seq<Neighbor>, cur: nat, visited: seq<bool>, dists: seq<real>)
    requires Tracks(run, limit, data, cur, visited, dists)
    ensures |data| <= limit && Sorted(data) && CursorAtFirstUnexpanded(data, cur)
    ensures forall i :: 0 <= i < |data| ==> 0 <= data[i].id < |visited| && visited[data[i].id]
    ensures forall i :: 0 <= i < |data| ==> IsEntry(data[i], dists)
  {
  }

  /** Insert every node of `list` that has not been visited. */
  method VisitAll(best: BestQueue, visited: array<bool>, list: seq<int>, dists: seq<real>, limit: nat, ghost run: Run)
    returns (ghost after: Run)
    requires limit > 0 && best.cap == limit
    requires Tracks(run, limit, best.data, best.cur, visited[..], dists)
    requires forall i :: 0 <= i < |list| ==> 0 <= list[i] < |dists|
    modifies best, visited
    ensures best.cap == limit && Tracks(after, limit, best.data, best.cur, visited[..], dists)
    ensures after.handed == run.handed && run.seen.Keys <= after.seen.Keys
    ensures forall i :: 0 <= i < |list| ==> list[i] in after.seen
    ensures forall v :: v in after.seen ==> v in run.seen || v in list
  {
    hide Inserted, CursorAfterInsert, Tracks;
    after := run;
    SeenFlags(run, limit, best.data, best.cur, visited[..], dists);
    for i := 0 to |list|
      invariant best.cap == limit && Tracks(after, limit, best.data, best.cur, visited[..], dists)
      invariant visited.Length == |dists|
      invariant after.handed == run.handed && run.seen.Keys <= after.seen.Keys
      invariant forall j :: 0 <= j < i ==> list[j] in after.seen
      invariant forall v :: v in after.seen ==> v in run.seen || v in list
    {
      SeenFlags(after, limit, best.data, best.cur, visited[..], dists);
      var v := list[i];
      if !visited[v] {
        TrackedQueue(after, limit, best.data, best.cur, visited[..], dists);
        TrackedInsert(after, limit, best.data, best.cur, visited[..], dists, v);
        assert visited[..][v := true] == visited[..v] + [true] + visited[v + 1..];
        visited[v] := true;
        best.Insert(Neighbor(v, dists[v], false));
        after := Do(after, limit, Insert(v, dists[v]));
      }
    }
  }

  lemma SeenFlags(run: Run, limit: nat, data: seq<Neighbor>, cur: nat, visited: seq<bool>, dists: seq<real>)
    requires Tracks(run, limit, data, cur, visited, dists)
    ensures |visited| == |dists| && SeenNodes(run.seen, dists) && Inv(run, limit) && run.cur <= |run.q|
    ensures run.q == data && run.cur == cur
    ensures forall v :: 0 <= v < |visited| ==> (visited[v] <==> v in run.seen)
  {
  }

  lemma TrackedNext(run: Run, limit: nat, data: seq<Neighbor>, cur: nat, visited: seq<bool>, dists: seq<real>)
    requires limit > 0 && Tracks(run, limit, data, cur, visited, dists) && cur < |data|
    ensures Allowed(run, Next) && run.cur <= |run.q|
    ensures var after := Do(run, limit, Next);
      && Tracks(after, limit, Expand(data, cur), NextUnexpanded(Expand(data, cur), cur), visited, dists)
      && data[cur].id in run.seen && data[cur].id !in run.handed
      && after.handed == run.handed + {data[cur].id} && after.seen == run.seen
  {
    NextIsFresh(run, limit);
    hide Inv;
  }

  /** Everything the search has expanded, as the outer loop keeps it. */
  ghost predicate Expanded(adj: seq<seq<int>>, dists: seq<real>, entry: int, limit: nat, pool: seq<Neighbor>, run: Run) {
    && run.handed == ToSet(Ids(pool)) && NoDup(Ids(pool))
    && (forall i :: 0 <= i < |pool| ==> IsEntry(pool[i], dists) && pool[i].expanded)
    && ClosedUnder(adj, run.handed, run.seen)
    && InTurn(adj, entry, Ids(pool)) && BestFirst(adj, dists, entry, limit, Ids(pool))
    && entry in run.seen && (forall v :: v in run.seen ==> Reached(adj, entry, Ids(pool), |pool|, v))
  }

  lemma SeenIsReached(adj: seq<seq<int>>, dists: seq<real>, entry: int, limit: nat, pool: seq<Neighbor>, run: Run, v: int)
    requires Expanded(adj, dists, entry, limit, pool, run)
    ensures v in run.seen <==> Reached(adj, entry, Ids(pool), |pool|, v)
    ensures v in run.handed <==> v in Ids(pool)
  {
    hide BestFirst, InTurn;
    if v != entry && Reached(adj, entry, Ids(pool), |pool|, v) {
      var j :| 0 <= j < |pool| && Links(adj, Ids(pool)[j], v);
      assert Ids(pool)[j] in run.handed;
    }
  }

  /** What the queue hands out next is the best node to expand. */
  lemma NextIsBest(adj: seq<seq<int>>, dists: seq<real>, entry: int, limit: nat, pool: seq<Neighbor>, run: Run,
                   data: seq<Neighbor>, cur: nat, visited: seq<bool>)
    requires Expanded(adj, dists, entry, limit, pool, run) && Tracks(run, limit, data, cur, visited, dists) && cur < |data|
    ensures BestAt(adj, dists, entry, limit, Ids(pool) + [data[cur].id], |pool|)
  {
    hide Expanded;
    var order, x := Ids(pool) + [data[cur].id], data[cur].id;
    assert order[..|pool|] == Ids(pool);
    forall v ensures v in run.seen <==> Reached(adj, entry, order, |pool|, v)
      ensures v in run.handed <==> v in Ids(pool)
    {
      SeenIsReached(adj, dists, entry, limit, pool, run, v);
      SameReached(adj, entry, Ids(pool), x, |pool|, v);
    }
    hide Reached;
    InFront(run, limit, dists, data, cur);
    SetIsShort(Ids(data[..cur]));
    var ahead := Ahead(adj, dists, entry, order, |pool|, x);
    var front := ToSet(Ids(data[..cur]));
    assert ahead <= front;
    assert front == ahead + (front - ahead);
  }

  lemma SameReached(adj: seq<seq<int>>, entry: int, order: seq<int>, x: int, k: nat, v: int)
    requires k <= |order|
    ensures Reached(adj, entry, order + [x], k, v) == Reached(adj, entry, order, k, v)
  {
    assert forall j :: 0 <= j < k ==> (order + [x])[j] == order[j];
  }

  lemma InFront(run: Run, limit: nat, dists: seq<real>, q: seq<Neighbor>, cur: nat)
    requires Inv(run, limit) && run.q == q && run.cur == cur < |q| && SeenNodes(run.seen, dists)
    ensures q[cur].id in run.seen && q[cur].id !in run.handed
    ensures forall u :: u in run.seen && Less(NodeAt(dists, u), NodeAt(dists, q[cur].id)) ==> u in ToSet(Ids(q[..cur]))
    ensures forall u :: u in run.seen && u !in run.handed && u != q[cur].id ==>
      Less(NodeAt(dists, q[cur].id), NodeAt(dists, u))
  {
    forall u | u in run.seen && Less(NodeAt(dists, u), NodeAt(dists, q[cur].id)) ensures u in ToSet(Ids(q[..cur])) {
      assert Queued(q, u);
      var i :| 0 <= i < |q| && q[i].id == u;
      assert i < cur;
      assert Ids(q[..cur])[i] == u;
    }
  }

  lemma BestStays(adj: seq<seq<int>>, dists: seq<real>, entry: int, limit: nat, order: seq<int>, x: int, k: nat)
    requires k < |order| && BestAt(adj, dists, entry, limit, order, k)
    ensures BestAt(adj, dists, entry, limit, order + [x], k)
  {
    assert (order + [x])[..k] == order[..k];
    forall v ensures Reached(adj, entry, order + [x], k, v) == Reached(adj, entry, order, k, v) {
      SameReached(adj, entry, order, x, k, v);
    }
    hide Reached;
    assert Ahead(adj, dists, entry, order + [x], k, order[k]) == Ahead(adj, dists, entry, order, k, order[k]);
  }

  lemma BestFirstGrows(adj: seq<seq<int>>, dists: seq<real>, entry: int, limit: nat, order: seq<int>, x: int)
    requires BestFirst(adj, dists, entry, limit, order) && BestAt(adj, dists, entry, limit, order + [x], |order|)
    ensures BestFirst(adj, dists, entry, limit, order + [x])
  {
    hide BestAt;
    forall k | 0 <= k < |order| ensures BestAt(adj, dists, entry, limit, order + [x], k) {
      BestStays(adj, dists, entry, limit, order, x, k);
    }
  }

  lemma ExpandedStep(adj: seq<seq<int>>, dists: seq<real>, entry: int, limit: nat, pool: seq<Neighbor>, run: Run,
                     x: Neighbor, after: Run)
    requires ValidGraph(adj) && Expanded(adj, dists, entry, limit, pool, run) && |dists| == |adj|
    requires IsEntry(x, dists) && x.expanded
    requires x.id in run.seen && x.id !in run.handed && after.handed == run.handed + {x.id}
    requires run.seen.Keys <= after.seen.Keys
    requires forall i :: 0 <= i < |adj[x.id]| ==> adj[x.id][i] in after.seen
    requires forall v :: v in after.seen ==> v in run.seen || v in adj[x.id]
    requires BestAt(adj, dists, entry, limit, Ids(pool) + [x.id], |pool|)
    ensures Expanded(adj, dists, entry, limit, pool + [x], after)
  {
    hide BestAt, BestFirst;
    BestFirstGrows(adj, dists, entry, limit, Ids(pool), x.id);
    assert Ids(pool + [x]) == Ids(pool) + [x.id];
    ToSetAppend(Ids(pool), x.id);
    var before, order := Ids(pool), Ids(pool + [x]);
    forall k, v | 0 <= k <= |pool| && Reached(adj, entry, before, k, v) ensures Reached(adj, entry, order, k, v) {
      ReachedByMore(adj, entry, before, x.id, k, v);
    }
    forall v | v in after.seen ensures Reached(adj, entry, order, |order|, v) {
      if v in run.seen {
        assert Reached(adj, entry, before, |pool|, v) && Reached(adj, entry, order, |pool|, v);
      } else {
        assert Links(adj, order[|pool|], v);
      }
    }
    forall k | 0 <= k < |order| ensures Reached(adj, entry, order, k, order[k]) {
      assert k < |pool| ==> Reached(adj, entry, before, k, before[k]);
    }
  }

  lemma ReachedByMore(adj: seq<seq<int>>, entry: int, order: seq<int>, x: int, k: nat, v: int)
    requires k <= |order| && Reached(adj, entry, order, k, v)
    ensures Reached(adj, entry, order + [x], k, v)
  {
    if v != entry {
      var j :| 0 <= j < k && Links(adj, order[j], v);
      assert Links(adj, (order + [x])[j], v);
    }
  }

  lemma AllExpanded(q: seq<Neighbor>, limit: nat, run: Run)
    requires Inv(run, limit) && run.q == q && run.cur == |q|
    ensures SmallestOf(q, limit, run.seen)
    ensures forall i :: 0 <= i < |q| ==> q[i].expanded && q[i].id in run.handed
  {
  }

  /** Search from `entry` with a queue of `limit` entries. */
  method BeamSearch(adj: seq<seq<int>>, dists: seq<real>, entry: nat, limit: nat)
    returns (q: seq<Neighbor>, pool: seq<Neighbor>, ghost seen: map<int, real>)
    requires ValidGraph(adj) && |dists| == |adj| && entry < |adj| && limit > 0
    ensures FixedPoint(adj, dists, entry, limit, q, pool, seen)
    ensures exists marked :: FixedPoint(adj, dists, entry, limit, q, pool, marked)
  {
    hide Tracks, Inserted, CursorAfterInsert, Inv, SmallestOf, Expanded;
    var visited := new bool[|adj|](_ => false);
    var best := new BestQueue(limit);
    StartTracks(limit, visited[..], dists);
    ghost var run := VisitAll(best, visited, [entry], dists, limit, Empty());
    pool := [];
    assert [entry][0] == entry;
    StartExpanded(adj, dists, entry, limit, run);
    while best.cur < |best.data|
      invariant fresh(best) && fresh(visited) && best.cap == limit
      invariant Tracks(run, limit, best.data, best.cur, visited[..], dists)
      invariant Expanded(adj, dists, entry, limit, pool, run)
      invariant |run.handed| <= |adj|
      decreases |adj| - |run.handed|
    {
      TrackedQueue(run, limit, best.data, best.cur, visited[..], dists);
      TrackedNext(run, limit, best.data, best.cur, visited[..], dists);
      ghost var before := run;
      NextIsBest(adj, dists, entry, limit, pool, run, best.data, best.cur, visited[..]);
      var current := best.ClosestUnexpanded();
      run := Do(run, limit, Next);
      run := VisitAll(best, visited, adj[current.id], dists, limit, run);
      ExpandedStep(adj, dists, entry, limit, pool, before, current, run);
      pool := pool + [current];
      HandedBounded(adj, dists, run, limit, best.data, best.cur, visited[..]);
    }
    TrackedQueue(run, limit, best.data, best.cur, visited[..], dists);
    SeenFlags(run, limit, best.data, best.cur, visited[..], dists);
    AllExpanded(best.data, limit, run);
    q, seen := best.data, run.seen;
    FixedPointFrom(adj, dists, entry, limit, q, pool, run);
  }

  lemma StartTracks(limit: nat, visited: seq<bool>, dists: seq<real>)
    requires |visited| == |dists| && forall v :: 0 <= v < |visited| ==> !visited[v]
    ensures Tracks(Empty(), limit, [], 0, visited, dists)
  {
  }

  lemma StartExpanded(adj: seq<seq<int>>, dists: seq<real>, entry: int, limit: nat, run: Run)
    requires run.handed == {} && entry in run.seen && forall v :: v in run.seen ==> v == entry
    ensures Expanded(adj, dists, entry, limit, [], run)
  {
  }

  lemma HandedBounded(adj: seq<seq<int>>, dists: seq<real>, run: Run, limit: nat, data: seq<Neighbor>, cur: nat,
                      visited: seq<bool>)
    requires Tracks(run, limit, data, cur, visited, dists) && |dists| == |adj|
    ensures |run.handed| <= |adj|
  {
    BoundedIds(run.handed, |adj|);
  }

  lemma FixedPointFrom(adj: seq<seq<int>>, dists: seq<real>, entry: int, limit: nat, q: seq<Neighbor>,
                       pool: seq<Neighbor>, run: Run)
    requires SmallestOf(q, limit, run.seen) && SeenNodes(run.seen, dists) && Expanded(adj, dists, entry, limit, pool, run)
    requires forall i :: 0 <= i < |q| ==> q[i].expanded && q[i].id in run.handed
    ensures FixedPoint(adj, dists, entry, limit, q, pool, run.seen)
  {
  }
}
