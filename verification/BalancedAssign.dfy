/**
  The capacity-bounded assignment inside balanced_kmeans of python/train_geometric_cells.py:
  points choose in order of confidence, each the nearest cluster that still has room.
 */
module BalancedAssign {
  import opened Common
  import opened AssignmentCodec

  /** How many clusters hold `count` points at `target` points each. */
  function ClusterCount(count: nat, target: nat): (k: nat)
    requires target > 0
    ensures k > 0
  {
    var k := (count + target - 1) / target;
    if k < 1 then 1 else k
  }

  /** The capacities differ by at most one, the larger ones first. */
  function Capacities(count: nat, k: nat): (capacity: seq<nat>)
    requires k > 0
    ensures |capacity| == k
    ensures forall c :: 0 <= c < k ==> capacity[c] == count / k + if c < count % k then 1 else 0
  {
    seq(k, c => count / k + if c < count % k then 1 else 0)
  }

  lemma {:induction false} PrefixOfCapacities(count: nat, k: nat, n: nat)
    requires 0 < k && n <= k
    ensures Before(Capacities(count, k), n) == n * (count / k) + if n < count % k then n else count % k
  {
    if n > 0 {
      PrefixOfCapacities(count, k, n - 1);
      assert n * (count / k) == (n - 1) * (count / k) + count / k;
    }
  }

  lemma Divides(a: nat, b: nat)
    requires b > 0
    ensures a == b * (a / b) + a % b && a % b < b
  {
  }

  lemma ProductGrows(a: nat, b: nat, c: nat)
    requires a <= b
    ensures a * c <= b * c && c * a <= c * b
  {
  }

  lemma ClustersSuffice(count: nat, target: nat)
    requires target > 0
    ensures count <= target * ClusterCount(count, target)
  {
    var a := count + target - 1;
    Divides(a, target);
    ProductGrows(a / target, ClusterCount(count, target), target);
  }

  /** With one cluster fewer there would be too few places, unless there is only one. */
  lemma FewestClusters(count: nat, target: nat)
    requires target > 0
    ensures ClusterCount(count, target) == 1 || target * (ClusterCount(count, target) - 1) < count
  {
    Divides(count + target - 1, target);
  }

  /** When `q * k + r` items fit in `k` groups of `target`, so do `q` each and one more if some are left over. */
  lemma ShareFits(q: nat, r: nat, k: nat, target: nat)
    requires k > 0 && k * q + r <= target * k
    ensures q <= target && (r > 0 ==> q < target)
  {
    assert (target + 1) * k == target * k + k && k * q == q * k;
    if q > target {
      ProductGrows(target + 1, q, k);
    }
  }

  /** The capacities add up to the number of points, and none exceeds the target size. */
  lemma CapacitiesFit(count: nat, target: nat)
    requires target > 0
    ensures var k := ClusterCount(count, target);
      && Before(Capacities(count, k), k) == count
      && forall c :: 0 <= c < k ==> Capacities(count, k)[c] <= target
  {
    hide ClusterCount, Before;
    var k := ClusterCount(count, target);
    PrefixOfCapacities(count, k, k);
    Divides(count, k);
    ClustersSuffice(count, target);
    ShareFits(count / k, count % k, k, target);
  }

  /** The clusters of the first `n` points of the order. */
  function InOrder(assignment: seq<nat>, order: seq<nat>, n: nat): (chosen: seq<nat>)
    requires n <= |order| && forall i :: 0 <= i < |order| ==> order[i] < |assignment|
    ensures |chosen| == n && forall i :: 0 <= i < n ==> chosen[i] == assignment[order[i]]
  {
    seq(n, i requires 0 <= i < n => assignment[order[i]])
  }

  /** All clusters, each once, in some order. */
  ghost predicate Ranking(preference: seq<nat>, k: nat) {
    |preference| == k && NoDup(preference) && forall i :: 0 <= i < k ==> preference[i] < k
  }

  /** The `i`-th point has the cluster it prefers among those not yet full when its turn came. */
  ghost predicate BestWithRoom(chosen: seq<nat>, capacity: seq<nat>, preference: seq<nat>, i: nat)
    requires i < |chosen|
  {
    exists rank ::
      && 0 <= rank < |preference| && preference[rank] == chosen[i]
      && FullBefore(chosen, capacity, preference, i, rank)
  }

  /** The clusters ranked before `rank` were full of the points before `i`. */
  ghost predicate FullBefore(chosen: seq<nat>, capacity: seq<nat>, preference: seq<nat>, i: nat, rank: int)
    requires i < |chosen|
  {
    forall b :: 0 <= b < rank && b < |preference| ==>
      preference[b] < |capacity| && Count(chosen[..i], preference[b]) == capacity[preference[b]]
  }

  ghost predicate Rooms(remaining: seq<nat>, capacity: seq<nat>, chosen: seq<nat>) {
    && |remaining| == |capacity| && (forall i :: 0 <= i < |chosen| ==> chosen[i] < |capacity|)
    && forall c :: 0 <= c < |capacity| ==> remaining[c] + Count(chosen, c) == capacity[c]
  }

  lemma {:induction false} SumOfParts(a: seq<nat>, b: seq<nat>, c: seq<nat>, n: nat)
    requires |a| == |b| == |c| && n <= |a| && forall i :: 0 <= i < |a| ==> a[i] + b[i] == c[i]
    ensures Before(a, n) + Before(b, n) == Before(c, n)
  {
    if n > 0 {
      SumOfParts(a, b, c, n - 1);
    }
  }

  /** Together the clusters have room for exactly the points that have not chosen. */
  lemma RoomLeft(remaining: seq<nat>, capacity: seq<nat>, chosen: seq<nat>)
    requires Rooms(remaining, capacity, chosen)
    ensures Before(remaining, |remaining|) + |chosen| == Before(capacity, |capacity|)
  {
    SumOfParts(remaining, Counts(chosen, |capacity|), capacity, |capacity|);
    CountsTotal(chosen, |capacity|);
  }

  lemma {:induction false} SomeRoom(remaining: seq<nat>, n: nat) returns (c: nat)
    requires n <= |remaining| && Before(remaining, n) > 0
    ensures c < n && remaining[c] > 0
  {
    if remaining[n - 1] > 0 {
      c := n - 1;
    } else {
      c := SomeRoom(remaining, n - 1);
    }
  }

  lemma {:induction false} NoRoom(remaining: seq<nat>, n: nat, c: nat)
    requires n <= |remaining| && Before(remaining, n) == 0 && c < n
    ensures remaining[c] == 0
  {
    if c < n - 1 {
      NoRoom(remaining, n - 1, c);
    }
  }

  lemma RoomsStep(remaining: seq<nat>, capacity: seq<nat>, chosen: seq<nat>, c: nat)
    requires Rooms(remaining, capacity, chosen) && c < |capacity| && remaining[c] > 0
    ensures Rooms(remaining[c := remaining[c] - 1], capacity, chosen + [c])
  {
    assert (chosen + [c])[..|chosen|] == chosen;
  }

  lemma BestStays(chosen: seq<nat>, x: nat, capacity: seq<nat>, preference: seq<nat>, i: nat)
    requires i < |chosen| && BestWithRoom(chosen, capacity, preference, i)
    ensures BestWithRoom(chosen + [x], capacity, preference, i)
  {
    assert (chosen + [x])[..i] == chosen[..i];
    var rank :| 0 <= rank < |preference| && preference[rank] == chosen[i] && FullBefore(chosen, capacity, preference, i, rank);
    assert FullBefore(chosen + [x], capacity, preference, i, rank);
  }

  /** Take the first cluster of the ranking with room; there is one while points remain. */
  method ChooseCluster(preference: seq<nat>, remaining: seq<nat>) returns (rank: nat)
    requires Ranking(preference, |remaining|) && Before(remaining, |remaining|) > 0
    ensures rank < |preference| && remaining[preference[rank]] > 0
    ensures forall b :: 0 <= b < rank ==> remaining[preference[b]] == 0
  {
    ghost var c := SomeRoom(remaining, |remaining|);
    NoDupCovers(preference, c);
    ghost var at :| 0 <= at < |preference| && preference[at] == c;
    rank := 0;
    while remaining[preference[rank]] == 0
      invariant rank <= at && forall b :: 0 <= b < rank ==> remaining[preference[b]] == 0
      decreases at - rank
    {
      rank := rank + 1;
    }
  }

  /**
    Assign every point. Each cluster gets exactly its capacity, and a point is passed over by a
    cluster it prefers only when points before it in the order have filled that cluster.
   */
  method AssignByCapacity(order: seq<nat>, preferences: seq<seq<nat>>,
                          capacity: seq<nat>) returns (assignment: seq<nat>)
    requires IsPermutation(order) && |preferences| == |order| && Before(capacity, |capacity|) == |order|
    requires forall p :: 0 <= p < |preferences| ==> Ranking(preferences[p], |capacity|)
    ensures |assignment| == |order|
    ensures forall c :: 0 <= c < |capacity| ==> Count(InOrder(assignment, order, |order|), c) == capacity[c]
    ensures forall i :: 0 <= i < |order| ==>
      BestWithRoom(InOrder(assignment, order, |order|), capacity, preferences[order[i]], i)
  {
    hide Rooms, BestWithRoom, Ranking, Before;
    var unassigned := |capacity|;
    assignment := seq(|order|, _ => unassigned);
    var remaining := capacity;
    ghost var chosen: seq<nat> := [];
    NobodyChose(capacity);
    for i := 0 to |order|
      invariant |assignment| == |order| && chosen == InOrder(assignment, order, i)
      invariant Rooms(remaining, capacity, chosen)
      invariant forall j :: 0 <= j < i ==> BestWithRoom(chosen, capacity, preferences[order[j]], j)
    {
      var point := order[i];
      RoomLeft(remaining, capacity, chosen);
      RoomsShape(remaining, capacity, chosen);
      var rank := ChooseCluster(preferences[point], remaining);
      var cluster := preferences[point][rank];
      Chooses(remaining, capacity, chosen, preferences[point], rank);
      forall j | 0 <= j < i ensures BestWithRoom(chosen + [cluster], capacity, preferences[order[j]], j) {
        BestStays(chosen, cluster, capacity, preferences[order[j]], j);
      }
      assignment := assignment[point := cluster];
      remaining := remaining[cluster := remaining[cluster] - 1];
      chosen := chosen + [cluster];
      assert chosen == InOrder(assignment, order, i + 1);
    }
    AllFull(remaining, capacity, chosen);
  }

  lemma NobodyChose(capacity: seq<nat>)
    ensures Rooms(capacity, capacity, [])
  {
  }

  lemma RoomsShape(remaining: seq<nat>, capacity: seq<nat>, chosen: seq<nat>)
    requires Rooms(remaining, capacity, chosen)
    ensures |remaining| == |capacity|
  {
  }

  lemma Chooses(remaining: seq<nat>, capacity: seq<nat>, chosen: seq<nat>, preference: seq<nat>, rank: nat)
    requires Rooms(remaining, capacity, chosen) && Ranking(preference, |capacity|) && rank < |preference|
    requires remaining[preference[rank]] > 0 && forall b :: 0 <= b < rank ==> remaining[preference[b]] == 0
    ensures var c := preference[rank];
      && c < |remaining| && Rooms(remaining[c := remaining[c] - 1], capacity, chosen + [c])
      && BestWithRoom(chosen + [c], capacity, preference, |chosen|)
  {
    hide Count;
    RoomsStep(remaining, capacity, chosen, preference[rank]);
    assert (chosen + [preference[rank]])[..|chosen|] == chosen;
    assert FullBefore(chosen + [preference[rank]], capacity, preference, |chosen|, rank);
  }

  lemma AllFull(remaining: seq<nat>, capacity: seq<nat>, chosen: seq<nat>)
    requires Rooms(remaining, capacity, chosen) && |chosen| == Before(capacity, |capacity|)
    ensures forall c :: 0 <= c < |capacity| ==> Count(chosen, c) == capacity[c]
  {
    RoomLeft(remaining, capacity, chosen);
    forall c | 0 <= c < |capacity| ensures remaining[c] == 0 {
      NoRoom(remaining, |remaining|, c);
    }
  }
}
