/**
  RobustPrune of src/vamana.cc: choose at most `maxDegree` out-neighbours so that every
  candidate left out has a nearer chosen witness.
 */
module VamanaPrune {
  import opened Common
  import opened NeighborQueue
  import opened VamanaSearch

  /** Squared distance between two nodes. */
  type Metric = (int, int) -> real

  /** An occlusion factor; `Max` is the sentinel above every factor that is tried. */
  datatype Factor = Fin(value: real) | Max {
    predicate Exceeds(a: real) {
      Max? || value > a
    }
  }

  function RaiseTo(f: Factor, v: real): Factor {
    if f.Max? || f.value >= v then f else Fin(v)
  }

  /** The last of 1.2^k * a that is at most `alpha`. */
  function LastFactor(a: real, alpha: real): (r: real)
    requires 1.0 <= a <= alpha
    ensures a <= r <= alpha && 1.2 * r > alpha
    decreases 5.0 * (alpha - a)
  {
    if 1.2 * a > alpha then a else LastFactor(1.2 * a, alpha)
  }

  lemma LastFactorStep(a: real, alpha: real)
    requires 1.0 <= a <= alpha
    ensures LastFactor(a, alpha) == if 1.2 * a > alpha then a else LastFactor(1.2 * a, alpha)
  {
  }

  /** Candidate `i` coincides with candidate `j` or occludes it beyond factor `a`. */
  ghost predicate Occludes(pool: seq<Neighbor>, metric: Metric, i: int, j: int, a: real)
    requires 0 <= i < |pool| && 0 <= j < |pool|
  {
    var d := metric(pool[j].id, pool[i].id);
    d == 0.0 || pool[j].dist > a * d
  }

  /** The ids of the chosen candidates, without the node itself. */
  function ChosenIds(pool: seq<Neighbor>, node: int, chosen: seq<int>): seq<int>
    requires forall k :: 0 <= k < |chosen| ==> 0 <= chosen[k] < |pool|
  {
    if |chosen| == 0 then []
    else
      var rest := ChosenIds(pool, node, chosen[..|chosen| - 1]);
      var id := pool[chosen[|chosen| - 1]].id;
      if id == node then rest else rest + [id]
  }

  ghost predicate ValidChoice(pool: seq<Neighbor>, chosen: seq<int>) {
    (forall k :: 0 <= k < |chosen| ==> 0 <= chosen[k] < |pool|) && NoDup(chosen)
  }

  /** No chosen candidate was, when it was chosen, occluded beyond `alpha` by one earlier in the pool. */
  ghost predicate DiverseAt(pool: seq<Neighbor>, metric: Metric, chosen: seq<int>, alpha: real)
    requires ValidChoice(pool, chosen)
  {
    forall s, t :: 0 <= s < t < |chosen| && chosen[s] < chosen[t] ==> !Occludes(pool, metric, chosen[s], chosen[t], alpha)
  }

  // ---------- The order of the picks ----------

  /** The factor tried in round `e`. */
  function Power(e: nat): (a: real)
    ensures a >= 1.0
  {
    if e == 0 then 1.0 else 1.2 * Power(e - 1)
  }

  /** A pick earlier in the pool occludes candidate `j` beyond the factor `a`. */
  ghost predicate Blocked(pool: seq<Neighbor>, metric: Metric, picks: seq<int>, j: int, a: real)
    requires ValidChoice(pool, picks) && 0 <= j < |pool|
  {
    exists i :: i in picks && i < j && Occludes(pool, metric, i, j, a)
  }

  /** The first `n` candidates are picked or blocked. */
  ghost predicate Settled(pool: seq<Neighbor>, metric: Metric, picks: seq<int>, n: int, a: real)
    requires ValidChoice(pool, picks) && n <= |pool|
  {
    forall j :: 0 <= j < n ==> j in picks || Blocked(pool, metric, picks, j, a)
  }

  /**
    After `picks`, candidate `j` is picked in round `e`: it is the nearest one that is neither picked
    nor blocked at that round's factor, and at the factor before there was none left.
   */
  ghost predicate PickedNext(pool: seq<Neighbor>, metric: Metric, alpha: real, picks: seq<int>, j: int, e: nat)
    requires ValidChoice(pool, picks) && 0 <= j < |pool|
  {
    && Power(e) <= alpha
    && j !in picks && !Blocked(pool, metric, picks, j, Power(e)) && Settled(pool, metric, picks, j, Power(e))
    && (e > 0 ==> Settled(pool, metric, picks, |pool|, Power(e - 1)))
  }

  /** There is room for another pick, and `j` is its turn. */
  ghost predicate Due(pool: seq<Neighbor>, metric: Metric, node: int, limit: nat, alpha: real, picks: seq<int>, j: int) {
    && ValidChoice(pool, picks) && 0 <= j < |pool|
    && |ChosenIds(pool, node, picks)| < limit
    && exists e: nat :: PickedNext(pool, metric, alpha, picks, j, e)
  }

  /** Every pick was due when it was made. */
  ghost predicate DueInTurn(pool: seq<Neighbor>, metric: Metric, node: int, limit: nat, alpha: real, chosen: seq<int>) {
    forall t :: 0 <= t < |chosen| ==> Due(pool, metric, node, limit, alpha, chosen[..t], chosen[t])
  }

  lemma PickKeepsTurn(pool: seq<Neighbor>, metric: Metric, node: int, limit: nat, alpha: real, chosen: seq<int>, j: int)
    requires DueInTurn(pool, metric, node, limit, alpha, chosen) && Due(pool, metric, node, limit, alpha, chosen, j)
    ensures DueInTurn(pool, metric, node, limit, alpha, chosen + [j])
  {
    hide Due;
    var more := chosen + [j];
    forall t | 0 <= t < |more| ensures Due(pool, metric, node, limit, alpha, more[..t], more[t]) {
      assert more[..t] == if t < |chosen| then chosen[..t] else chosen;
    }
  }

  /** A pick more unsettles nothing. */
  lemma MorePicksSettle(pool: seq<Neighbor>, metric: Metric, picks: seq<int>, j: int, n: int, a: real)
    requires ValidChoice(pool, picks) && ValidChoice(pool, picks + [j]) && n <= |pool|
    requires Settled(pool, metric, picks, n, a)
    ensures Settled(pool, metric, picks + [j], n, a)
  {
    hide Occludes;
    forall k | 0 <= k < n && k !in picks + [j] ensures Blocked(pool, metric, picks + [j], k, a) {
      assert k !in picks && Blocked(pool, metric, picks, k, a);
      var i :| i in picks && i < k && Occludes(pool, metric, i, k, a);
      assert i in picks + [j];
    }
  }

  /** What a larger factor occludes, a smaller one does. */
  lemma SmallerSettles(pool: seq<Neighbor>, metric: Metric, picks: seq<int>, n: int, a: real, b: real)
    requires ValidChoice(pool, picks) && n <= |pool| && NonNegative(metric) && a <= b
    requires Settled(pool, metric, picks, n, b)
    ensures Settled(pool, metric, picks, n, a)
  {
    forall k | 0 <= k < n && k !in picks ensures Blocked(pool, metric, picks, k, a) {
      assert Blocked(pool, metric, picks, k, b);
      var i :| i in picks && i < k && Occludes(pool, metric, i, k, b);
      var d := metric(pool[k].id, pool[i].id);
      assert d >= 0.0 && a * d <= b * d;
      assert Occludes(pool, metric, i, k, a);
    }
  }

  lemma {:induction false} PowerGrows(d: nat, e: nat)
    requires d <= e
    ensures Power(d) <= Power(e)
  {
    if d < e {
      PowerGrows(d, e - 1);
    }
  }

  lemma {:induction false} LastFactorIsLast(d: nat, e: nat, alpha: real)
    requires d <= e && Power(e) <= alpha && Power(d) <= alpha
    ensures Power(e) <= LastFactor(Power(d), alpha)
    decreases e - d
  {
    if e > d {
      PowerGrows(d + 1, e);
      LastFactorIsLast(d + 1, e, alpha);
    }
  }

  /** What is picked next is determined by what was picked before. */
  lemma NextIsUnique(pool: seq<Neighbor>, metric: Metric, node: int, limit: nat, alpha: real,
                     picks: seq<int>, j: int, j': int)
    requires NonNegative(metric)
    requires Due(pool, metric, node, limit, alpha, picks, j) && Due(pool, metric, node, limit, alpha, picks, j')
    ensures j == j'
  {
    hide Blocked, Power, ChosenIds;
    var e: nat :| PickedNext(pool, metric, alpha, picks, j, e);
    var e': nat :| PickedNext(pool, metric, alpha, picks, j', e');
    if e < e' {
      PowerGrows(e, e' - 1);
      SmallerSettles(pool, metric, picks, |pool|, Power(e), Power(e' - 1));
    } else if e' < e {
      PowerGrows(e', e - 1);
      SmallerSettles(pool, metric, picks, |pool|, Power(e'), Power(e - 1));
    }
  }

  lemma {:induction false} PrefixesAgree(pool: seq<Neighbor>, metric: Metric, node: int, limit: nat, alpha: real,
                                         a: seq<int>, b: seq<int>, n: nat)
    requires NonNegative(metric) && n <= |a| && n <= |b|
    requires DueInTurn(pool, metric, node, limit, alpha, a) && DueInTurn(pool, metric, node, limit, alpha, b)
    ensures a[..n] == b[..n]
  {
    hide Due;
    if n > 0 {
      var k := n - 1;
      PrefixesAgree(pool, metric, node, limit, alpha, a, b, k);
      NextIsUnique(pool, metric, node, limit, alpha, a[..k], a[k], b[k]);
      assert a[..n] == a[..k] + [a[k]] && b[..n] == b[..k] + [b[k]];
    }
  }

  /** There is no room for another pick, or nothing is left to pick at any factor. */
  ghost predicate Exhausted(pool: seq<Neighbor>, metric: Metric, node: int, limit: nat, alpha: real, chosen: seq<int>)
    requires ValidChoice(pool, chosen)
  {
    |ChosenIds(pool, node, chosen)| < limit && alpha >= 1.0 ==> Settled(pool, metric, chosen, |pool|, LastFactor(1.0, alpha))
  }

  lemma NothingIsDue(pool: seq<Neighbor>, metric: Metric, node: int, limit: nat, alpha: real, picks: seq<int>, j: int)
    requires NonNegative(metric) && ValidChoice(pool, picks) && Exhausted(pool, metric, node, limit, alpha, picks)
    ensures !Due(pool, metric, node, limit, alpha, picks, j)
  {
    hide LastFactor, Blocked, ChosenIds;
    if Due(pool, metric, node, limit, alpha, picks, j) {
      var e: nat :| PickedNext(pool, metric, alpha, picks, j, e);
      PowerGrows(0, e);
      LastFactorIsLast(0, e, alpha);
      SmallerSettles(pool, metric, picks, |pool|, Power(e), LastFactor(1.0, alpha));
    }
  }

  lemma NoLongerChoice(pool: seq<Neighbor>, metric: Metric, node: int, limit: nat, alpha: real,
                       a: seq<int>, b: seq<int>)
    requires NonNegative(metric) && ValidChoice(pool, a) && Exhausted(pool, metric, node, limit, alpha, a)
    requires DueInTurn(pool, metric, node, limit, alpha, a) && DueInTurn(pool, metric, node, limit, alpha, b)
    ensures |b| <= |a|
  {
    hide Due, Exhausted;
    if |b| > |a| {
      PrefixesAgree(pool, metric, node, limit, alpha, a, b, |a|);
      assert b[..|a|] == a;
      NothingIsDue(pool, metric, node, limit, alpha, a, b[|a|]);
    }
  }

  /** Increasing (distance, id) order. */
  ghost predicate NonDecreasing(q: seq<Neighbor>) {
    forall i, j :: 0 <= i < j < |q| ==> !Less(q[j], q[i])
  }

  // ---------- What the answer means ----------

  /** The chosen candidates, in the order they were chosen. */
  function Picked(pool: seq<Neighbor>, chosen: seq<int>): (r: seq<Neighbor>)
    requires forall k :: 0 <= k < |chosen| ==> 0 <= chosen[k] < |pool|
    ensures |r| == |chosen| && forall k :: 0 <= k < |r| ==> r[k] == pool[chosen[k]]
  {
    seq(|chosen|, k requires 0 <= k < |chosen| => pool[chosen[k]])
  }

  /** `p` coincides with `w`, or `w` is nearer to `p` than the node is by more than the factor `a`. */
  ghost predicate OccludedBy(p: Neighbor, w: Neighbor, metric: Metric, a: real) {
    var d := metric(p.id, w.id);
    d == 0.0 || p.dist > a * d
  }

  /** `w` is a witness against `p`: no farther from the node, and it occludes `p`. */
  ghost predicate Witness(p: Neighbor, w: Neighbor, metric: Metric, a: real) {
    (w.dist < p.dist || (w.dist == p.dist && w.id <= p.id)) && OccludedBy(p, w, metric, a)
  }

  /** Of two picks the later is not occluded beyond `alpha` by the earlier, if that one is nearer. */
  ghost predicate Diverse(picked: seq<Neighbor>, metric: Metric, alpha: real) {
    forall s, t :: 0 <= s < t < |picked| && Less(picked[s], picked[t]) ==> !OccludedBy(picked[t], picked[s], metric, alpha)
  }

  /** Everything in the pool was picked or has a picked witness against it. */
  ghost predicate Covered(pool: seq<Neighbor>, picked: seq<Neighbor>, metric: Metric, a: real) {
    forall p :: p in pool && p !in picked ==> exists w :: w in picked && Witness(p, w, metric, a)
  }

  lemma DiverseInDistances(pool: seq<Neighbor>, metric: Metric, chosen: seq<int>, alpha: real)
    requires NonDecreasing(pool) && ValidChoice(pool, chosen) && DiverseAt(pool, metric, chosen, alpha)
    ensures Diverse(Picked(pool, chosen), metric, alpha)
  {
    var picked := Picked(pool, chosen);
    forall s, t | 0 <= s < t < |picked| && Less(picked[s], picked[t])
      ensures !OccludedBy(picked[t], picked[s], metric, alpha)
    {
      assert chosen[s] < chosen[t];
      assert !Occludes(pool, metric, chosen[s], chosen[t], alpha);
    }
  }

  lemma WitnessAt(pool: seq<Neighbor>, metric: Metric, i: nat, j: nat, a: real)
    requires NonDecreasing(pool) && i < j < |pool| && Occludes(pool, metric, i, j, a)
    ensures Witness(pool[j], pool[i], metric, a)
  {
  }

  lemma CoveredInDistances(pool: seq<Neighbor>, metric: Metric, chosen: seq<int>, a: real)
    requires NonDecreasing(pool) && ValidChoice(pool, chosen) && Settled(pool, metric, chosen, |pool|, a)
    ensures Covered(pool, Picked(pool, chosen), metric, a)
  {
    hide Witness, Occludes, NonDecreasing;
    var picked := Picked(pool, chosen);
    forall p | p in pool && p !in picked ensures exists w :: w in picked && Witness(p, w, metric, a) {
      var j :| 0 <= j < |pool| && pool[j] == p;
      forall k | 0 <= k < |chosen| ensures chosen[k] != j {
        assert picked[k] in picked;
      }
      assert j !in chosen;
      assert Blocked(pool, metric, chosen, j, a);
      var i :| i in chosen && i < j && Occludes(pool, metric, i, j, a);
      var k :| 0 <= k < |chosen| && chosen[k] == i;
      WitnessAt(pool, metric, i, j, a);
      assert picked[k] in picked;
    }
  }

  ghost predicate DistinctIds(pool: seq<Neighbor>) {
    forall i, j :: 0 <= i < j < |pool| ==> pool[i].id != pool[j].id
  }

  // ---------- Factors ----------

  /** One update of candidate `j`'s factor by a newly chosen candidate at distance `d`. */
  function Raised(f: Factor, dist: real, d: real, alpha: real): Factor {
    if f.Exceeds(alpha) then f
    else if d == 0.0 then Max
    else RaiseTo(f, dist / d)
  }

  /** Where the factor `f` of candidate `j` came from. */
  ghost predicate Evidence(pool: seq<Neighbor>, metric: Metric, i: int, j: int, f: Factor)
    requires 0 <= i < |pool| && 0 <= j < |pool|
  {
    var d := metric(pool[j].id, pool[i].id);
    if f.Max? then d == 0.0 else d != 0.0 && f.value == pool[j].dist / d
  }

  /** The chosen candidate `i` has been taken into account in the factor `f` of `j`. */
  ghost predicate Counted(pool: seq<Neighbor>, metric: Metric, i: int, j: int, f: Factor, alpha: real)
    requires 0 <= i < |pool| && 0 <= j < |pool|
  {
    var d := metric(pool[j].id, pool[i].id);
    f.Exceeds(alpha) || (d != 0.0 && f.value >= pool[j].dist / d)
  }

  ghost predicate Explained(pool: seq<Neighbor>, metric: Metric, chosen: seq<int>, j: int, f: Factor)
    requires ValidChoice(pool, chosen) && 0 <= j < |pool|
  {
    f == Fin(0.0) || exists i :: i in chosen && i < j && Evidence(pool, metric, i, j, f)
  }

  ghost predicate FactorsOk(pool: seq<Neighbor>, metric: Metric, chosen: seq<int>, factor: seq<Factor>, alpha: real) {
    && |factor| == |pool| && ValidChoice(pool, chosen)
    && (forall k :: k in chosen ==> factor[k] == Max)
    && (forall j :: 0 <= j < |pool| && j !in chosen ==> Explained(pool, metric, chosen, j, factor[j]))
    && (forall i, j :: i in chosen && i < j < |pool| && j !in chosen ==> Counted(pool, metric, i, j, factor[j], alpha))
  }

  lemma ChooseKeepsFactors(pool: seq<Neighbor>, metric: Metric, chosen: seq<int>, factor: seq<Factor>, alpha: real,
                           i: nat, after: seq<Factor>)
    requires FactorsOk(pool, metric, chosen, factor, alpha) && i < |pool| && i !in chosen && |after| == |pool|
    requires after[i] == Max && forall j :: 0 <= j < i ==> after[j] == factor[j]
    requires forall j :: i < j < |pool| ==>
      after[j] == Raised(factor[j], pool[j].dist, metric(pool[j].id, pool[i].id), alpha)
    ensures FactorsOk(pool, metric, chosen + [i], after, alpha)
  {
    hide Evidence, Counted;
    var more := chosen + [i];
    assert forall k :: k in more <==> k in chosen || k == i;
    forall j | 0 <= j < |pool| && j !in more ensures Explained(pool, metric, more, j, after[j]) {
      ExplainedStays(pool, metric, chosen, i, j, factor[j]);
      if j > i {
        RaisedExplained(pool, metric, i, j, factor[j], alpha);
        assert i in more;
      }
    }
    forall k, j | k in more && k < j < |pool| && j !in more ensures Counted(pool, metric, k, j, after[j], alpha) {
      if k in chosen {
        assert Counted(pool, metric, k, j, factor[j], alpha);
      }
      if j > i {
        RaisedCounted(pool, metric, k, i, j, factor[j], alpha);
      }
    }
  }

  lemma ExplainedStays(pool: seq<Neighbor>, metric: Metric, chosen: seq<int>, i: nat, j: nat, f: Factor)
    requires ValidChoice(pool, chosen) && ValidChoice(pool, chosen + [i]) && j < |pool|
    requires Explained(pool, metric, chosen, j, f)
    ensures Explained(pool, metric, chosen + [i], j, f)
  {
    hide Evidence;
    if f != Fin(0.0) {
      var k :| k in chosen && k < j && Evidence(pool, metric, k, j, f);
      assert k in chosen + [i];
    }
  }

  lemma RaisedExplained(pool: seq<Neighbor>, metric: Metric, i: nat, j: nat, f: Factor, alpha: real)
    requires i < |pool| && j < |pool|
    ensures var g := Raised(f, pool[j].dist, metric(pool[j].id, pool[i].id), alpha);
      g == f || Evidence(pool, metric, i, j, g)
  {
  }

  lemma RaisedCounted(pool: seq<Neighbor>, metric: Metric, k: nat, i: nat, j: nat, f: Factor, alpha: real)
    requires i < |pool| && j < |pool| && k < |pool|
    ensures var g := Raised(f, pool[j].dist, metric(pool[j].id, pool[i].id), alpha);
      && Counted(pool, metric, i, j, g, alpha)
      && (Counted(pool, metric, k, j, f, alpha) ==> Counted(pool, metric, k, j, g, alpha))
  {
  }

  /** A candidate whose factor does not exceed `a <= alpha` is not occluded by any chosen one before it in the pool. */
  lemma AcceptedIsDiverse(pool: seq<Neighbor>, metric: Metric, chosen: seq<int>, factor: seq<Factor>, alpha: real,
                          a: real, j: nat)
    requires FactorsOk(pool, metric, chosen, factor, alpha) && j < |pool| && j !in chosen
    requires NonNegative(metric) && a <= alpha && !factor[j].Exceeds(a)
    requires DiverseAt(pool, metric, chosen, alpha)
    ensures ValidChoice(pool, chosen + [j]) && DiverseAt(pool, metric, chosen + [j], alpha)
  {
    var more := chosen + [j];
    forall s, t | 0 <= s < t < |more| && more[s] < more[t] ensures !Occludes(pool, metric, more[s], more[t], alpha) {
      if t == |chosen| {
        var i := chosen[s];
        assert i in chosen && Counted(pool, metric, i, j, factor[j], alpha);
        RatioBound(pool[j].dist, metric(pool[j].id, pool[i].id), alpha);
      } else {
        assert !Occludes(pool, metric, chosen[s], chosen[t], alpha);
      }
    }
  }

  ghost predicate NonNegative(metric: Metric) {
    forall x, y :: metric(x, y) >= 0.0
  }

  lemma RatioBound(dist: real, d: real, a: real)
    requires d > 0.0
    ensures dist / d > a <==> dist > a * d
  {
    assert dist == (dist / d) * d;
  }

  /** The array of factors says exactly which candidates are blocked. */
  lemma ExceedsIffBlocked(pool: seq<Neighbor>, metric: Metric, chosen: seq<int>, factor: seq<Factor>, alpha: real,
                          a: real, j: nat)
    requires FactorsOk(pool, metric, chosen, factor, alpha) && NonNegative(metric) && 0.0 <= a <= alpha
    requires j < |pool| && j !in chosen
    ensures factor[j].Exceeds(a) <==> Blocked(pool, metric, chosen, j, a)
  {
    if i :| i in chosen && i < j && Occludes(pool, metric, i, j, a) {
      assert Counted(pool, metric, i, j, factor[j], alpha);
      var d := metric(pool[j].id, pool[i].id);
      if d != 0.0 {
        RatioBound(pool[j].dist, d, a);
      }
    }
    if factor[j].Exceeds(a) {
      assert Explained(pool, metric, chosen, j, factor[j]);
      var i :| i in chosen && i < j && Evidence(pool, metric, i, j, factor[j]);
      var d := metric(pool[j].id, pool[i].id);
      if d != 0.0 {
        RatioBound(pool[j].dist, d, a);
      }
      assert Occludes(pool, metric, i, j, a);
    }
  }

  /** Passing over candidate `j` because of its factor, or picking it. */
  lemma PassingSettles(pool: seq<Neighbor>, metric: Metric, chosen: seq<int>, factor: seq<Factor>, alpha: real,
                       a: real, j: nat)
    requires FactorsOk(pool, metric, chosen, factor, alpha) && NonNegative(metric) && 0.0 <= a <= alpha
    requires j < |pool| && Settled(pool, metric, chosen, j, a) && (j in chosen || factor[j].Exceeds(a))
    ensures Settled(pool, metric, chosen, j + 1, a)
  {
    hide Blocked;
    if j !in chosen {
      ExceedsIffBlocked(pool, metric, chosen, factor, alpha, a, j);
    }
  }

  /** A candidate reached by the scan whose factor is small enough is the one whose turn it is. */
  lemma AcceptedIsDue(pool: seq<Neighbor>, metric: Metric, node: int, limit: nat, chosen: seq<int>,
                      factor: seq<Factor>, alpha: real, e: nat, j: nat)
    requires FactorsOk(pool, metric, chosen, factor, alpha) && NonNegative(metric) && Power(e) <= alpha
    requires j < |pool| && Settled(pool, metric, chosen, j, Power(e)) && !factor[j].Exceeds(Power(e))
    requires e > 0 ==> Settled(pool, metric, chosen, |pool|, Power(e - 1))
    requires |ChosenIds(pool, node, chosen)| < limit
    ensures j !in chosen && Due(pool, metric, node, limit, alpha, chosen, j)
  {
    hide Blocked, ChosenIds, Settled, Power;
    assert j !in chosen;
    ExceedsIffBlocked(pool, metric, chosen, factor, alpha, Power(e), j);
    assert PickedNext(pool, metric, alpha, chosen, j, e);
  }

  /**
    RobustPrune's answer on a sorted pool: at most `limit` ids; the picks are diverse, the
    nearest candidate is one of them, and when fewer than `limit` were found everything left
    out has a nearer picked witness at the last factor tried.
   */
  ghost predicate RobustChoice(pool: seq<Neighbor>, metric: Metric, node: int, limit: nat, alpha: real,
                               result: seq<int>, chosen: seq<int>)
  {
    && NonDecreasing(pool) && ValidChoice(pool, chosen)
    && result == ChosenIds(pool, node, chosen) && |result| <= limit
    && DueInTurn(pool, metric, node, limit, alpha, chosen)
    && Exhausted(pool, metric, node, limit, alpha, chosen)
    && Diverse(Picked(pool, chosen), metric, alpha)
    && (alpha >= 1.0 && limit > 0 && |pool| > 0 ==> 0 in chosen)
    && (alpha >= 1.0 && |result| < limit ==>
          Covered(pool, Picked(pool, chosen), metric, LastFactor(1.0, alpha)))
  }

  /** There is only one such answer. */
  lemma RobustChoiceUnique(pool: seq<Neighbor>, metric: Metric, node: int, limit: nat, alpha: real,
                           a: seq<int>, chosenA: seq<int>, b: seq<int>, chosenB: seq<int>)
    requires NonNegative(metric)
    requires RobustChoice(pool, metric, node, limit, alpha, a, chosenA)
    requires RobustChoice(pool, metric, node, limit, alpha, b, chosenB)
    ensures a == b && chosenA == chosenB
  {
    hide DueInTurn, Diverse, Covered, LastFactor, Exhausted, NonDecreasing;
    NoLongerChoice(pool, metric, node, limit, alpha, chosenA, chosenB);
    NoLongerChoice(pool, metric, node, limit, alpha, chosenB, chosenA);
    PrefixesAgree(pool, metric, node, limit, alpha, chosenA, chosenB, |chosenA|);
    assert chosenA[..|chosenA|] == chosenA && chosenB[..|chosenA|] == chosenB;
  }

  // ---------- The method ----------

  /** Let the newly chosen candidate `i` raise the factors of everything behind it. */
  method RaiseFactors(pool: seq<Neighbor>, metric: Metric, factor: array<Factor>, i: nat, alpha: real)
    requires i < |pool| == factor.Length
    modifies factor
    ensures factor[i] == Max
    ensures forall j :: 0 <= j < i ==> factor[j] == old(factor[j])
    ensures forall j :: i < j < |pool| ==>
      factor[j] == Raised(old(factor[j]), pool[j].dist, metric(pool[j].id, pool[i].id), alpha)
  {
    factor[i] := Max;
    for j := i + 1 to |pool|
      invariant factor[i] == Max
      invariant forall k :: 0 <= k < i ==> factor[k] == old(factor[k])
      invariant forall k :: i < k < j ==>
        factor[k] == Raised(old(factor[k]), pool[k].dist, metric(pool[k].id, pool[i].id), alpha)
      invariant forall k :: j <= k < |pool| ==> factor[k] == old(factor[k])
    {
      if !factor[j].Exceeds(alpha) {
        var between := metric(pool[j].id, pool[i].id);
        factor[j] := if between == 0.0 then Max else RaiseTo(factor[j], pool[j].dist / between);
      }
    }
  }

  /**
    Pick out-neighbours for `node` from a pool in increasing distance order, trying the
    factors 1, 1.2, 1.44, ... up to `alpha`.
   */
  method OccludeList(node: int, candidates: seq<Neighbor>, metric: Metric, maxDegree: nat, maxCandidates: nat,
                     alpha: real)
    returns (result: seq<int>, ghost chosen: seq<int>)
    requires NonNegative(metric) && NonDecreasing(candidates)
    ensures RobustChoice(Take(candidates, maxCandidates), metric, node, maxDegree, alpha, result, chosen)
    ensures exists picks :: RobustChoice(Take(candidates, maxCandidates), metric, node, maxDegree, alpha, result, picks)
  {
    hide DiverseAt, FactorsOk, Diverse, Covered, NonDecreasing, LastFactor, RobustChoice, DueInTurn, Due, Settled, Power;
    var pool := Take(candidates, maxCandidates);
    var factor := new Factor[|pool|](_ => Fin(0.0));
    result, chosen := [], [];
    var curAlpha := 1.0;
    ghost var e: nat := 0;
    StartFactors(pool, metric, node, maxDegree, factor[..], alpha);
    while curAlpha <= alpha && |result| < maxDegree
      invariant curAlpha == Power(e) && fresh(factor) && factor.Length == |pool|
      invariant FactorsOk(pool, metric, chosen, factor[..], alpha)
      invariant ValidChoice(pool, chosen) && DiverseAt(pool, metric, chosen, alpha)
      invariant DueInTurn(pool, metric, node, maxDegree, alpha, chosen)
      invariant result == ChosenIds(pool, node, chosen) && |result| <= maxDegree
      invariant if e == 0 then result == [] else |pool| > 0 ==> 0 in chosen
      invariant alpha >= 1.0 && |result| < maxDegree ==>
        LastFactor(1.0, alpha) == if curAlpha <= alpha then LastFactor(curAlpha, alpha) else Power(if e == 0 then 0 else e - 1)
      invariant e > 0 && |result| < maxDegree ==> Settled(pool, metric, chosen, |pool|, Power(e - 1))
      decreases 5.0 * (alpha - curAlpha)
    {
      var i := 0;
      NothingSettled(pool, metric, chosen, curAlpha);
      while i < |pool| && |result| < maxDegree
        invariant 0 <= i <= |pool| && factor.Length == |pool|
        invariant FactorsOk(pool, metric, chosen, factor[..], alpha)
        invariant ValidChoice(pool, chosen) && DiverseAt(pool, metric, chosen, alpha)
        invariant DueInTurn(pool, metric, node, maxDegree, alpha, chosen)
        invariant result == ChosenIds(pool, node, chosen) && |result| <= maxDegree
        invariant if i > 0 then 0 in chosen else |result| < maxDegree
        invariant Settled(pool, metric, chosen, i, curAlpha)
        invariant e > 0 ==> Settled(pool, metric, chosen, |pool|, Power(e - 1))
      {
        if !factor[i].Exceeds(curAlpha) {
          ghost var before, picks := factor[..], chosen;
          AcceptedIsDue(pool, metric, node, maxDegree, chosen, before, alpha, e, i);
          PickKeepsTurn(pool, metric, node, maxDegree, alpha, chosen, i);
          AcceptedIsDiverse(pool, metric, chosen, before, alpha, curAlpha, i);
          RaiseFactors(pool, metric, factor, i, alpha);
          ChooseKeepsFactors(pool, metric, chosen, before, alpha, i, factor[..]);
          chosen := chosen + [i];
          MorePicksSettle(pool, metric, picks, i, i, curAlpha);
          if e > 0 {
            MorePicksSettle(pool, metric, picks, i, |pool|, Power(e - 1));
          }
          if pool[i].id != node {
            result := result + [pool[i].id];
          }
          assert chosen[..|chosen| - 1] == picks;
        } else if i == 0 {
          FirstFactor(pool, metric, chosen, factor[..], alpha);
        }
        PassingSettles(pool, metric, chosen, factor[..], alpha, curAlpha, i);
        i := i + 1;
      }
      LastFactorStep(curAlpha, alpha);
      NextPower(e);
      curAlpha, e := curAlpha * 1.2, e + 1;
    }
    TakeNonDecreasing(candidates, maxCandidates);
    MakeChoice(pool, metric, node, maxDegree, alpha, result, chosen);
  }

  lemma NextPower(e: nat)
    ensures Power(e + 1) == 1.2 * Power(e) && Power(0) == 1.0
  {
  }

  lemma NothingSettled(pool: seq<Neighbor>, metric: Metric, picks: seq<int>, a: real)
    requires ValidChoice(pool, picks)
    ensures Settled(pool, metric, picks, 0, a)
  {
  }

  lemma MakeChoice(pool: seq<Neighbor>, metric: Metric, node: int, limit: nat, alpha: real,
                   result: seq<int>, chosen: seq<int>)
    requires NonDecreasing(pool) && ValidChoice(pool, chosen)
    requires result == ChosenIds(pool, node, chosen) && |result| <= limit
    requires DiverseAt(pool, metric, chosen, alpha) && DueInTurn(pool, metric, node, limit, alpha, chosen)
    requires alpha >= 1.0 && limit > 0 && |pool| > 0 ==> 0 in chosen
    requires Exhausted(pool, metric, node, limit, alpha, chosen)
    ensures RobustChoice(pool, metric, node, limit, alpha, result, chosen)
  {
    hide DiverseAt, Diverse, Covered, NonDecreasing, LastFactor, ChosenIds, Settled, DueInTurn;
    DiverseInDistances(pool, metric, chosen, alpha);
    if alpha >= 1.0 && |result| < limit {
      CoveredInDistances(pool, metric, chosen, LastFactor(1.0, alpha));
    }
  }

  /** Nothing occludes the nearest candidate. */
  lemma FirstFactor(pool: seq<Neighbor>, metric: Metric, chosen: seq<int>, factor: seq<Factor>, alpha: real)
    requires FactorsOk(pool, metric, chosen, factor, alpha) && |pool| > 0
    ensures 0 in chosen || factor[0] == Fin(0.0)
  {
    assert 0 in chosen || Explained(pool, metric, chosen, 0, factor[0]);
  }

  lemma TakeNonDecreasing(q: seq<Neighbor>, n: nat)
    requires NonDecreasing(q)
    ensures NonDecreasing(Take(q, n))
  {
  }

  lemma StartFactors(pool: seq<Neighbor>, metric: Metric, node: int, limit: nat, factor: seq<Factor>, alpha: real)
    requires |factor| == |pool| && forall j :: 0 <= j < |pool| ==> factor[j] == Fin(0.0)
    ensures FactorsOk(pool, metric, [], factor, alpha) && DiverseAt(pool, metric, [], alpha)
    ensures DueInTurn(pool, metric, node, limit, alpha, []) && Power(0) == 1.0
  {
  }
}
