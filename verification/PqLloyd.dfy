/**
  The k-means refinement of src/pq.cc over real arithmetic: nearest-centre assignment,
  the mean update, and the loop that alternates them.
 */
module PqLloyd {
  import opened Common

  type Vector = seq<real>

  /** Every row has `dim` coordinates. */
  predicate Matrix(rows: seq<Vector>, dim: nat) {
    forall i :: 0 <= i < |rows| ==> |rows[i]| == dim
  }

  function Sq(x: real): (r: real)
    ensures r >= 0.0
  {
    x * x
  }

  /** Squared distance over the first `n` coordinates. */
  function Dist(a: Vector, b: Vector, n: nat): (r: real)
    requires n <= |a| && n <= |b|
    ensures r >= 0.0
  {
    if n == 0 then 0.0 else Dist(a, b, n - 1) + Sq(a[n - 1] - b[n - 1])
  }

  method SquaredL2(a: Vector, b: Vector, dim: nat) returns (distance: real)
    requires dim <= |a| && dim <= |b|
    ensures distance == Dist(a, b, dim)
  {
    distance := 0.0;
    for d := 0 to dim
      invariant distance == Dist(a, b, d)
    {
      var diff := a[d] - b[d];
      distance := distance + diff * diff;
    }
  }

  // ---------- Nearest centre ----------

  /** `c` is the first of the centres nearest to `x`. */
  ghost predicate IsNearest(x: Vector, centers: seq<Vector>, dim: nat, c: nat)
    requires |x| == dim && Matrix(centers, dim)
  {
    && c < |centers|
    && (forall k :: 0 <= k < |centers| ==> Dist(x, centers[c], dim) <= Dist(x, centers[k], dim))
    && (forall k :: 0 <= k < c ==> Dist(x, centers[c], dim) < Dist(x, centers[k], dim))
  }

  /** The first centre among `centers[..n]` that is nearest to `x`. */
  function Nearest(x: Vector, centers: seq<Vector>, dim: nat, n: nat): (c: nat)
    requires |x| == dim && Matrix(centers, dim) && 0 < n <= |centers|
    ensures c < n
    ensures forall k :: 0 <= k < n ==> Dist(x, centers[c], dim) <= Dist(x, centers[k], dim)
    ensures forall k :: 0 <= k < c ==> Dist(x, centers[c], dim) < Dist(x, centers[k], dim)
  {
    if n == 1 then 0
    else
      var c := Nearest(x, centers, dim, n - 1);
      if Dist(x, centers[n - 1], dim) < Dist(x, centers[c], dim) then n - 1 else c
  }

  lemma NearestIsUnique(x: Vector, centers: seq<Vector>, dim: nat, c: nat)
    requires |x| == dim && Matrix(centers, dim) && |centers| > 0
    ensures IsNearest(x, centers, dim, c) <==> c == Nearest(x, centers, dim, |centers|)
  {
    var m := Nearest(x, centers, dim, |centers|);
    assert c < |centers| ==> (Dist(x, centers[c], dim) <= Dist(x, centers[m], dim) <==> Dist(x, centers[c], dim) == Dist(x, centers[m], dim));
  }

  /** Scan the centres, keeping the first strict improvement; centre 0 when there is none. */
  method NearestCenter(x: Vector, centers: seq<Vector>, dim: nat) returns (best: nat)
    requires |x| == dim && Matrix(centers, dim)
    ensures |centers| == 0 ==> best == 0
    ensures |centers| > 0 ==> IsNearest(x, centers, dim, best)
  {
    best := 0;
    var bestDistance: Option<real> := None;
    for c := 0 to |centers|
      invariant c == 0 <==> bestDistance.None?
      invariant c == 0 ==> best == 0
      invariant c > 0 ==> best == Nearest(x, centers, dim, c) && bestDistance.value == Dist(x, centers[best], dim)
    {
      var distance := SquaredL2(x, centers[c], dim);
      if bestDistance.None? || distance < bestDistance.value {
        bestDistance, best := Some(distance), c;
      }
    }
  }

  // ---------- One iteration ----------

  function Assign(data: seq<Vector>, centers: seq<Vector>, dim: nat): (a: seq<nat>)
    requires Matrix(data, dim) && Matrix(centers, dim) && |centers| > 0
    ensures |a| == |data|
    ensures forall p :: 0 <= p < |data| ==> a[p] == Nearest(data[p], centers, dim, |centers|)
  {
    seq(|data|, p requires 0 <= p < |data| => Nearest(data[p], centers, dim, |centers|))
  }

  /** How many of the first `n` points are assigned to `c`. */
  function Count(a: seq<nat>, n: nat, c: nat): nat
    requires n <= |a|
  {
    if n == 0 then 0 else Count(a, n - 1, c) + if a[n - 1] == c then 1 else 0
  }

  /** The sum of coordinate `d` over the points among the first `n` that are assigned to `c`. */
  function Total(data: seq<Vector>, dim: nat, a: seq<nat>, n: nat, c: nat, d: nat): real
    requires Matrix(data, dim) && n <= |data| == |a| && d < dim
  {
    if n == 0 then 0.0
    else Total(data, dim, a, n - 1, c, d) + if a[n - 1] == c then data[n - 1][d] else 0.0
  }

  /** The mean of cluster `c` in coordinate `d`; an empty cluster is reset to zero. */
  function MeanAt(data: seq<Vector>, dim: nat, a: seq<nat>, c: nat, d: nat): real
    requires Matrix(data, dim) && |data| == |a| && d < dim
  {
    var n := Count(a, |a|, c);
    if n == 0 then 0.0 else Total(data, dim, a, |a|, c, d) / n as real
  }

  function Means(data: seq<Vector>, dim: nat, a: seq<nat>, k: nat): (m: seq<Vector>)
    requires Matrix(data, dim) && |data| == |a|
    ensures |m| == k && Matrix(m, dim)
    ensures forall c, d :: 0 <= c < k && 0 <= d < dim ==> m[c][d] == MeanAt(data, dim, a, c, d)
  {
    seq(k, c requires 0 <= c < k => seq(dim, d requires 0 <= d < dim => MeanAt(data, dim, a, c, d)))
  }

  predicate Assigned(a: seq<nat>, k: nat) {
    forall p :: 0 <= p < |a| ==> a[p] < k
  }

  /** Sum of squared distances of the first `n` points to their centres. */
  function Residual(data: seq<Vector>, dim: nat, a: seq<nat>, centers: seq<Vector>, n: nat): (r: real)
    requires Matrix(data, dim) && Matrix(centers, dim) && n <= |data| == |a| && Assigned(a, |centers|)
    ensures r >= 0.0
  {
    if n == 0 then 0.0 else Residual(data, dim, a, centers, n - 1) + Dist(data[n - 1], centers[a[n - 1]], dim)
  }

  function LloydStep(data: seq<Vector>, dim: nat, centers: seq<Vector>): (after: seq<Vector>)
    requires Matrix(data, dim) && Matrix(centers, dim) && |centers| > 0
    ensures |after| == |centers| && Matrix(after, dim)
  {
    Means(data, dim, Assign(data, centers, dim), |centers|)
  }

  // ---------- Assignment cannot raise the residual ----------

  lemma {:induction false} NearestIsBest(data: seq<Vector>, dim: nat, centers: seq<Vector>, a: seq<nat>, n: nat)
    requires Matrix(data, dim) && Matrix(centers, dim) && |centers| > 0
    requires n <= |data| == |a| && Assigned(a, |centers|)
    ensures Assigned(Assign(data, centers, dim), |centers|)
    ensures Residual(data, dim, Assign(data, centers, dim), centers, n) <= Residual(data, dim, a, centers, n)
  {
    hide Nearest, Dist;
    if n > 0 {
      NearestIsBest(data, dim, centers, a, n - 1);
      var p := n - 1;
      assert Dist(data[p], centers[Assign(data, centers, dim)[p]], dim) <= Dist(data[p], centers[a[p]], dim);
    }
  }

  // ---------- The mean cannot raise the residual ----------

  /** Squared error of cluster `c` in coordinate `d` if its centre were at `v`. */
  function ClusterError(data: seq<Vector>, dim: nat, a: seq<nat>, n: nat, c: nat, d: nat, v: real): real
    requires Matrix(data, dim) && n <= |data| == |a| && d < dim
  {
    if n == 0 then 0.0
    else ClusterError(data, dim, a, n - 1, c, d, v) + if a[n - 1] == c then Sq(data[n - 1][d] - v) else 0.0
  }

  /** How the error of `k` points with total `t` changes when their centre moves from `u` to `v`. */
  function Move(k: real, t: real, u: real, v: real): real {
    k * (v * v - u * u) - 2.0 * (v - u) * t
  }

  lemma MoveAdds(k: real, t: real, x: real, u: real, v: real)
    ensures Move(k + 1.0, t + x, u, v) == Move(k, t, u, v) + (Sq(x - v) - Sq(x - u))
  {
  }

  lemma {:induction false} ClusterErrorMoves(data: seq<Vector>, dim: nat, a: seq<nat>, n: nat, c: nat, d: nat,
                                             u: real, v: real)
    requires Matrix(data, dim) && n <= |data| == |a| && d < dim
    ensures ClusterError(data, dim, a, n, c, d, v) - ClusterError(data, dim, a, n, c, d, u)
         == Move(Count(a, n, c) as real, Total(data, dim, a, n, c, d), u, v)
  {
    if n > 0 {
      hide Move, Sq;
      ClusterErrorMoves(data, dim, a, n - 1, c, d, u, v);
      MoveAdds(Count(a, n - 1, c) as real, Total(data, dim, a, n - 1, c, d), data[n - 1][d], u, v);
    }
  }

  /** No centre gives a cluster a smaller error than its mean. */
  lemma MeanIsBest(data: seq<Vector>, dim: nat, a: seq<nat>, c: nat, d: nat, v: real)
    requires Matrix(data, dim) && |data| == |a| && d < dim
    ensures ClusterError(data, dim, a, |a|, c, d, MeanAt(data, dim, a, c, d)) <= ClusterError(data, dim, a, |a|, c, d, v)
  {
    var m := MeanAt(data, dim, a, c, d);
    ClusterErrorMoves(data, dim, a, |a|, c, d, m, v);
    var n := Count(a, |a|, c);
    if n == 0 {
      EmptyCluster(data, dim, a, |a|, c, d);
    } else {
      hide Move;
      MeanGap(n as real, Total(data, dim, a, |a|, c, d), m, v);
    }
  }

  lemma {:induction false} EmptyCluster(data: seq<Vector>, dim: nat, a: seq<nat>, n: nat, c: nat, d: nat)
    requires Matrix(data, dim) && n <= |data| == |a| && d < dim && Count(a, n, c) == 0
    ensures Total(data, dim, a, n, c, d) == 0.0
  {
    if n > 0 {
      EmptyCluster(data, dim, a, n - 1, c, d);
    }
  }

  lemma MeanGap(n: real, t: real, m: real, v: real)
    requires n > 0.0 && m == t / n
    ensures Move(n, t, m, v) >= 0.0
  {
    assert t == n * m;
    assert Move(n, t, m, v) == n * Sq(v - m);
  }

  /** Squared error in coordinate `d` of the points assigned to the first `k` clusters. */
  function ColumnError(data: seq<Vector>, dim: nat, a: seq<nat>, centers: seq<Vector>, n: nat, k: nat, d: nat): real
    requires Matrix(data, dim) && Matrix(centers, dim) && n <= |data| == |a| && Assigned(a, |centers|)
    requires d < dim && k <= |centers|
  {
    if n == 0 then 0.0
    else ColumnError(data, dim, a, centers, n - 1, k, d)
         + if a[n - 1] < k then Sq(data[n - 1][d] - centers[a[n - 1]][d]) else 0.0
  }

  lemma {:induction false} ColumnSplits(data: seq<Vector>, dim: nat, a: seq<nat>, centers: seq<Vector>, n: nat,
                                        k: nat, d: nat)
    requires Matrix(data, dim) && Matrix(centers, dim) && n <= |data| == |a| && Assigned(a, |centers|)
    requires d < dim && k < |centers|
    ensures ColumnError(data, dim, a, centers, n, k + 1, d)
         == ColumnError(data, dim, a, centers, n, k, d) + ClusterError(data, dim, a, n, k, d, centers[k][d])
  {
    if n > 0 {
      ColumnSplits(data, dim, a, centers, n - 1, k, d);
    }
  }

  lemma {:induction false} NoClusters(data: seq<Vector>, dim: nat, a: seq<nat>, centers: seq<Vector>, n: nat, d: nat)
    requires Matrix(data, dim) && Matrix(centers, dim) && n <= |data| == |a| && Assigned(a, |centers|) && d < dim
    ensures ColumnError(data, dim, a, centers, n, 0, d) == 0.0
  {
    if n > 0 {
      NoClusters(data, dim, a, centers, n - 1, d);
    }
  }

  lemma {:induction false} MeansBestInColumn(data: seq<Vector>, dim: nat, a: seq<nat>, centers: seq<Vector>, k: nat,
                                             d: nat)
    requires Matrix(data, dim) && Matrix(centers, dim) && |data| == |a| && Assigned(a, |centers|)
    requires d < dim && k <= |centers|
    ensures ColumnError(data, dim, a, Means(data, dim, a, |centers|), |a|, k, d)
         <= ColumnError(data, dim, a, centers, |a|, k, d)
  {
    var means := Means(data, dim, a, |centers|);
    if k == 0 {
      NoClusters(data, dim, a, means, |a|, d);
      NoClusters(data, dim, a, centers, |a|, d);
    } else {
      MeansBestInColumn(data, dim, a, centers, k - 1, d);
      ColumnSplits(data, dim, a, means, |a|, k - 1, d);
      ColumnSplits(data, dim, a, centers, |a|, k - 1, d);
      MeanIsBest(data, dim, a, k - 1, d, centers[k - 1][d]);
    }
  }

  /** The residual over the first `w` coordinates. */
  function PartialResidual(data: seq<Vector>, dim: nat, a: seq<nat>, centers: seq<Vector>, n: nat, w: nat): real
    requires Matrix(data, dim) && Matrix(centers, dim) && n <= |data| == |a| && Assigned(a, |centers|) && w <= dim
  {
    if n == 0 then 0.0
    else PartialResidual(data, dim, a, centers, n - 1, w) + Dist(data[n - 1], centers[a[n - 1]], w)
  }

  lemma {:induction false} WidenResidual(data: seq<Vector>, dim: nat, a: seq<nat>, centers: seq<Vector>, n: nat, w: nat)
    requires Matrix(data, dim) && Matrix(centers, dim) && n <= |data| == |a| && Assigned(a, |centers|) && w < dim
    ensures PartialResidual(data, dim, a, centers, n, w + 1)
         == PartialResidual(data, dim, a, centers, n, w) + ColumnError(data, dim, a, centers, n, |centers|, w)
  {
    if n > 0 {
      WidenResidual(data, dim, a, centers, n - 1, w);
    }
  }

  lemma {:induction false} FullResidual(data: seq<Vector>, dim: nat, a: seq<nat>, centers: seq<Vector>, n: nat)
    requires Matrix(data, dim) && Matrix(centers, dim) && n <= |data| == |a| && Assigned(a, |centers|)
    ensures PartialResidual(data, dim, a, centers, n, dim) == Residual(data, dim, a, centers, n)
    ensures PartialResidual(data, dim, a, centers, n, 0) == 0.0
  {
    if n > 0 {
      FullResidual(data, dim, a, centers, n - 1);
    }
  }

  lemma {:induction false} MeansBestUpTo(data: seq<Vector>, dim: nat, a: seq<nat>, centers: seq<Vector>, w: nat)
    requires Matrix(data, dim) && Matrix(centers, dim) && |data| == |a| && Assigned(a, |centers|) && w <= dim
    ensures PartialResidual(data, dim, a, Means(data, dim, a, |centers|), |a|, w)
         <= PartialResidual(data, dim, a, centers, |a|, w)
  {
    var means := Means(data, dim, a, |centers|);
    if w == 0 {
      FullResidual(data, dim, a, means, |a|);
      FullResidual(data, dim, a, centers, |a|);
    } else {
      MeansBestUpTo(data, dim, a, centers, w - 1);
      WidenResidual(data, dim, a, means, |a|, w - 1);
      WidenResidual(data, dim, a, centers, |a|, w - 1);
      MeansBestInColumn(data, dim, a, centers, |centers|, w - 1);
    }
  }

  /** For a fixed assignment, no centres give a smaller residual than the means, empty clusters included. */
  lemma MeansAreBest(data: seq<Vector>, dim: nat, a: seq<nat>, centers: seq<Vector>)
    requires Matrix(data, dim) && Matrix(centers, dim) && |data| == |a| && Assigned(a, |centers|)
    ensures Residual(data, dim, a, Means(data, dim, a, |centers|), |a|) <= Residual(data, dim, a, centers, |a|)
  {
    MeansBestUpTo(data, dim, a, centers, dim);
    FullResidual(data, dim, a, Means(data, dim, a, |centers|), |a|);
    FullResidual(data, dim, a, centers, |a|);
  }

  // ---------- The iteration ----------

  /** The quantization error of a set of centres: every point goes to its nearest one. */
  function Distortion(data: seq<Vector>, dim: nat, centers: seq<Vector>): real
    requires Matrix(data, dim) && Matrix(centers, dim) && |centers| > 0
  {
    Residual(data, dim, Assign(data, centers, dim), centers, |data|)
  }

  /** The residual that iteration `t` reports: new means, but the assignment they were computed from. */
  function ReportedResidual(data: seq<Vector>, dim: nat, centers: seq<Vector>): real
    requires Matrix(data, dim) && Matrix(centers, dim) && |centers| > 0
  {
    Residual(data, dim, Assign(data, centers, dim), LloydStep(data, dim, centers), |data|)
  }

  function Iterate(data: seq<Vector>, dim: nat, centers: seq<Vector>, t: nat): (after: seq<Vector>)
    requires Matrix(data, dim) && Matrix(centers, dim) && |centers| > 0
    ensures |after| == |centers| && Matrix(after, dim)
  {
    if t == 0 then centers else LloydStep(data, dim, Iterate(data, dim, centers, t - 1))
  }

  lemma StepImproves(data: seq<Vector>, dim: nat, centers: seq<Vector>)
    requires Matrix(data, dim) && Matrix(centers, dim) && |centers| > 0
    ensures Distortion(data, dim, LloydStep(data, dim, centers))
         <= ReportedResidual(data, dim, centers)
         <= Distortion(data, dim, centers)
  {
    hide Residual, Means;
    var a := Assign(data, centers, dim);
    NearestIsBest(data, dim, centers, a, |data|);
    MeansAreBest(data, dim, a, centers);
    NearestIsBest(data, dim, LloydStep(data, dim, centers), a, |data|);
  }

  /** For the assignment it starts from, no centres leave a smaller residual than those of the next step. */
  lemma StepIsBest(data: seq<Vector>, dim: nat, centers: seq<Vector>, other: seq<Vector>)
    requires Matrix(data, dim) && Matrix(centers, dim) && Matrix(other, dim) && |other| == |centers| > 0
    ensures Residual(data, dim, Assign(data, centers, dim), LloydStep(data, dim, centers), |data|)
         <= Residual(data, dim, Assign(data, centers, dim), other, |data|)
  {
    hide Residual, Means;
    MeansAreBest(data, dim, Assign(data, centers, dim), other);
  }

  lemma {:induction false} NobodyIn(data: seq<Vector>, dim: nat, a: seq<nat>, n: nat, c: nat)
    requires n <= |a| && forall p :: 0 <= p < n ==> a[p] != c
    ensures Count(a, n, c) == 0
  {
    if n > 0 {
      NobodyIn(data, dim, a, n - 1, c);
    }
  }

  /** A centre that is nearest to no point is set to zero. */
  lemma DesertedIsZero(data: seq<Vector>, dim: nat, centers: seq<Vector>, c: nat, d: nat)
    requires Matrix(data, dim) && Matrix(centers, dim) && c < |centers| && d < dim
    requires forall p :: 0 <= p < |data| ==> !IsNearest(data[p], centers, dim, c)
    ensures LloydStep(data, dim, centers)[c][d] == 0.0
  {
    hide IsNearest;
    forall p | 0 <= p < |data| ensures Assign(data, centers, dim)[p] != c {
      NearestIsUnique(data[p], centers, dim, c);
    }
    NobodyIn(data, dim, Assign(data, centers, dim), |data|, c);
  }

  /** The residuals reported by successive iterations never increase. */
  lemma ResidualsNeverIncrease(data: seq<Vector>, dim: nat, centers: seq<Vector>, t: nat)
    requires Matrix(data, dim) && Matrix(centers, dim) && |centers| > 0
    ensures ReportedResidual(data, dim, Iterate(data, dim, centers, t + 1))
         <= ReportedResidual(data, dim, Iterate(data, dim, centers, t))
  {
    hide Residual, Means, LloydStep, Distortion, ReportedResidual;
    StepImproves(data, dim, Iterate(data, dim, centers, t));
    StepImproves(data, dim, Iterate(data, dim, centers, t + 1));
  }

  /** However many iterations run, the quantization error ends no larger than it began. */
  lemma {:induction false} DistortionNeverIncreases(data: seq<Vector>, dim: nat, centers: seq<Vector>, t: nat)
    requires Matrix(data, dim) && Matrix(centers, dim) && |centers| > 0
    ensures Distortion(data, dim, Iterate(data, dim, centers, t)) <= Distortion(data, dim, centers)
  {
    hide LloydStep, Distortion;
    if t > 0 {
      DistortionNeverIncreases(data, dim, centers, t - 1);
      StepImproves(data, dim, Iterate(data, dim, centers, t - 1));
    }
  }

  /** The float machine epsilon, 2^-23. */
  const EPSILON: real := 0.00000011920928955078125

  /** The loop ends when nothing is left to explain or an iteration gains less than 1e-5 of it. */
  predicate Converged(previous: Option<real>, current: real) {
    current <= EPSILON || (previous.Some? && (previous.value - current) / current < 0.00001)
  }

  /** The centres after at most `left` iterations, given the last reported residual. */
  function Lloyd(data: seq<Vector>, dim: nat, centers: seq<Vector>, previous: Option<real>,
                 left: nat): (after: seq<Vector>)
    requires Matrix(data, dim) && Matrix(centers, dim) && |centers| > 0
    ensures |after| == |centers| && Matrix(after, dim)
    decreases left
  {
    if left == 0 then centers
    else
      var next := LloydStep(data, dim, centers);
      var current := ReportedResidual(data, dim, centers);
      if Converged(previous, current) then next else Lloyd(data, dim, next, Some(current), left - 1)
  }

  /** Whenever it stops, the loop has not made the quantization error worse. */
  lemma {:induction false} LloydImproves(data: seq<Vector>, dim: nat, centers: seq<Vector>, previous: Option<real>,
                                         left: nat)
    requires Matrix(data, dim) && Matrix(centers, dim) && |centers| > 0
    ensures Distortion(data, dim, Lloyd(data, dim, centers, previous, left)) <= Distortion(data, dim, centers)
    decreases left
  {
    hide LloydStep, Distortion, ReportedResidual, Converged;
    if left > 0 {
      StepImproves(data, dim, centers);
      LloydImproves(data, dim, LloydStep(data, dim, centers), Some(ReportedResidual(data, dim, centers)), left - 1);
    }
  }

  /** The residual reported by iteration `j`, counted from 0. */
  function ResidualAt(data: seq<Vector>, dim: nat, start: seq<Vector>, j: nat): real
    requires Matrix(data, dim) && Matrix(start, dim) && |start| > 0
  {
    ReportedResidual(data, dim, Iterate(data, dim, start, j))
  }

  /** Iteration `j` leaves at most 2^-23 to explain, or has gained less than a hundred-thousandth of what it leaves. */
  predicate StopsAt(data: seq<Vector>, dim: nat, start: seq<Vector>, j: nat)
    requires Matrix(data, dim) && Matrix(start, dim) && |start| > 0
  {
    var left := ResidualAt(data, dim, start, j);
    8388608.0 * left <= 1.0 || (j > 0 && 100000.0 * (ResidualAt(data, dim, start, j - 1) - left) < left)
  }

  lemma ConvergedStops(data: seq<Vector>, dim: nat, start: seq<Vector>, j: nat)
    requires Matrix(data, dim) && Matrix(start, dim) && |start| > 0
    ensures Converged(if j == 0 then None else Some(ResidualAt(data, dim, start, j - 1)), ResidualAt(data, dim, start, j))
        <==> StopsAt(data, dim, start, j)
  {
    hide ResidualAt;
    var left := ResidualAt(data, dim, start, j);
    if j > 0 && left > 0.0 {
      SmallShare(ResidualAt(data, dim, start, j - 1) - left, left);
    }
  }

  lemma SmallShare(gain: real, left: real)
    requires left > 0.0
    ensures gain / left < 0.00001 <==> 100000.0 * gain < left
  {
    var share := gain / left;
    assert gain == share * left;
    if share < 0.00001 {
      assert share * left < 0.00001 * left;
    } else {
      assert share * left >= 0.00001 * left;
    }
  }

  lemma {:induction false} LloydStopsFrom(data: seq<Vector>, dim: nat, start: seq<Vector>, i: nat, left: nat)
    returns (t: nat)
    requires Matrix(data, dim) && Matrix(start, dim) && |start| > 0
    ensures i <= t <= i + left && (left > 0 ==> t > i)
    ensures Lloyd(data, dim, Iterate(data, dim, start, i),
                  if i == 0 then None else Some(ResidualAt(data, dim, start, i - 1)), left) == Iterate(data, dim, start, t)
    ensures forall j :: i <= j < t - 1 ==> !StopsAt(data, dim, start, j)
    ensures t < i + left ==> StopsAt(data, dim, start, t - 1)
    decreases left
  {
    hide LloydStep, ReportedResidual, Converged, StopsAt;
    t := i;
    if left > 0 {
      ConvergedStops(data, dim, start, i);
      t := i + 1;
      if !StopsAt(data, dim, start, i) {
        var rest := LloydStopsFrom(data, dim, start, i + 1, left - 1);
        t := if left == 1 then i + 1 else rest;
      }
    }
  }

  /**
    The loop ends with the first iteration that leaves next to nothing to explain or gains next to
    nothing, and otherwise with the last one allowed.
   */
  lemma LloydStopsFirst(data: seq<Vector>, dim: nat, start: seq<Vector>, maxIterations: nat)
    requires Matrix(data, dim) && Matrix(start, dim) && |start| > 0
    ensures exists t: nat ::
      && t <= maxIterations && Lloyd(data, dim, start, None, maxIterations) == Iterate(data, dim, start, t)
      && (forall j: nat :: j + 1 < t ==> !StopsAt(data, dim, start, j))
      && (t < maxIterations ==> t > 0 && StopsAt(data, dim, start, t - 1))
  {
    hide Lloyd, StopsAt;
    var t := LloydStopsFrom(data, dim, start, 0, maxIterations);
  }

  // ---------- The method ----------

  ghost function Rows(m: array2<real>): (rows: seq<Vector>)
    reads m
    ensures |rows| == m.Length0 && Matrix(rows, m.Length1)
    ensures forall c, d :: 0 <= c < m.Length0 && 0 <= d < m.Length1 ==> rows[c][d] == m[c, d]
  {
    seq(m.Length0, c requires 0 <= c < m.Length0 reads m => seq(m.Length1, d requires 0 <= d < m.Length1 reads m => m[c, d]))
  }

  method RowsOf(m: array2<real>) returns (rows: seq<Vector>)
    ensures rows == Rows(m)
  {
    rows := [];
    for c := 0 to m.Length0
      invariant |rows| == c && forall i :: 0 <= i < c ==> rows[i] == Rows(m)[i]
    {
      var row := [];
      for d := 0 to m.Length1
        invariant |row| == d && forall j :: 0 <= j < d ==> row[j] == m[c, j]
      {
        row := row + [m[c, d]];
      }
      rows := rows + [row];
    }
  }

  /** Add point `p` to the running sum of its cluster. */
  method Accumulate(data: seq<Vector>, dim: nat, ghost a: seq<nat>, p: nat, c: nat, sums: array2<real>)
    requires Matrix(data, dim) && p < |data| == |a| && a[p] == c < sums.Length0 && sums.Length1 == dim
    requires forall i, d :: 0 <= i < sums.Length0 && 0 <= d < dim ==> sums[i, d] == Total(data, dim, a, p, i, d)
    modifies sums
    ensures forall i, d :: 0 <= i < sums.Length0 && 0 <= d < dim ==> sums[i, d] == Total(data, dim, a, p + 1, i, d)
  {
    for d := 0 to dim
      invariant forall i, e :: 0 <= i < sums.Length0 && 0 <= e < dim ==>
        sums[i, e] == if e < d then Total(data, dim, a, p + 1, i, e) else Total(data, dim, a, p, i, e)
    {
      sums[c, d] := sums[c, d] + data[p][d];
    }
  }

  /** Replace the centres by the means of their clusters, or by zero where a cluster is empty. */
  method UpdateCenters(data: seq<Vector>, dim: nat, a: seq<nat>, sums: array2<real>, counts: array<nat>,
                       centers: array2<real>)
    requires Matrix(data, dim) && |data| == |a| && centers != sums
    requires sums.Length0 == counts.Length == centers.Length0 && sums.Length1 == centers.Length1 == dim
    requires forall i, d :: 0 <= i < sums.Length0 && 0 <= d < dim ==> sums[i, d] == Total(data, dim, a, |a|, i, d)
    requires forall i :: 0 <= i < counts.Length ==> counts[i] == Count(a, |a|, i)
    modifies centers
    ensures Rows(centers) == Means(data, dim, a, centers.Length0)
  {
    forall c, d | 0 <= c < centers.Length0 && 0 <= d < centers.Length1 {
      centers[c, d] := 0.0;
    }
    for c := 0 to centers.Length0
      invariant forall i, d :: 0 <= i < c && 0 <= d < dim ==> centers[i, d] == MeanAt(data, dim, a, i, d)
      invariant forall i, d :: c <= i < centers.Length0 && 0 <= d < dim ==> centers[i, d] == 0.0
    {
      if counts[c] != 0 {
        for d := 0 to dim
          invariant forall i, e :: 0 <= i < c && 0 <= e < dim ==> centers[i, e] == MeanAt(data, dim, a, i, e)
          invariant forall e :: 0 <= e < d ==> centers[c, e] == MeanAt(data, dim, a, c, e)
          invariant forall i, e :: c < i < centers.Length0 && 0 <= e < dim ==> centers[i, e] == 0.0
        {
          centers[c, d] := sums[c, d] / counts[c] as real;
        }
      }
    }
    var means := Means(data, dim, a, centers.Length0);
    forall c | 0 <= c < centers.Length0 ensures Rows(centers)[c] == means[c] {
    }
  }

  method RunLloyd(data: seq<Vector>, dim: nat, maxIterations: nat, centers: array2<real>)
    requires Matrix(data, dim) && centers.Length0 > 0 && centers.Length1 == dim
    modifies centers
    ensures Rows(centers) == Lloyd(data, dim, old(Rows(centers)), None, maxIterations)
  {
    hide Lloyd, Means, Residual, Nearest, IsNearest, Dist;
    ghost var start := Rows(centers);
    var previous: Option<real> := None;
    var iteration := 0;
    while iteration < maxIterations
      invariant iteration <= maxIterations
      invariant Lloyd(data, dim, start, None, maxIterations)
             == Lloyd(data, dim, Rows(centers), previous, maxIterations - iteration)
    {
      var before := RowsOf(centers);
      var a := OneIteration(data, dim, centers, before);
      var after := RowsOf(centers);
      var residual := SumResidual(data, dim, a, after);
      UnrollLloyd(data, dim, before, previous, maxIterations - iteration);
      if residual <= EPSILON {
        return;
      }
      if previous.Some? && (previous.value - residual) / residual < 0.00001 {
        return;
      }
      previous := Some(residual);
      iteration := iteration + 1;
    }
    NoIterationsLeft(data, dim, Rows(centers), previous);
  }

  lemma UnrollLloyd(data: seq<Vector>, dim: nat, centers: seq<Vector>, previous: Option<real>, left: nat)
    requires Matrix(data, dim) && Matrix(centers, dim) && |centers| > 0 && left > 0
    ensures Lloyd(data, dim, centers, previous, left)
         == if Converged(previous, ReportedResidual(data, dim, centers)) then LloydStep(data, dim, centers)
            else Lloyd(data, dim, LloydStep(data, dim, centers), Some(ReportedResidual(data, dim, centers)), left - 1)
  {
    hide LloydStep, ReportedResidual, Converged;
  }

  lemma NoIterationsLeft(data: seq<Vector>, dim: nat, centers: seq<Vector>, previous: Option<real>)
    requires Matrix(data, dim) && Matrix(centers, dim) && |centers| > 0
    ensures Lloyd(data, dim, centers, previous, 0) == centers
  {
  }

  /** Assign every point to its nearest centre and replace the centres by the new means. */
  method OneIteration(data: seq<Vector>, dim: nat, centers: array2<real>, before: seq<Vector>) returns (a: seq<nat>)
    requires Matrix(data, dim) && centers.Length0 > 0 && centers.Length1 == dim && before == Rows(centers)
    modifies centers
    ensures a == Assign(data, before, dim)
    ensures Rows(centers) == LloydStep(data, dim, before)
  {
    hide Means, Nearest, IsNearest, Dist;
    var k := centers.Length0;
    var sums := new real[k, dim]((_, _) => 0.0);
    var counts := new nat[k](_ => 0);
    ghost var target := Assign(data, before, dim);
    a := [];
    for p := 0 to |data|
      invariant |a| == p && a == target[..p] && fresh(sums) && fresh(counts)
      invariant forall i, d :: 0 <= i < k && 0 <= d < dim ==> sums[i, d] == Total(data, dim, target, p, i, d)
      invariant forall i :: 0 <= i < k ==> counts[i] == Count(target, p, i)
    {
      var c := NearestCenter(data[p], before, dim);
      NearestIsUnique(data[p], before, dim, c);
      counts[c] := counts[c] + 1;
      Accumulate(data, dim, target, p, c, sums);
      a := a + [c];
    }
    assert a == target;
    UpdateCenters(data, dim, a, sums, counts, centers);
  }

  method SumResidual(data: seq<Vector>, dim: nat, a: seq<nat>, centers: seq<Vector>) returns (residual: real)
    requires Matrix(data, dim) && Matrix(centers, dim) && |data| == |a| && Assigned(a, |centers|)
    ensures residual == Residual(data, dim, a, centers, |data|)
  {
    residual := 0.0;
    for p := 0 to |data|
      invariant residual == Residual(data, dim, a, centers, p)
    {
      var distance := SquaredL2(data[p], centers[a[p]], dim);
      residual := residual + distance;
    }
  }
}
