/**
  The codec of src/pq.cc over real arithmetic: chunk boundaries, encoding by nearest
  centres, and the lookup table that turns a code into a distance.
 */
module PqCodec {
  import opened Common
  import opened PqLloyd

  const NUM_CENTERS: nat := 256

  datatype Error = InvalidArgument | InvalidModel

  /** `pivots[c]` is centre `c` across all dimensions; `offsets` cuts the dimensions into chunks. */
  datatype Model = Model(dim: nat, offsets: seq<nat>, pivots: seq<Vector>, centroid: Vector) {
    function Chunks(): nat {
      if |offsets| == 0 then 0 else |offsets| - 1
    }
  }

  /** Strictly increasing boundaries from 0 to `dim`. */
  predicate Partition(offsets: seq<nat>, dim: nat) {
    && |offsets| >= 2 && offsets[0] == 0 && offsets[|offsets| - 1] == dim
    && forall i :: 1 <= i < |offsets| ==> offsets[i - 1] < offsets[i]
  }

  predicate ValidModel(m: Model) {
    && m.dim > 0 && Partition(m.offsets, m.dim)
    && |m.pivots| == NUM_CENTERS && Matrix(m.pivots, m.dim)
    && |m.centroid| == m.dim
  }

  lemma {:induction false} OffsetsMonotone(offsets: seq<nat>, dim: nat, i: nat, j: nat)
    requires Partition(offsets, dim) && i <= j < |offsets|
    ensures offsets[i] <= offsets[j]
    decreases j - i
  {
    if i < j {
      OffsetsMonotone(offsets, dim, i, j - 1);
    }
  }

  lemma OffsetsGrow(offsets: seq<nat>, dim: nat, i: nat, j: nat)
    requires Partition(offsets, dim) && i <= j < |offsets|
    ensures offsets[i] <= offsets[j] <= dim
  {
    OffsetsMonotone(offsets, dim, i, j);
    OffsetsMonotone(offsets, dim, j, |offsets| - 1);
  }

  // ---------- Chunk boundaries ----------

  lemma EvenSplit(dim: nat, chunks: nat)
    requires 0 < chunks <= dim
    ensures dim / chunks >= 1 && dim - (dim / chunks) * chunks == dim % chunks < chunks
  {
  }

  /** Cut `dim` dimensions into `chunks` runs, the first `dim % chunks` of them one longer. */
  method MakeChunkOffsets(dim: nat, chunks: nat) returns (r: Result<seq<nat>, Error>)
    ensures r.Ok? <==> 0 < chunks <= dim
    ensures r.Ok? ==>
      && |r.value| == chunks + 1 && Partition(r.value, dim)
      && forall i :: 0 <= i < chunks ==>
           r.value[i + 1] == r.value[i] + dim / chunks + if i < dim % chunks then 1 else 0
  {
    if dim == 0 || chunks == 0 || chunks > dim {
      return Err(InvalidArgument);
    }
    var low := dim / chunks;
    var highCount := dim - low * chunks;
    EvenSplit(dim, chunks);
    var offsets := Boundaries(chunks, low, highCount);
    return Ok(offsets);
  }

  method Boundaries(chunks: nat, low: nat, highCount: nat) returns (offsets: seq<nat>)
    requires low > 0 && highCount < chunks
    ensures |offsets| == chunks + 1 && offsets[0] == 0 && offsets[chunks] == low * chunks + highCount
    ensures forall i :: 0 <= i < chunks ==> offsets[i + 1] == offsets[i] + low + if i < highCount then 1 else 0
    ensures forall i :: 1 <= i <= chunks ==> offsets[i - 1] < offsets[i]
  {
    offsets := [0];
    for c := 0 to chunks
      invariant |offsets| == c + 1 && offsets[0] == 0
      invariant offsets[c] == low * c + if c < highCount then c else highCount
      invariant forall i :: 1 <= i <= c ==> offsets[i - 1] < offsets[i]
      invariant forall i :: 0 <= i < c ==> offsets[i + 1] == offsets[i] + low + if i < highCount then 1 else 0
    {
      offsets := offsets + [offsets[c] + low + if c < highCount then 1 else 0];
      assert low * (c + 1) == low * c + low;
    }
  }

  // ---------- Distances over a range of dimensions ----------

  function Minus(a: Vector, b: Vector): (r: Vector)
    requires |a| == |b|
    ensures |r| == |a| && forall d :: 0 <= d < |r| ==> r[d] == a[d] - b[d]
  {
    seq(|a|, d requires 0 <= d < |a| => a[d] - b[d])
  }

  /** Squared distance over dimensions `lo` to `hi`. */
  function RangeDist(a: Vector, b: Vector, lo: nat, hi: nat): (r: real)
    requires lo <= hi <= |a| && hi <= |b|
    ensures r >= 0.0
    decreases hi
  {
    if hi == lo then 0.0 else RangeDist(a, b, lo, hi - 1) + Sq(a[hi - 1] - b[hi - 1])
  }

  lemma {:induction false} RangeSplits(a: Vector, b: Vector, lo: nat, mid: nat, hi: nat)
    requires lo <= mid <= hi <= |a| && hi <= |b|
    ensures RangeDist(a, b, lo, hi) == RangeDist(a, b, lo, mid) + RangeDist(a, b, mid, hi)
    decreases hi
  {
    if hi > mid {
      RangeSplits(a, b, lo, mid, hi - 1);
    }
  }

  lemma {:induction false} RangeDependsOnRange(a: Vector, b: Vector, c: Vector, lo: nat, hi: nat)
    requires lo <= hi <= |a| && hi <= |b| && hi <= |c|
    requires forall d :: lo <= d < hi ==> b[d] == c[d]
    ensures RangeDist(a, b, lo, hi) == RangeDist(a, c, lo, hi)
    decreases hi
  {
    if hi > lo {
      RangeDependsOnRange(a, b, c, lo, hi - 1);
    }
  }

  lemma {:induction false} RangeIsSliceDist(a: Vector, b: Vector, lo: nat, hi: nat)
    requires lo <= hi <= |a| && hi <= |b|
    ensures RangeDist(a, b, lo, hi) == Dist(a[lo..hi], b[lo..hi], hi - lo)
    decreases hi
  {
    if hi > lo {
      RangeIsSliceDist(a, b, lo, hi - 1);
      DistDependsOnPrefix(a[lo..hi], b[lo..hi], a[lo..hi - 1], b[lo..hi - 1], hi - 1 - lo);
    }
  }

  lemma {:induction false} DistDependsOnPrefix(a: Vector, b: Vector, c: Vector, d: Vector, n: nat)
    requires n <= |a| && n <= |b| && n <= |c| && n <= |d|
    requires forall i :: 0 <= i < n ==> a[i] == c[i] && b[i] == d[i]
    ensures Dist(a, b, n) == Dist(c, d, n)
  {
    if n > 0 {
      DistDependsOnPrefix(a, b, c, d, n - 1);
    }
  }

  // ---------- Codes ----------

  /** One centre number per chunk. */
  predicate ValidCode(code: seq<nat>, m: Model) {
    |code| == m.Chunks() && forall j :: 0 <= j < |code| ==> code[j] < NUM_CENTERS
  }

  /** The vector a code stands for, in coordinates relative to the centroid. */
  function Rebuilt(code: seq<nat>, m: Model, n: nat): (r: Vector)
    requires ValidModel(m) && ValidCode(code, m) && n <= m.Chunks()
    ensures |r| == m.offsets[n]
  {
    if n == 0 then []
    else
      assert m.offsets[n - 1] <= m.offsets[n] <= m.dim by { OffsetsGrow(m.offsets, m.dim, n - 1, n); }
      Rebuilt(code, m, n - 1) + m.pivots[code[n - 1]][m.offsets[n - 1]..m.offsets[n]]
  }

  /** Squared distance from `x` to centre `c` within chunk `j`. */
  function ChunkDist(x: Vector, m: Model, j: nat, c: nat): real
    requires ValidModel(m) && |x| == m.dim && j < m.Chunks() && c < NUM_CENTERS
  {
    OffsetsGrow(m.offsets, m.dim, j, j + 1);
    RangeDist(x, m.pivots[c], m.offsets[j], m.offsets[j + 1])
  }

  /** The lookup-table distance: the sum of the chunk distances the code selects. */
  function CodeDist(x: Vector, m: Model, code: seq<nat>, n: nat): real
    requires ValidModel(m) && |x| == m.dim && ValidCode(code, m) && n <= m.Chunks()
  {
    if n == 0 then 0.0 else CodeDist(x, m, code, n - 1) + ChunkDist(x, m, n - 1, code[n - 1])
  }

  lemma {:induction false} PrefixDistance(x: Vector, m: Model, code: seq<nat>, n: nat)
    requires ValidModel(m) && |x| == m.dim && ValidCode(code, m) && n <= m.Chunks()
    ensures m.offsets[n] <= m.dim
    ensures CodeDist(x, m, code, n) == RangeDist(x, Rebuilt(code, m, n), 0, m.offsets[n])
  {
    OffsetsGrow(m.offsets, m.dim, n, n);
    if n > 0 {
      OffsetsGrow(m.offsets, m.dim, n - 1, n);
      PrefixDistance(x, m, code, n - 1);
      var lo, hi := m.offsets[n - 1], m.offsets[n];
      var before, after := Rebuilt(code, m, n - 1), Rebuilt(code, m, n);
      RangeSplits(x, after, 0, lo, hi);
      RangeDependsOnRange(x, before, after, 0, lo);
      RangeDependsOnRange(x, m.pivots[code[n - 1]], after, lo, hi);
    }
  }

  /** Looking a code up gives exactly the squared distance to the vector the code stands for. */
  lemma TableDistanceIsExact(x: Vector, m: Model, code: seq<nat>)
    requires ValidModel(m) && |x| == m.dim && ValidCode(code, m)
    ensures |Rebuilt(code, m, m.Chunks())| == m.dim
    ensures CodeDist(x, m, code, m.Chunks()) == RangeDist(x, Rebuilt(code, m, m.Chunks()), 0, m.dim)
  {
    PrefixDistance(x, m, code, m.Chunks());
  }

  /** Each chunk of the code names the first of the centres nearest within that chunk. */
  ghost predicate NearestCode(x: Vector, m: Model, code: seq<nat>, n: nat)
    requires ValidModel(m) && |x| == m.dim && |code| >= n && n <= m.Chunks()
  {
    forall j :: 0 <= j < n ==>
      && code[j] < NUM_CENTERS
      && (forall c :: 0 <= c < NUM_CENTERS ==> ChunkDist(x, m, j, code[j]) <= ChunkDist(x, m, j, c))
      && forall c :: 0 <= c < code[j] ==> ChunkDist(x, m, j, code[j]) < ChunkDist(x, m, j, c)
  }

  lemma {:induction false} NearestCodeIsBestUpTo(x: Vector, m: Model, code: seq<nat>, other: seq<nat>, n: nat)
    requires ValidModel(m) && |x| == m.dim && ValidCode(code, m) && ValidCode(other, m)
    requires n <= m.Chunks() && NearestCode(x, m, code, m.Chunks())
    ensures CodeDist(x, m, code, n) <= CodeDist(x, m, other, n)
  {
    hide ChunkDist;
    if n > 0 {
      NearestCodeIsBestUpTo(x, m, code, other, n - 1);
    }
  }

  /** The encoder's code rebuilds the vector nearest to `x` among all 256^m codes. */
  lemma EncodingIsOptimal(x: Vector, m: Model, code: seq<nat>, other: seq<nat>)
    requires ValidModel(m) && |x| == m.dim && ValidCode(code, m) && ValidCode(other, m)
    requires NearestCode(x, m, code, m.Chunks())
    ensures RangeDist(x, Rebuilt(code, m, m.Chunks()), 0, m.dim) <= RangeDist(x, Rebuilt(other, m, m.Chunks()), 0, m.dim)
  {
    TableDistanceIsExact(x, m, code);
    TableDistanceIsExact(x, m, other);
    NearestCodeIsBestUpTo(x, m, code, other, m.Chunks());
  }

  // ---------- The encoder ----------

  /** Encode every vector, one chunk at a time across all of them. */
  method Encode(data: seq<Vector>, m: Model) returns (r: Result<array2<nat>, Error>)
    requires ValidModel(m) ==> Matrix(data, m.dim)
    ensures r.Ok? <==> ValidModel(m)
    ensures r.Ok? ==> r.value.Length0 == |data| && r.value.Length1 == m.Chunks() && fresh(r.value)
    ensures r.Ok? ==> forall p :: 0 <= p < |data| ==>
      ValidCode(CodeOf(r.value, p), m) && NearestCode(Minus(data[p], m.centroid), m, CodeOf(r.value, p), m.Chunks())
  {
    hide ChunkDist, IsNearest;
    if !ValidModel(m) {
      return Err(InvalidModel);
    }
    var codes := new nat[|data|, m.Chunks()]((_, _) => 0);
    for j := 0 to m.Chunks()
      invariant fresh(codes)
      invariant forall p, i :: 0 <= p < |data| && 0 <= i < j ==> IsChunkCode(data[p], m, i, codes[p, i])
    {
      OffsetsGrow(m.offsets, m.dim, j, j + 1);
      var begin, end := m.offsets[j], m.offsets[j + 1];
      var centers := seq(NUM_CENTERS, c requires 0 <= c < NUM_CENTERS => m.pivots[c][begin..end]);
      for p := 0 to |data|
        invariant fresh(codes)
        invariant forall q, i :: 0 <= q < |data| && 0 <= i < j ==> IsChunkCode(data[q], m, i, codes[q, i])
        invariant forall q :: 0 <= q < p ==> IsChunkCode(data[q], m, j, codes[q, j])
      {
        var centered := Minus(data[p], m.centroid);
        var best := NearestCenter(centered[begin..end], centers, end - begin);
        NearestInChunk(data[p], m, j, best, centers);
        codes[p, j] := best;
      }
    }
    return Ok(codes);
  }

  ghost predicate IsChunkCode(x: Vector, m: Model, j: nat, c: nat)
    requires ValidModel(m) && |x| == m.dim && j < m.Chunks()
  {
    var y := Minus(x, m.centroid);
    && c < NUM_CENTERS && (forall k :: 0 <= k < NUM_CENTERS ==> ChunkDist(y, m, j, c) <= ChunkDist(y, m, j, k))
    && forall k :: 0 <= k < c ==> ChunkDist(y, m, j, c) < ChunkDist(y, m, j, k)
  }

  lemma NearestInChunk(x: Vector, m: Model, j: nat, best: nat, centers: seq<Vector>)
    requires ValidModel(m) && |x| == m.dim && j < m.Chunks()
    requires m.offsets[j] <= m.offsets[j + 1] <= m.dim && |centers| == NUM_CENTERS
    requires forall c :: 0 <= c < NUM_CENTERS ==> centers[c] == m.pivots[c][m.offsets[j]..m.offsets[j + 1]]
    requires IsNearest(Minus(x, m.centroid)[m.offsets[j]..m.offsets[j + 1]], centers, m.offsets[j + 1] - m.offsets[j], best)
    ensures IsChunkCode(x, m, j, best)
  {
    var y := Minus(x, m.centroid);
    var lo, hi := m.offsets[j], m.offsets[j + 1];
    forall c | 0 <= c < NUM_CENTERS ensures ChunkDist(y, m, j, c) == Dist(y[lo..hi], centers[c], hi - lo) {
      RangeIsSliceDist(y, m.pivots[c], lo, hi);
    }
  }

  ghost function CodeOf(codes: array2<nat>, p: nat): (code: seq<nat>)
    requires p < codes.Length0
    reads codes
    ensures |code| == codes.Length1 && forall j :: 0 <= j < |code| ==> code[j] == codes[p, j]
  {
    seq(codes.Length1, j requires 0 <= j < codes.Length1 reads codes => codes[p, j])
  }

  // ---------- The lookup table ----------

  /** Table entry (j, c): squared distance from the centred query to centre `c` within chunk `j`. */
  method BuildDistanceTable(query: Vector, m: Model) returns (r: Result<array2<real>, Error>)
    requires ValidModel(m) ==> |query| == m.dim
    ensures r.Ok? <==> ValidModel(m)
    ensures r.Ok? ==> r.value.Length0 == m.Chunks() && r.value.Length1 == NUM_CENTERS && fresh(r.value)
    ensures r.Ok? ==> forall j, c :: 0 <= j < m.Chunks() && 0 <= c < NUM_CENTERS ==>
      r.value[j, c] == ChunkDist(Minus(query, m.centroid), m, j, c)
  {
    if !ValidModel(m) {
      return Err(InvalidModel);
    }
    var table := new real[m.Chunks(), NUM_CENTERS]((_, _) => 0.0);
    ghost var x := Minus(query, m.centroid);
    for j := 0 to m.Chunks()
      invariant fresh(table)
      invariant forall i, c :: 0 <= i < j && 0 <= c < NUM_CENTERS ==> table[i, c] == ChunkDist(x, m, i, c)
    {
      OffsetsGrow(m.offsets, m.dim, j, j + 1);
      for c := 0 to NUM_CENTERS
        invariant fresh(table)
        invariant forall i, k :: 0 <= i < j && 0 <= k < NUM_CENTERS ==> table[i, k] == ChunkDist(x, m, i, k)
        invariant forall k :: 0 <= k < c ==> table[j, k] == ChunkDist(x, m, j, k)
      {
        var distance := 0.0;
        for d := m.offsets[j] to m.offsets[j + 1]
          invariant distance == RangeDist(x, m.pivots[c], m.offsets[j], d)
        {
          var diff := query[d] - m.centroid[d] - m.pivots[c][d];
          distance := distance + diff * diff;
        }
        table[j, c] := distance;
      }
    }
    return Ok(table);
  }

  /** Sum the table entries that a code selects. */
  method TableDistance(table: array2<real>, code: seq<nat>, ghost query: Vector,
                       ghost m: Model) returns (distance: real)
    requires ValidModel(m) && |query| == m.dim && ValidCode(code, m)
    requires table.Length0 == m.Chunks() && table.Length1 == NUM_CENTERS
    requires forall j, c :: 0 <= j < m.Chunks() && 0 <= c < NUM_CENTERS ==>
      table[j, c] == ChunkDist(Minus(query, m.centroid), m, j, c)
    ensures |Rebuilt(code, m, m.Chunks())| == m.dim
    ensures distance == RangeDist(Minus(query, m.centroid), Rebuilt(code, m, m.Chunks()), 0, m.dim)
  {
    distance := 0.0;
    for j := 0 to table.Length0
      invariant distance == CodeDist(Minus(query, m.centroid), m, code, j)
    {
      distance := distance + table[j, code[j]];
    }
    TableDistanceIsExact(Minus(query, m.centroid), m, code);
  }
}
