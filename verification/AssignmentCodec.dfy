/**
  The assignment records of python/train_geometric_cells.py: an order of all nodes cut into
  Cells becomes one (Cell, order) record per node, and records become groups again.
 */
module AssignmentCodec {
  import opened Common

  datatype Error = ProfileError

  const INVALID_ID: nat := 0xFFFF_FFFF

  datatype Record = Record(node: nat, community: nat, cell: nat, order: nat)

  // ---------- Offsets ----------

  /** How many nodes the first `c` Cells hold. */
  function Before(sizes: seq<nat>, c: nat): nat
    requires c <= |sizes|
  {
    if c == 0 then 0 else Before(sizes, c - 1) + sizes[c - 1]
  }

  lemma {:induction false} BeforeGrows(sizes: seq<nat>, a: nat, b: nat)
    requires a <= b <= |sizes|
    ensures Before(sizes, a) <= Before(sizes, b)
    ensures a < b ==> Before(sizes, a) + sizes[a] <= Before(sizes, b)
  {
    if a < b {
      BeforeGrows(sizes, a, b - 1);
    }
  }

  /** Position `Before(c) + r` belongs to Cell `c` and to no other. */
  lemma SlotUnique(sizes: seq<nat>, c: nat, r: nat, d: nat, q: nat)
    requires c < |sizes| && d < |sizes| && r < sizes[c] && q < sizes[d]
    requires Before(sizes, c) + r == Before(sizes, d) + q
    ensures c == d && r == q
  {
    if c < d {
      BeforeGrows(sizes, c, d);
    } else if d < c {
      BeforeGrows(sizes, d, c);
    }
  }

  lemma SlotInRange(sizes: seq<nat>, c: nat, r: nat)
    requires c < |sizes| && r < sizes[c]
    ensures Before(sizes, c) + r < Before(sizes, |sizes|)
  {
    BeforeGrows(sizes, c, |sizes|);
  }

  function Offsets(sizes: seq<nat>): (offsets: seq<nat>)
    ensures |offsets| == |sizes| + 1 && forall c :: 0 <= c <= |sizes| ==> offsets[c] == Before(sizes, c)
  {
    seq(|sizes| + 1, c requires 0 <= c <= |sizes| => Before(sizes, c))
  }

  method CumulativeSum(sizes: seq<nat>) returns (offsets: seq<nat>)
    ensures offsets == Offsets(sizes)
  {
    hide Before;
    offsets := [0];
    BeforeStep(sizes, 0);
    for c := 0 to |sizes|
      invariant |offsets| == c + 1 && forall k :: 0 <= k <= c ==> offsets[k] == Before(sizes, k)
    {
      BeforeStep(sizes, c + 1);
      offsets := offsets + [offsets[c] + sizes[c]];
    }
  }

  /** The first position whose offset exceeds `x`. */
  method SearchRight(offsets: seq<nat>, x: nat) returns (i: nat)
    requires forall a, b :: 0 <= a <= b < |offsets| ==> offsets[a] <= offsets[b]
    ensures i <= |offsets|
    ensures forall k :: 0 <= k < i ==> offsets[k] <= x
    ensures forall k :: i <= k < |offsets| ==> offsets[k] > x
  {
    var lo, hi := 0, |offsets|;
    while lo < hi
      invariant 0 <= lo <= hi <= |offsets|
      invariant forall k :: 0 <= k < lo ==> offsets[k] <= x
      invariant forall k :: hi <= k < |offsets| ==> offsets[k] > x
    {
      var mid := (lo + hi) / 2;
      if offsets[mid] <= x {
        lo := mid + 1;
      } else {
        hi := mid;
      }
    }
    return lo;
  }

  // ---------- Groups and records ----------

  /** The groups into which `sizes` cuts `ordered`. */
  function Slices(ordered: seq<nat>, sizes: seq<nat>): (groups: seq<seq<nat>>)
    requires Before(sizes, |sizes|) == |ordered|
    ensures |groups| == |sizes|
    ensures forall c :: 0 <= c < |sizes| ==>
      Before(sizes, c) + sizes[c] <= |ordered| && groups[c] == ordered[Before(sizes, c)..Before(sizes, c) + sizes[c]]
  {
    SlicesFit(sizes);
    seq(|sizes|, c requires 0 <= c < |sizes| => ordered[Before(sizes, c)..Before(sizes, c) + sizes[c]])
  }

  lemma SlicesFit(sizes: seq<nat>)
    ensures forall c :: 0 <= c < |sizes| ==> Before(sizes, c) + sizes[c] <= Before(sizes, |sizes|)
  {
    forall c | 0 <= c < |sizes| ensures Before(sizes, c) + sizes[c] <= Before(sizes, |sizes|) {
      BeforeGrows(sizes, c, |sizes|);
    }
  }

  /** Node `i` is entry `orders[i]` of group `cells[i]`. */
  ghost predicate HasPlace(cells: seq<nat>, orders: seq<nat>, groups: seq<seq<nat>>, i: int) {
    && 0 <= i < |cells| == |orders| && cells[i] < |groups|
    && orders[i] < |groups[cells[i]]| && groups[cells[i]][orders[i]] == i
  }

  /** Entry `r` of group `c` is a node that says so. */
  ghost predicate IsFilled(cells: seq<nat>, orders: seq<nat>, groups: seq<seq<nat>>, c: int, r: int) {
    && |cells| == |orders| && 0 <= c < |groups| && 0 <= r < |groups[c]|
    && groups[c][r] < |cells| && cells[groups[c][r]] == c && orders[groups[c][r]] == r
  }

  /** Nodes and entries of groups match one to one. */
  ghost predicate Places(cells: seq<nat>, orders: seq<nat>, groups: seq<seq<nat>>) {
    && |cells| == |orders|
    && (forall i :: 0 <= i < |cells| ==> HasPlace(cells, orders, groups, i))
    && (forall c, r :: 0 <= c < |groups| && 0 <= r < |groups[c]| ==> IsFilled(cells, orders, groups, c, r))
  }

  /** The arrays describe a partition of all nodes into `cellCount` groups that are not empty. */
  ghost predicate Describes(cells: seq<nat>, orders: seq<nat>, cellCount: nat, groups: seq<seq<nat>>) {
    && Places(cells, orders, groups) && |groups| == cellCount && |cells| > 0
    && forall c :: 0 <= c < |groups| ==> |groups[c]| > 0
  }

  lemma PlacesPrefix(cells: seq<nat>, orders: seq<nat>, g: seq<seq<nat>>, h: seq<seq<nat>>, c: nat)
    requires Places(cells, orders, g) && Places(cells, orders, h) && c < |g| && c < |h|
    ensures |g[c]| <= |h[c]| && forall r :: 0 <= r < |g[c]| ==> g[c][r] == h[c][r]
  {
    hide IsFilled, HasPlace;
    forall r | 0 <= r < |g[c]| ensures r < |h[c]| && g[c][r] == h[c][r] {
      EntryElsewhere(cells, orders, g, h, c, r);
    }
    if |g[c]| > |h[c]| {
      EntryElsewhere(cells, orders, g, h, c, |h[c]|);
    }
  }

  lemma EntryElsewhere(cells: seq<nat>, orders: seq<nat>, g: seq<seq<nat>>, h: seq<seq<nat>>, c: nat, r: nat)
    requires Places(cells, orders, g) && Places(cells, orders, h) && c < |g| && c < |h| && r < |g[c]|
    ensures r < |h[c]| && g[c][r] == h[c][r]
  {
    assert IsFilled(cells, orders, g, c, r);
    assert HasPlace(cells, orders, h, g[c][r]);
  }

  /** The arrays leave no choice of groups. */
  lemma PlacesUnique(cells: seq<nat>, orders: seq<nat>, g: seq<seq<nat>>, h: seq<seq<nat>>)
    requires Places(cells, orders, g) && Places(cells, orders, h) && |g| == |h|
    ensures g == h
  {
    forall c | 0 <= c < |g| ensures g[c] == h[c] {
      PlacesPrefix(cells, orders, g, h, c);
      PlacesPrefix(cells, orders, h, g, c);
    }
  }

  // ---------- Inverting by scattering ----------

  ghost predicate Scattered(positions: seq<nat>, i: nat, members: seq<nat>) {
    && i <= |positions|
    && (forall p :: 0 <= p < |members| && members[p] == INVALID_ID ==> p !in positions[..i])
    && (forall p :: 0 <= p < |members| && members[p] != INVALID_ID ==> members[p] < i && positions[members[p]] == p)
  }

  /** Write `i` at `positions[i]` for all i; a gap is left unless all positions differ. */
  method Scatter(positions: seq<nat>) returns (members: array<nat>)
    requires |positions| <= INVALID_ID && forall i :: 0 <= i < |positions| ==> positions[i] < |positions|
    ensures fresh(members) && members.Length == |positions|
    ensures Scattered(positions, |positions|, members[..])
    ensures INVALID_ID !in members[..] <==> NoDup(positions)
  {
    members := new nat[|positions|](_ => INVALID_ID);
    for i := 0 to |positions|
      invariant Scattered(positions, i, members[..])
    {
      assert positions[..i + 1] == positions[..i] + [positions[i]];
      members[positions[i]] := i;
    }
    GapIffRepeated(positions, members[..]);
  }

  lemma GapIffRepeated(positions: seq<nat>, members: seq<nat>)
    requires Scattered(positions, |positions|, members) && |members| == |positions|
    requires forall i :: 0 <= i < |positions| ==> positions[i] < |positions|
    ensures INVALID_ID !in members <==> NoDup(positions)
  {
    assert positions[..|positions|] == positions;
    if INVALID_ID !in members {
      forall p: nat | p < |positions| ensures p in positions {
        assert members[p] in members;
      }
      CoverRepeatsNothing(positions);
    }
    if NoDup(positions) {
      forall p | 0 <= p < |members| ensures members[p] != INVALID_ID {
        NoDupCovers(positions, p);
      }
    }
  }

  /** Without repeats the scattered array is the inverse. */
  lemma ScatterInverts(positions: seq<nat>, members: seq<nat>, i: nat)
    requires Scattered(positions, |positions|, members) && |members| == |positions| && INVALID_ID !in members
    requires forall i :: 0 <= i < |positions| ==> positions[i] < |positions|
    requires i < |positions|
    ensures NoDup(positions) && members[positions[i]] == i
    ensures members[i] < |positions| && positions[members[i]] == i
  {
    GapIffRepeated(positions, members);
    assert members[positions[i]] in members && members[i] in members;
    assert positions[members[positions[i]]] == positions[i];
  }

  // ---------- Writing ----------

  ghost predicate IsPermutation(ordered: seq<nat>) {
    NoDup(ordered) && forall i :: 0 <= i < |ordered| ==> ordered[i] < |ordered|
  }

  ghost predicate CanWrite(ordered: seq<nat>, sizes: seq<nat>, communities: seq<nat>) {
    && |ordered| > 0 && |sizes| > 0 && Before(sizes, |sizes|) == |ordered|
    && IsPermutation(ordered) && |communities| == |ordered|
  }

  function Cells(records: seq<Record>): (cells: seq<nat>)
    ensures |cells| == |records| && forall i :: 0 <= i < |records| ==> cells[i] == records[i].cell
  {
    seq(|records|, i requires 0 <= i < |records| => records[i].cell)
  }

  function Orders(records: seq<Record>): (orders: seq<nat>)
    ensures |orders| == |records| && forall i :: 0 <= i < |records| ==> orders[i] == records[i].order
  {
    seq(|records|, i requires 0 <= i < |records| => records[i].order)
  }

  /** Record `i` is node `i`, at the place where `ordered` has it. */
  ghost predicate RecordAt(ordered: seq<nat>, sizes: seq<nat>, communities: seq<nat>, i: nat, rec: Record) {
    && rec.node == i && i < |communities| && rec.community == communities[i]
    && rec.cell < |sizes| && rec.order < sizes[rec.cell]
    && Before(sizes, rec.cell) + rec.order < |ordered| && ordered[Before(sizes, rec.cell) + rec.order] == i
  }

  /** One record per node, in node order, that says where `ordered` has the node. */
  method WriteAssignment(ordered: seq<nat>, sizes: seq<nat>, communities: seq<nat>)
    returns (r: Result<seq<Record>, Error>)
    requires |ordered| <= INVALID_ID
    ensures r.Ok? <==> CanWrite(ordered, sizes, communities)
    ensures r.Ok? ==>
      && |r.value| == |ordered|
      && (forall i :: 0 <= i < |ordered| ==> r.value[i].node == i && r.value[i].community == communities[i])
      && Places(Cells(r.value), Orders(r.value), Slices(ordered, sizes))
  {
    hide Places, Scattered, RecordAt, Slices;
    var n := |ordered|;
    var offsets := CumulativeSum(sizes);
    if n == 0 || |sizes| == 0 || offsets[|sizes|] != n {
      return Err(ProfileError);
    }
    for i := 0 to n
      invariant forall k :: 0 <= k < i ==> ordered[k] < n
    {
      if ordered[i] >= n {
        return Err(ProfileError);
      }
    }
    var scattered := Scatter(ordered);
    var inverse := scattered[..];
    if INVALID_ID in inverse || |communities| != n {
      return Err(ProfileError);
    }
    OffsetsAscend(sizes);
    var records := [];
    for i := 0 to n
      invariant |records| == i
      invariant forall k :: 0 <= k < i ==> RecordAt(ordered, sizes, communities, k, records[k])
    {
      ScatterInverts(ordered, inverse, i);
      var rank := inverse[i];
      var above := SearchRight(offsets, rank);
      assert offsets[0] == 0 <= rank < offsets[|sizes|];
      var cell := above - 1;
      var rec := Record(i, communities[i], cell, rank - offsets[cell]);
      PlaceRecord(ordered, sizes, communities, rec);
      records := records + [rec];
    }
    RecordsPlace(ordered, sizes, communities, records);
    return Ok(records);
  }

  lemma OffsetsAscend(sizes: seq<nat>)
    ensures forall a, b :: 0 <= a <= b < |Offsets(sizes)| ==> Offsets(sizes)[a] <= Offsets(sizes)[b]
  {
    forall a, b | 0 <= a <= b < |Offsets(sizes)| ensures Offsets(sizes)[a] <= Offsets(sizes)[b] {
      BeforeGrows(sizes, a, b);
    }
  }

  lemma PlaceRecord(ordered: seq<nat>, sizes: seq<nat>, communities: seq<nat>, rec: Record)
    requires rec.node < |communities| && rec.community == communities[rec.node] && rec.cell < |sizes|
    requires Before(sizes, rec.cell) + rec.order < Before(sizes, rec.cell + 1)
    requires Before(sizes, rec.cell) + rec.order < |ordered| && ordered[Before(sizes, rec.cell) + rec.order] == rec.node
    ensures RecordAt(ordered, sizes, communities, rec.node, rec)
  {
  }

  lemma RecordsPlace(ordered: seq<nat>, sizes: seq<nat>, communities: seq<nat>, records: seq<Record>)
    requires CanWrite(ordered, sizes, communities) && |records| == |ordered|
    requires forall k :: 0 <= k < |ordered| ==> RecordAt(ordered, sizes, communities, k, records[k])
    ensures Places(Cells(records), Orders(records), Slices(ordered, sizes))
    ensures forall i :: 0 <= i < |ordered| ==> records[i].node == i && records[i].community == communities[i]
  {
    hide Slices, Before, IsPermutation, HasPlace, IsFilled, Cells, Orders;
    var cells, orders, groups := Cells(records), Orders(records), Slices(ordered, sizes);
    forall i | 0 <= i < |cells| ensures HasPlace(cells, orders, groups, i) {
      RecordHasPlace(ordered, sizes, communities, records, i);
    }
    forall c, r | 0 <= c < |groups| && 0 <= r < |groups[c]| ensures IsFilled(cells, orders, groups, c, r) {
      RecordFills(ordered, sizes, communities, records, c, r);
    }
  }

  lemma RecordHasPlace(ordered: seq<nat>, sizes: seq<nat>, communities: seq<nat>, records: seq<Record>, i: nat)
    requires CanWrite(ordered, sizes, communities) && |records| == |ordered| && i < |ordered|
    requires RecordAt(ordered, sizes, communities, i, records[i])
    ensures HasPlace(Cells(records), Orders(records), Slices(ordered, sizes), i)
  {
    hide Slices, Before, IsPermutation;
    SlicesFit(sizes);
    var c, r := records[i].cell, records[i].order;
    assert Slices(ordered, sizes)[c][r] == ordered[Before(sizes, c) + r];
  }

  lemma RecordFills(ordered: seq<nat>, sizes: seq<nat>, communities: seq<nat>, records: seq<Record>, c: nat, r: nat)
    requires CanWrite(ordered, sizes, communities) && |records| == |ordered|
    requires forall k :: 0 <= k < |ordered| ==> RecordAt(ordered, sizes, communities, k, records[k])
    requires c < |sizes| && r < sizes[c]
    ensures IsFilled(Cells(records), Orders(records), Slices(ordered, sizes), c, r)
  {
    hide RecordAt, Slices, Before;
    SlicesFit(sizes);
    var p := Before(sizes, c) + r;
    var i := ordered[p];
    assert RecordAt(ordered, sizes, communities, i, records[i]);
    RecordIs(ordered, sizes, communities, i, records[i]);
    SlotUnique(sizes, c, r, records[i].cell, records[i].order);
    assert Slices(ordered, sizes)[c][r] == i;
  }

  lemma RecordIs(ordered: seq<nat>, sizes: seq<nat>, communities: seq<nat>, i: nat, rec: Record)
    requires RecordAt(ordered, sizes, communities, i, rec) && i < |ordered| && NoDup(ordered)
    ensures rec.cell < |sizes| && rec.order < sizes[rec.cell]
    ensures forall p :: 0 <= p < |ordered| && ordered[p] == i ==> p == Before(sizes, rec.cell) + rec.order
  {
  }

  // ---------- Regrouping ----------

  /** How many nodes name Cell `c`. */
  function Count(cells: seq<nat>, c: nat): nat {
    if |cells| == 0 then 0 else Count(cells[..|cells| - 1], c) + if cells[|cells| - 1] == c then 1 else 0
  }

  function Counts(cells: seq<nat>, cellCount: nat): (counts: seq<nat>)
    ensures |counts| == cellCount && forall c :: 0 <= c < cellCount ==> counts[c] == Count(cells, c)
  {
    seq(cellCount, c requires 0 <= c < cellCount => Count(cells, c))
  }

  method BinCount(cells: seq<nat>, cellCount: nat) returns (counts: seq<nat>)
    requires forall i :: 0 <= i < |cells| ==> cells[i] < cellCount
    ensures counts == Counts(cells, cellCount)
  {
    counts := seq(cellCount, _ => 0);
    for i := 0 to |cells|
      invariant |counts| == cellCount && forall c :: 0 <= c < cellCount ==> counts[c] == Count(cells[..i], c)
    {
      assert cells[..i + 1][..i] == cells[..i];
      counts := counts[cells[i] := counts[cells[i]] + 1];
    }
    assert cells[..|cells|] == cells;
  }

  lemma {:induction false} BeforeBumped(a: seq<nat>, b: seq<nat>, c: nat, n: nat)
    requires |a| == |b| && c < |a| && n <= |a| && b == a[c := a[c] + 1]
    ensures Before(b, n) == Before(a, n) + if c < n then 1 else 0
  {
    if n > 0 {
      BeforeBumped(a, b, c, n - 1);
    }
  }

  lemma {:induction false} BeforeZero(n: nat, c: nat)
    requires c <= n
    ensures Before(seq(n, _ => 0), c) == 0
  {
    if c > 0 {
      BeforeZero(n, c - 1);
    }
  }

  /** The counts of all Cells add up to the number of nodes. */
  lemma {:induction false} CountsTotal(cells: seq<nat>, cellCount: nat)
    requires forall i :: 0 <= i < |cells| ==> cells[i] < cellCount
    ensures Before(Counts(cells, cellCount), cellCount) == |cells|
  {
    if |cells| == 0 {
      BeforeZero(cellCount, cellCount);
      assert Counts(cells, cellCount) == seq(cellCount, _ => 0);
    } else {
      var rest, last := cells[..|cells| - 1], cells[|cells| - 1];
      CountsTotal(rest, cellCount);
      assert Counts(cells, cellCount) == Counts(rest, cellCount)[last := Counts(rest, cellCount)[last] + 1];
      BeforeBumped(Counts(rest, cellCount), Counts(cells, cellCount), last, cellCount);
    }
  }

  ghost function Naming(cells: seq<nat>, c: nat): set<nat> {
    set i: nat | i < |cells| && cells[i] == c
  }

  lemma {:induction false} CountIsSize(cells: seq<nat>, c: nat)
    ensures Count(cells, c) == |Naming(cells, c)|
  {
    if |cells| > 0 {
      var n, rest := |cells| - 1, cells[..|cells| - 1];
      CountIsSize(rest, c);
      assert Naming(cells, c) == Naming(rest, c) + if cells[n] == c then {n} else {};
    }
  }

  /** A described group has as many entries as there are nodes that name it. */
  lemma PlacesCount(cells: seq<nat>, orders: seq<nat>, groups: seq<seq<nat>>, c: nat)
    requires Places(cells, orders, groups) && c < |groups|
    ensures Count(cells, c) == |groups[c]|
  {
    hide IsFilled, HasPlace;
    var g := groups[c];
    forall r | 0 <= r < |g| ensures g[r] < |cells| && cells[g[r]] == c && orders[g[r]] == r {
      FilledIs(cells, orders, groups, c, r);
    }
    NoDupCardinality(g);
    CountIsSize(cells, c);
    forall i | i in Naming(cells, c) ensures i in ToSet(g) {
      PlaceIs(cells, orders, groups, i);
    }
    assert ToSet(g) == Naming(cells, c);
  }

  lemma FilledIs(cells: seq<nat>, orders: seq<nat>, groups: seq<seq<nat>>, c: nat, r: nat)
    requires Places(cells, orders, groups) && c < |groups| && r < |groups[c]|
    ensures groups[c][r] < |cells| && cells[groups[c][r]] == c && orders[groups[c][r]] == r
  {
    assert IsFilled(cells, orders, groups, c, r);
  }

  lemma PlaceIs(cells: seq<nat>, orders: seq<nat>, groups: seq<seq<nat>>, i: nat)
    requires Places(cells, orders, groups) && i < |cells|
    ensures cells[i] < |groups| && orders[i] < |groups[cells[i]]| && groups[cells[i]][orders[i]] == i
  {
    assert HasPlace(cells, orders, groups, i);
  }

  /** Where the nodes go in the flat member array. */
  function Positions(cells: seq<nat>, orders: seq<nat>, counts: seq<nat>): (positions: seq<nat>)
    requires |cells| == |orders| && forall i :: 0 <= i < |cells| ==> cells[i] < |counts|
    ensures |positions| == |cells|
    ensures forall i :: 0 <= i < |cells| ==> positions[i] == Before(counts, cells[i]) + orders[i]
  {
    seq(|cells|, i requires 0 <= i < |cells| => Before(counts, cells[i]) + orders[i])
  }

  /** Everything the regrouping checks before it scatters. */
  ghost predicate InBounds(cells: seq<nat>, orders: seq<nat>, cellCount: nat) {
    && |cells| > 0 && |cells| == |orders|
    && (forall i :: 0 <= i < |cells| ==> cells[i] < cellCount && orders[i] < Count(cells, cells[i]))
    && (forall c :: 0 <= c < cellCount ==> Count(cells, c) > 0)
  }

  lemma DescribedInBounds(cells: seq<nat>, orders: seq<nat>, cellCount: nat, groups: seq<seq<nat>>)
    requires Describes(cells, orders, cellCount, groups)
    ensures InBounds(cells, orders, cellCount)
    ensures NoDup(Positions(cells, orders, Counts(cells, cellCount)))
  {
    hide Count, IsFilled, Before;
    var counts := Counts(cells, cellCount);
    forall c | 0 <= c < cellCount ensures Count(cells, c) == |groups[c]| {
      PlacesCount(cells, orders, groups, c);
    }
    forall i | 0 <= i < |cells| ensures cells[i] < cellCount && orders[i] < Count(cells, cells[i]) {
      assert HasPlace(cells, orders, groups, i);
    }
    var positions := Positions(cells, orders, counts);
    forall i, j | 0 <= i < j < |cells| ensures positions[i] != positions[j] {
      assert HasPlace(cells, orders, groups, i) && HasPlace(cells, orders, groups, j);
      if positions[i] == positions[j] {
        SlotUnique(counts, cells[i], orders[i], cells[j], orders[j]);
      }
    }
  }

  lemma PositionsInRange(cells: seq<nat>, orders: seq<nat>, cellCount: nat)
    requires InBounds(cells, orders, cellCount)
    ensures Before(Counts(cells, cellCount), cellCount) == |cells|
    ensures var positions := Positions(cells, orders, Counts(cells, cellCount));
      forall i :: 0 <= i < |positions| ==> positions[i] < |positions|
  {
    CountsTotal(cells, cellCount);
    forall i | 0 <= i < |cells| ensures Positions(cells, orders, Counts(cells, cellCount))[i] < |cells| {
      SlotInRange(Counts(cells, cellCount), cells[i], orders[i]);
    }
  }

  lemma MemberFills(cells: seq<nat>, orders: seq<nat>, cellCount: nat, members: seq<nat>, c: nat, r: nat)
    requires InBounds(cells, orders, cellCount) && |members| == |cells| && c < cellCount && r < Count(cells, c)
    requires Before(Counts(cells, cellCount), cellCount) == |members|
    requires var positions := Positions(cells, orders, Counts(cells, cellCount));
      Scattered(positions, |positions|, members) && INVALID_ID !in members
    ensures IsFilled(cells, orders, Slices(members, Counts(cells, cellCount)), c, r)
  {
    hide Scattered, Count, Before, Slices, Positions;
    var counts := Counts(cells, cellCount);
    var positions := Positions(cells, orders, counts);
    PositionsInRange(cells, orders, cellCount);
    SlicesFit(counts);
    var p := Before(counts, c) + r;
    SlotInRange(counts, c, r);
    ScatterInverts(positions, members, p);
    var i := members[p];
    SlotUnique(counts, c, r, cells[i], orders[i]);
    assert Slices(members, counts)[c][r] == i;
  }

  lemma MemberHasPlace(cells: seq<nat>, orders: seq<nat>, cellCount: nat, members: seq<nat>, i: nat)
    requires InBounds(cells, orders, cellCount) && |members| == |cells| && i < |cells|
    requires Before(Counts(cells, cellCount), cellCount) == |members|
    requires var positions := Positions(cells, orders, Counts(cells, cellCount));
      Scattered(positions, |positions|, members) && INVALID_ID !in members
    ensures HasPlace(cells, orders, Slices(members, Counts(cells, cellCount)), i)
  {
    hide Scattered, Count, Before, Slices, Positions;
    var counts := Counts(cells, cellCount);
    PositionsInRange(cells, orders, cellCount);
    SlicesFit(counts);
    ScatterInverts(Positions(cells, orders, counts), members, i);
    assert Slices(members, counts)[cells[i]][orders[i]] == members[Before(counts, cells[i]) + orders[i]];
  }

  /** Cutting the inverse of the positions gives groups that the arrays describe. */
  lemma RegroupDescribes(cells: seq<nat>, orders: seq<nat>, cellCount: nat, members: seq<nat>)
    requires InBounds(cells, orders, cellCount) && |members| == |cells|
    requires var positions := Positions(cells, orders, Counts(cells, cellCount));
      Scattered(positions, |positions|, members) && INVALID_ID !in members
    ensures Before(Counts(cells, cellCount), cellCount) == |members|
    ensures Describes(cells, orders, cellCount, Slices(members, Counts(cells, cellCount)))
  {
    hide Scattered, Count, Before, Slices, Positions, HasPlace, IsFilled;
    PositionsInRange(cells, orders, cellCount);
    var groups := Slices(members, Counts(cells, cellCount));
    forall i | 0 <= i < |cells| ensures HasPlace(cells, orders, groups, i) {
      MemberHasPlace(cells, orders, cellCount, members, i);
    }
    forall c, r | 0 <= c < |groups| && 0 <= r < |groups[c]| ensures IsFilled(cells, orders, groups, c, r) {
      MemberFills(cells, orders, cellCount, members, c, r);
    }
  }

  /** Regroup (Cell, order) arrays; accepted exactly when they describe a partition, which is returned. */
  method GroupsFromArrays(cells: seq<nat>, orders: seq<nat>, cellCount: nat) returns (r: Result<seq<seq<nat>>, Error>)
    requires |cells| <= INVALID_ID
    ensures r.Ok? <==> exists groups :: Describes(cells, orders, cellCount, groups)
    ensures r.Ok? ==> Describes(cells, orders, cellCount, r.value)
  {
    hide Describes, Scattered;
    forall groups | Describes(cells, orders, cellCount, groups)
      ensures InBounds(cells, orders, cellCount) && NoDup(Positions(cells, orders, Counts(cells, cellCount)))
    {
      DescribedInBounds(cells, orders, cellCount, groups);
    }
    var n := |cells|;
    if n == 0 || n != |orders| {
      return Err(ProfileError);
    }
    for i := 0 to n
      invariant forall k :: 0 <= k < i ==> cells[k] < cellCount
    {
      if cells[i] >= cellCount {
        return Err(ProfileError);
      }
    }
    var counts := BinCount(cells, cellCount);
    for c := 0 to cellCount
      invariant forall k :: 0 <= k < c ==> counts[k] > 0
    {
      if counts[c] == 0 {
        return Err(ProfileError);
      }
    }
    for i := 0 to n
      invariant forall k :: 0 <= k < i ==> orders[k] < counts[cells[k]]
    {
      if orders[i] >= counts[cells[i]] {
        return Err(ProfileError);
      }
    }
    assert InBounds(cells, orders, cellCount);
    var offsets := CumulativeSum(counts);
    var positions := seq(n, i requires 0 <= i < n => offsets[cells[i]] + orders[i]);
    assert positions == Positions(cells, orders, counts);
    PositionsInRange(cells, orders, cellCount);
    var scattered := Scatter(positions);
    var members := scattered[..];
    if INVALID_ID in members {
      return Err(ProfileError);
    }
    RegroupDescribes(cells, orders, cellCount, members);
    return Ok(Slices(members, counts));
  }

  /** Records in canonical node order are regrouped; any others are refused. */
  method ReadAssignment(records: seq<Record>, pointCount: nat, cellCount: nat) returns (r: Result<seq<seq<nat>>, Error>)
    requires pointCount <= INVALID_ID
    ensures r.Ok? <==>
      && |records| == pointCount && (forall i :: 0 <= i < pointCount ==> records[i].node == i)
      && exists groups :: Describes(Cells(records), Orders(records), cellCount, groups)
    ensures r.Ok? ==> Describes(Cells(records), Orders(records), cellCount, r.value)
  {
    hide Describes;
    if |records| != pointCount {
      return Err(ProfileError);
    }
    for i := 0 to pointCount
      invariant forall k :: 0 <= k < i ==> records[k].node == k
    {
      if records[i].node != i {
        return Err(ProfileError);
      }
    }
    r := GroupsFromArrays(Cells(records), Orders(records), cellCount);
  }

  /** Writing an order and reading it back gives its Cells again, exactly when no Cell is empty. */
  method WriteThenRead(ordered: seq<nat>, sizes: seq<nat>, communities: seq<nat>)
    returns (r: Result<seq<seq<nat>>, Error>)
    requires |ordered| <= INVALID_ID
    ensures r.Ok? <==> CanWrite(ordered, sizes, communities) && forall c :: 0 <= c < |sizes| ==> sizes[c] > 0
    ensures r.Ok? ==> r.value == Slices(ordered, sizes)
  {
    hide Places, HasPlace, IsFilled, Before, IsPermutation, Cells, Orders, Slices;
    var written := WriteAssignment(ordered, sizes, communities);
    if written.Err? {
      return Err(written.error);
    }
    r := ReadAssignment(written.value, |ordered|, |sizes|);
    ghost var cells, orders, groups := Cells(written.value), Orders(written.value), Slices(ordered, sizes);
    if forall c :: 0 <= c < |sizes| ==> sizes[c] > 0 {
      assert Describes(cells, orders, |sizes|, groups);
    }
    if r.Ok? {
      PlacesUnique(cells, orders, r.value, groups);
      assert forall c :: 0 <= c < |sizes| ==> |r.value[c]| == sizes[c];
    }
  }

  // ---------- The order itself ----------

  function Concat(groups: seq<seq<nat>>): seq<nat> {
    if |groups| == 0 then [] else Concat(groups[..|groups| - 1]) + groups[|groups| - 1]
  }

  /** Putting the groups one after another gives back the order they were cut from. */
  lemma {:induction false} ConcatSlices(ordered: seq<nat>, sizes: seq<nat>, n: nat)
    requires Before(sizes, |sizes|) == |ordered| && n <= |sizes|
    ensures Before(sizes, n) <= |ordered|
    ensures Concat(Slices(ordered, sizes)[..n]) == ordered[..Before(sizes, n)]
  {
    hide Before, Concat;
    SlicesFit(sizes);
    BeforeStep(sizes, n);
    if n > 0 {
      ConcatSlices(ordered, sizes, n - 1);
      ConcatStep(Slices(ordered, sizes), n - 1);
      var b := Before(sizes, n - 1);
      assert ordered[..b] + ordered[b..b + sizes[n - 1]] == ordered[..b + sizes[n - 1]];
    } else {
      ConcatNone(Slices(ordered, sizes));
    }
  }

  lemma ConcatNone(groups: seq<seq<nat>>)
    ensures Concat(groups[..0]) == []
  {
  }

  lemma BeforeStep(sizes: seq<nat>, n: nat)
    requires n <= |sizes|
    ensures Before(sizes, n) == if n == 0 then 0 else Before(sizes, n - 1) + sizes[n - 1]
  {
  }

  lemma ConcatStep(groups: seq<seq<nat>>, n: nat)
    requires n < |groups|
    ensures Concat(groups[..n + 1]) == Concat(groups[..n]) + groups[n]
  {
    assert groups[..n + 1][..n] == groups[..n];
  }

  /** In a described partition each group holds its nodes in the order their records say, 0, 1, 2, ... */
  lemma DescribedOrders(cells: seq<nat>, orders: seq<nat>, cellCount: nat, groups: seq<seq<nat>>, c: nat, r: nat)
    requires Describes(cells, orders, cellCount, groups) && c < cellCount
    ensures |groups[c]| == Count(cells, c)
    ensures r < Count(cells, c) <==> exists i :: 0 <= i < |cells| && cells[i] == c && orders[i] == r
  {
    PlacesCount(cells, orders, groups, c);
    if r < |groups[c]| {
      FilledIs(cells, orders, groups, c, r);
    }
    if i :| 0 <= i < |cells| && cells[i] == c && orders[i] == r {
      PlaceIs(cells, orders, groups, i);
    }
  }
}
