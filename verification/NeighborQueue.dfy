/**
  The bounded candidate queue of include/index/neighbor.h: an array of neighbours in
  increasing (distance, id) order with a cursor at the first one not yet expanded.
 */
module NeighborQueue {
  import opened Common

  datatype Neighbor = Neighbor(id: int, dist: real, expanded: bool)

  /** The order of the queue; ids break ties between equal distances. */
  predicate Less(a: Neighbor, b: Neighbor) {
    a.dist < b.dist || (a.dist == b.dist && a.id < b.id)
  }

  ghost predicate Sorted(q: seq<Neighbor>) {
    forall i, j :: 0 <= i < j < |q| ==> Less(q[i], q[j])
  }

  function InsertAt(q: seq<Neighbor>, i: nat, x: Neighbor): (r: seq<Neighbor>)
    requires i <= |q|
    ensures |r| == |q| + 1
    ensures forall j :: 0 <= j < i ==> r[j] == q[j]
    ensures r[i] == x
    ensures forall j :: i < j <= |q| ==> r[j] == q[j - 1]
  {
    q[..i] + [x] + q[i..]
  }

  function Take(q: seq<Neighbor>, n: nat): seq<Neighbor> {
    if |q| <= n then q else q[..n]
  }

  /** The binary search of `insert`: the place for `x`, or `None` when a probe meets its id. */
  function Search(q: seq<Neighbor>, x: Neighbor, lo: nat, hi: nat): (r: Option<nat>)
    requires lo <= hi <= |q|
    ensures r.Some? ==> lo <= r.value <= hi
    decreases hi - lo
  {
    if lo == hi then Some(lo)
    else
      var mid := (lo + hi) / 2;
      if Less(x, q[mid]) then Search(q, x, lo, mid)
      else if q[mid].id == x.id then None
      else Search(q, x, mid + 1, hi)
  }

  /** The queue after `insert`; the position is `None` when the item is dropped. */
  function Placed(q: seq<Neighbor>, capacity: nat, x: Neighbor): (r: Option<nat>)
    requires capacity > 0
    ensures r.Some? ==> r.value <= |q|
  {
    if |q| == capacity && Less(q[|q| - 1], x) then None else Search(q, x, 0, |q|)
  }

  function Inserted(q: seq<Neighbor>, capacity: nat, x: Neighbor): (r: seq<Neighbor>)
    requires capacity > 0
    ensures |q| <= capacity ==> |r| <= capacity
  {
    match Placed(q, capacity, x)
    case None => q
    case Some(i) => Take(InsertAt(q, i, Neighbor(x.id, x.dist, false)), capacity)
  }

  function CursorAfterInsert(q: seq<Neighbor>, capacity: nat, cur: nat, x: Neighbor): nat
    requires capacity > 0
  {
    match Placed(q, capacity, x)
    case None => cur
    case Some(i) => if i < cur then i else cur
  }

  /** The first unexpanded position at or after `i`. */
  function NextUnexpanded(q: seq<Neighbor>, i: nat): (r: nat)
    requires i <= |q|
    ensures i <= r <= |q|
    ensures forall j :: i <= j < r ==> q[j].expanded
    ensures r < |q| ==> !q[r].expanded
    decreases |q| - i
  {
    if i == |q| || !q[i].expanded then i else NextUnexpanded(q, i + 1)
  }

  function Expand(q: seq<Neighbor>, i: nat): seq<Neighbor>
    requires i < |q|
  {
    q[i := q[i].(expanded := true)]
  }

  /** What the header's comment promises after every operation. */
  ghost predicate CursorAtFirstUnexpanded(q: seq<Neighbor>, cur: nat) {
    && cur <= |q|
    && (forall i :: 0 <= i < cur ==> q[i].expanded)
    && (cur < |q| ==> !q[cur].expanded)
  }

  // ---------- Searching a sorted queue ----------

  /** The place the search returns is the sorted one, whatever distance the id is queued at. */
  lemma {:induction false} SearchFits(q: seq<Neighbor>, x: Neighbor, lo: nat, hi: nat)
    requires Sorted(q) && lo <= hi <= |q|
    requires forall i :: 0 <= i < lo ==> Less(q[i], x)
    requires forall i :: hi <= i < |q| ==> Less(x, q[i])
    ensures match Search(q, x, lo, hi)
      case None => Queued(q, x.id)
      case Some(k) => Fits(q, x, k)
    decreases hi - lo
  {
    if lo < hi {
      var mid := (lo + hi) / 2;
      if Less(x, q[mid]) {
        SearchFits(q, x, lo, mid);
      } else if q[mid].id != x.id {
        assert Less(q[mid], x);
        SearchFits(q, x, mid + 1, hi);
      }
    }
  }

  lemma PlacedInCapacity(q: seq<Neighbor>, capacity: nat, x: Neighbor)
    requires capacity > 0 && |q| <= capacity && Sorted(q)
    ensures match Placed(q, capacity, x)
      case None => Queued(q, x.id) || (|q| == capacity && Less(q[|q| - 1], x))
      case Some(k) => k < capacity && Fits(q, x, k)
  {
    SearchFits(q, x, 0, |q|);
    if Search(q, x, 0, |q|) == Some(|q|) && |q| == capacity {
      assert Less(q[|q| - 1], x);
    }
  }

  /** With an id at one distance only, the search finds the id or the one sorted place for it. */
  lemma {:induction false} SearchIsSorted(q: seq<Neighbor>, x: Neighbor, lo: nat, hi: nat)
    requires Sorted(q) && lo <= hi <= |q|
    requires forall i :: 0 <= i < |q| && q[i].id == x.id ==> q[i].dist == x.dist
    requires forall i :: 0 <= i < lo ==> Less(q[i], x)
    requires forall i :: hi <= i < |q| ==> Less(x, q[i])
    ensures var r := Search(q, x, lo, hi);
      && (r.None? <==> exists i :: 0 <= i < |q| && q[i].id == x.id)
      && (r.Some? ==> (forall i :: 0 <= i < r.value ==> Less(q[i], x)) && (forall i :: r.value <= i < |q| ==> Less(x, q[i])))
    decreases hi - lo
  {
    if lo < hi {
      var mid := (lo + hi) / 2;
      if Less(x, q[mid]) {
        SearchIsSorted(q, x, lo, mid);
      } else if q[mid].id != x.id {
        assert Less(q[mid], x);
        SearchIsSorted(q, x, mid + 1, hi);
      }
    }
  }

  /** The first position whose entry is not before `x`. */
  function SortedPlace(q: seq<Neighbor>, x: Neighbor): (k: nat)
    ensures k <= |q|
    ensures forall i :: 0 <= i < k ==> Less(q[i], x)
    ensures k < |q| ==> !Less(q[k], x)
  {
    if |q| == 0 || !Less(q[0], x) then 0 else 1 + SortedPlace(q[1..], x)
  }

  /** A binary search of `lo..hi` that ends at `k` looks at position `p`. */
  predicate Probes(lo: nat, hi: nat, k: nat, p: nat)
    requires lo <= hi
    decreases hi - lo
  {
    lo < hi &&
    var mid := (lo + hi) / 2;
    mid == p || if k <= mid then Probes(lo, mid, k, p) else Probes(mid + 1, hi, k, p)
  }

  ghost predicate Twice(q: seq<Neighbor>, id: int) {
    exists i, j :: 0 <= i < j < |q| && q[i].id == q[j].id == id
  }

  ghost predicate UniqueIds(q: seq<Neighbor>) {
    forall i, j :: 0 <= i < j < |q| ==> q[i].id != q[j].id
  }

  lemma {:induction false} SearchMeets(q: seq<Neighbor>, x: Neighbor, p: nat, k: nat, lo: nat, hi: nat)
    requires UniqueIds(q) && p < |q| && q[p].id == x.id && Fits(q, x, k) && lo <= k <= hi <= |q|
    ensures Search(q, x, lo, hi) == if p < k && Probes(lo, hi, k, p) then None else Some(k)
    decreases hi - lo
  {
    if lo < hi {
      var mid := (lo + hi) / 2;
      if k <= mid {
        assert Less(x, q[mid]);
        SearchMeets(q, x, p, k, lo, mid);
      } else if mid != p {
        SearchMeets(q, x, p, k, mid + 1, hi);
      }
    }
  }

  /**
    When `insert` queues an id twice. A queued id that comes back nearer is queued again unless
    the old entry falls off a full queue; one that comes back farther is queued again unless it
    belongs behind a full queue or the binary search happens to look at the old entry.
   */
  lemma ReinsertDuplicatesIff(q: seq<Neighbor>, capacity: nat, x: Neighbor, p: nat)
    requires capacity > 0 && |q| <= capacity && Sorted(q) && UniqueIds(q)
    requires p < |q| && q[p].id == x.id && q[p].dist != x.dist
    ensures var k, full := SortedPlace(q, x), |q| == capacity;
      Twice(Inserted(q, capacity, x), x.id) <==>
        if x.dist < q[p].dist then !(full && p == |q| - 1)
        else !(full && k == |q|) && !Probes(0, |q|, k, p)
  {
    hide SortedPlace, Search, Probes, Inserted, Twice, PutIn, UniqueIds, Sorted, Fits;
    var k := SortedPlace(q, x);
    SortedPlaceFits(q, x, p);
    SearchMeets(q, x, p, k, 0, |q|);
    InsertIgnoresFlag(q, capacity, x);
    if Placed(q, capacity, x).Some? {
      PlacedInCapacity(q, capacity, x);
      InsertedPutsIn(q, capacity, Neighbor(x.id, x.dist, false));
      TwiceAfterPut(q, Inserted(q, capacity, x), Neighbor(x.id, x.dist, false), p, k, capacity);
    } else {
      NotPlacedUnchanged(q, capacity, x);
      UniqueIsNotTwice(q, x.id);
    }
  }

  lemma SortedPlaceFits(q: seq<Neighbor>, x: Neighbor, p: nat)
    requires Sorted(q) && UniqueIds(q) && p < |q| && q[p].id == x.id && q[p].dist != x.dist
    ensures Fits(q, x, SortedPlace(q, x)) && (p < SortedPlace(q, x) <==> q[p].dist < x.dist)
    ensures SortedPlace(q, x) == |q| <==> Less(q[|q| - 1], x)
  {
    var k := SortedPlace(q, x);
    hide SortedPlace;
    if k < |q| {
      assert Less(x, q[k]);
    }
    forall i | k < i < |q| ensures Less(x, q[i]) {
      assert Less(q[k], q[i]);
    }
  }

  lemma TwiceAfterPut(q: seq<Neighbor>, r: seq<Neighbor>, y: Neighbor, p: nat, k: nat, capacity: nat)
    requires UniqueIds(q) && p < |q| && q[p].id == y.id && PutIn(q, r, y, k, capacity)
    ensures Twice(r, y.id) <==> p < k || !(|q| == capacity && p == |q| - 1)
  {
    var was := if p < k then p else p + 1;
    assert r[k].id == y.id;
    if was < |r| {
      assert r[was] == q[p];
    }
    forall i | 0 <= i < |r| && i != k && i != was ensures r[i].id != y.id {
      assert r[i] == q[if i < k then i else i - 1];
    }
  }

  lemma UniqueIsNotTwice(q: seq<Neighbor>, id: int)
    requires UniqueIds(q)
    ensures !Twice(q, id)
  {
  }

  /** An id that comes back at another distance can be queued twice. */
  lemma InconsistentDistanceDuplicates(q: seq<Neighbor>, x: Neighbor)
    requires q == [Neighbor(1, 1.0, false), Neighbor(2, 2.0, false), Neighbor(3, 3.0, false)]
    requires x == Neighbor(1, 2.5, false)
    ensures Sorted(q)
    ensures var r := Inserted(q, 4, x);
      |r| == 4 && r[0].id == 1 && r[2].id == 1
  {
    assert Search(q, x, 0, 3) == Search(q, x, 2, 3) == Search(q, x, 2, 2);
  }

  // ---------- Runs since the last clear ----------

  /** `seen` is every id inserted, with its distance; `handed` is every id returned for expansion. */
  datatype Run = Run(q: seq<Neighbor>, cur: nat, seen: map<int, real>, handed: set<int>)

  datatype Op = Insert(id: int, dist: real) | Next

  function Empty(): Run {
    Run([], 0, map[], {})
  }

  /** An id carries one distance, and `closest_unexpanded` is called only when there is one. */
  predicate Allowed(s: Run, op: Op) {
    match op
    case Insert(id, dist) => id in s.seen ==> s.seen[id] == dist
    case Next => s.cur < |s.q|
  }

  function Do(s: Run, capacity: nat, op: Op): Run
    requires capacity > 0 && Allowed(s, op) && s.cur <= |s.q|
  {
    match op
    case Insert(id, dist) =>
      var x := Neighbor(id, dist, false);
      s.(q := Inserted(s.q, capacity, x), cur := CursorAfterInsert(s.q, capacity, s.cur, x), seen := s.seen[id := dist])
    case Next =>
      var q := Expand(s.q, s.cur);
      s.(q := q, cur := NextUnexpanded(q, s.cur), handed := s.handed + {s.q[s.cur].id})
  }

  ghost predicate Queued(q: seq<Neighbor>, id: int) {
    exists i :: 0 <= i < |q| && q[i].id == id
  }

  /** `q` is the `capacity` smallest of `seen`: what is missing lies behind a full queue. */
  ghost predicate SmallestOf(q: seq<Neighbor>, capacity: nat, seen: map<int, real>) {
    && Sorted(q) && |q| <= capacity
    && (forall i :: 0 <= i < |q| ==> q[i].id in seen && q[i].dist == seen[q[i].id])
    && (forall id :: id in seen && !Queued(q, id) ==>
          |q| == capacity && forall i :: 0 <= i < |q| ==> Less(q[i], Neighbor(id, seen[id], false)))
  }

  ghost predicate Inv(s: Run, capacity: nat) {
    && SmallestOf(s.q, capacity, s.seen)
    && CursorAtFirstUnexpanded(s.q, s.cur)
    && (forall i :: 0 <= i < |s.q| ==> (s.q[i].expanded <==> s.q[i].id in s.handed))
    && (forall id :: id in s.handed ==> id in s.seen)
  }

  /** `x` belongs at position `k` of the sorted queue `q`. */
  ghost predicate Fits(q: seq<Neighbor>, x: Neighbor, k: nat) {
    && k <= |q|
    && (forall i :: 0 <= i < k ==> Less(q[i], x))
    && (forall i :: k <= i < |q| ==> Less(x, q[i]))
  }

  lemma LastIsGreatest(q: seq<Neighbor>, x: Neighbor)
    requires Sorted(q) && |q| > 0 && Less(q[|q| - 1], x)
    ensures forall i :: 0 <= i < |q| ==> Less(q[i], x)
  {
    forall i | 0 <= i < |q| ensures Less(q[i], x) {
      if i < |q| - 1 {
        assert Less(q[i], q[|q| - 1]);
      }
    }
  }

  /** Where `insert` puts an item whose id, if queued, has the same distance. */
  lemma PlacedFits(q: seq<Neighbor>, capacity: nat, x: Neighbor)
    requires capacity > 0 && |q| <= capacity && Sorted(q)
    requires forall i :: 0 <= i < |q| && q[i].id == x.id ==> q[i].dist == x.dist
    ensures match Placed(q, capacity, x)
      case None => Queued(q, x.id) || (|q| == capacity && Less(q[|q| - 1], x))
      case Some(k) => k < capacity && Fits(q, x, k) && !Queued(q, x.id)
  {
    SearchIsSorted(q, x, 0, |q|);
  }

  /** What `insert` does to a queue that is the smallest of what was seen. */
  lemma PlacedMeaning(q: seq<Neighbor>, capacity: nat, seen: map<int, real>, x: Neighbor)
    requires capacity > 0 && SmallestOf(q, capacity, seen)
    requires x.id in seen ==> seen[x.id] == x.dist
    ensures match Placed(q, capacity, x)
      case None => Queued(q, x.id) || (|q| == capacity && forall i :: 0 <= i < |q| ==> Less(q[i], x))
      case Some(k) => x.id !in seen && k < capacity && Fits(q, x, k)
  {
    if |q| == capacity && Less(q[|q| - 1], x) {
      LastIsGreatest(q, x);
    } else {
      SearchIsSorted(q, x, 0, |q|);
    }
  }

  lemma InsertKeepsSmallest(q: seq<Neighbor>, capacity: nat, seen: map<int, real>, x: Neighbor)
    requires capacity > 0 && SmallestOf(q, capacity, seen) && !x.expanded
    requires x.id in seen ==> seen[x.id] == x.dist
    ensures SmallestOf(Inserted(q, capacity, x), capacity, seen[x.id := x.dist])
  {
    PlacedMeaning(q, capacity, seen, x);
    match Placed(q, capacity, x)
    case None => DroppedKeepsSmallest(q, capacity, seen, x);
    case Some(k) =>
      InsertedPutsIn(q, capacity, x);
      PlacedKeepsSmallest(q, Inserted(q, capacity, x), capacity, seen, x, k);
  }

  lemma DroppedKeepsSmallest(q: seq<Neighbor>, capacity: nat, seen: map<int, real>, x: Neighbor)
    requires SmallestOf(q, capacity, seen) && !x.expanded
    requires x.id in seen ==> seen[x.id] == x.dist
    requires Queued(q, x.id) || (|q| == capacity && forall i :: 0 <= i < |q| ==> Less(q[i], x))
    ensures SmallestOf(q, capacity, seen[x.id := x.dist])
  {
  }

  /** `r` is `q` with `x` put in at position `k` and what no longer fits cut off. */
  ghost predicate PutIn(q: seq<Neighbor>, r: seq<Neighbor>, x: Neighbor, k: nat, capacity: nat) {
    && k <= |q| <= capacity && k < capacity
    && |r| == (if |q| < capacity then |q| + 1 else capacity)
    && (forall i :: 0 <= i < k ==> r[i] == q[i])
    && r[k] == x
    && (forall i :: k < i < |r| ==> r[i] == q[i - 1])
  }

  lemma InsertedPutsIn(q: seq<Neighbor>, capacity: nat, x: Neighbor)
    requires capacity > 0 && |q| <= capacity && !x.expanded
    requires Placed(q, capacity, x).Some? && Placed(q, capacity, x).value < capacity
    ensures PutIn(q, Inserted(q, capacity, x), x, Placed(q, capacity, x).value, capacity)
  {
  }

  lemma FitsIgnoresFlag(q: seq<Neighbor>, x: Neighbor, k: nat)
    requires Fits(q, x, k)
    ensures Fits(q, Neighbor(x.id, x.dist, false), k)
  {
  }

  lemma PutInUnique(q: seq<Neighbor>, a: seq<Neighbor>, b: seq<Neighbor>, x: Neighbor, k: nat, capacity: nat)
    requires PutIn(q, a, x, k, capacity) && PutIn(q, b, x, k, capacity)
    ensures a == b
  {
    assert forall i :: 0 <= i < |a| ==> a[i] == b[i];
  }

  lemma PutInSorted(q: seq<Neighbor>, r: seq<Neighbor>, x: Neighbor, k: nat, capacity: nat)
    requires Sorted(q) && Fits(q, x, k) && PutIn(q, r, x, k, capacity)
    ensures Sorted(r)
  {
    forall i, j | 0 <= i < j < |r| ensures Less(r[i], r[j]) {
      if i != k && j != k {
        assert Less(q[if i < k then i else i - 1], q[if j < k then j else j - 1]);
      }
    }
  }

  /** What is missing after the insertion lies behind everything that stayed. */
  lemma MissingIsBehind(q: seq<Neighbor>, r: seq<Neighbor>, capacity: nat, seen: map<int, real>, x: Neighbor, k: nat,
                        id: int)
    requires SmallestOf(q, capacity, seen) && Fits(q, x, k) && x.id !in seen && PutIn(q, r, x, k, capacity)
    requires id in seen && !Queued(r, id)
    ensures |r| == capacity && forall i :: 0 <= i < |r| ==> Less(r[i], Neighbor(id, seen[id], false))
  {
    var y := Neighbor(id, seen[id], false);
    forall i | 0 <= i < |q| && i + 1 < |r| ensures Queued(r, q[i].id) {
      assert r[if i < k then i else i + 1] == q[i];
    }
    if Queued(q, id) {
      var i :| 0 <= i < |q| && q[i].id == id;
      assert i == capacity - 1;
      forall j | 0 <= j < |r| ensures Less(r[j], y) {
        assert Less(if j < k then q[j] else if j == k then x else q[j - 1], q[i]);
      }
    } else {
      forall j | 0 <= j < |r| ensures Less(r[j], y) {
        if j == k {
          assert Less(x, q[k]) && Less(q[k], y);
        } else {
          assert Less(q[if j < k then j else j - 1], y);
        }
      }
    }
  }

  lemma PlacedKeepsSmallest(q: seq<Neighbor>, r: seq<Neighbor>, capacity: nat, seen: map<int, real>, x: Neighbor,
                            k: nat)
    requires SmallestOf(q, capacity, seen) && Fits(q, x, k) && x.id !in seen && PutIn(q, r, x, k, capacity)
    ensures SmallestOf(r, capacity, seen[x.id := x.dist])
  {
    var seen' := seen[x.id := x.dist];
    PutInSorted(q, r, x, k, capacity);
    forall id | id in seen' && !Queued(r, id)
      ensures |r| == capacity && forall i :: 0 <= i < |r| ==> Less(r[i], Neighbor(id, seen'[id], false))
    {
      assert r[k].id == x.id;
      MissingIsBehind(q, r, capacity, seen, x, k, id);
    }
  }

  lemma InsertKeepsInv(s: Run, capacity: nat, id: int, dist: real)
    requires capacity > 0 && Inv(s, capacity) && Allowed(s, Insert(id, dist))
    ensures Inv(Do(s, capacity, Insert(id, dist)), capacity)
  {
    hide SmallestOf, Inserted;
    var x := Neighbor(id, dist, false);
    InsertKeepsSmallest(s.q, capacity, s.seen, x);
    SmallestFits(s.q, capacity, s.seen);
    PlacedMeaning(s.q, capacity, s.seen, x);
    if Placed(s.q, capacity, x).Some? {
      InsertedPutsIn(s.q, capacity, x);
    } else {
      assert Inserted(s.q, capacity, x) == s.q by { NotPlacedUnchanged(s.q, capacity, x); }
    }
  }

  lemma NotPlacedUnchanged(q: seq<Neighbor>, capacity: nat, x: Neighbor)
    requires capacity > 0 && Placed(q, capacity, x).None?
    ensures Inserted(q, capacity, x) == q
  {
  }

  lemma SmallestFits(q: seq<Neighbor>, capacity: nat, seen: map<int, real>)
    requires SmallestOf(q, capacity, seen)
    ensures |q| <= capacity && forall i :: 0 <= i < |q| ==> q[i].id in seen
  {
  }

  lemma ExpandKeepsSmallest(q: seq<Neighbor>, capacity: nat, seen: map<int, real>, k: nat)
    requires SmallestOf(q, capacity, seen) && k < |q|
    ensures SmallestOf(Expand(q, k), capacity, seen)
  {
    var r := Expand(q, k);
    forall id | Queued(q, id) ensures Queued(r, id) {
      var i :| 0 <= i < |q| && q[i].id == id;
      assert r[i].id == id;
    }
  }

  /** The entry handed out was never handed out before, and every nearer entry already was. */
  lemma NextIsFresh(s: Run, capacity: nat)
    requires Inv(s, capacity) && Allowed(s, Next)
    ensures Inv(Do(s, capacity, Next), capacity)
    ensures s.q[s.cur].id !in s.handed
    ensures forall i :: 0 <= i < |s.q| && Less(s.q[i], s.q[s.cur]) ==> s.q[i].id in s.handed
  {
    ExpandKeepsSmallest(s.q, capacity, s.seen, s.cur);
    var t := Do(s, capacity, Next);
    forall i | 0 <= i < |s.q| && i != s.cur
      ensures s.q[i].id != s.q[s.cur].id && (i > s.cur ==> !Less(s.q[i], s.q[s.cur]))
    {
      assert if i < s.cur then Less(s.q[i], s.q[s.cur]) else Less(s.q[s.cur], s.q[i]);
    }
  }

  ghost predicate Runs(s: Run, capacity: nat, ops: seq<Op>, t: Run)
    requires capacity > 0
    decreases |ops|
  {
    if |ops| == 0 then t == s
    else Allowed(s, ops[0]) && s.cur <= |s.q| && Runs(Do(s, capacity, ops[0]), capacity, ops[1..], t)
  }

  /** After any calls since clear: the queue is the smallest of what was inserted, cursor in place. */
  lemma {:induction false} RunKeepsInv(s: Run, capacity: nat, ops: seq<Op>, t: Run)
    requires capacity > 0 && Inv(s, capacity) && Runs(s, capacity, ops, t)
    ensures Inv(t, capacity)
    decreases |ops|
  {
    hide Inv;
    if |ops| != 0 {
      match ops[0] {
        case Insert(id, dist) => InsertKeepsInv(s, capacity, id, dist);
        case Next => NextIsFresh(s, capacity);
      }
      RunKeepsInv(Do(s, capacity, ops[0]), capacity, ops[1..], t);
    }
  }

  /** The ids handed out by a run, in order. */
  function HandedOut(s: Run, capacity: nat, ops: seq<Op>): seq<int>
    requires capacity > 0
    decreases |ops|
  {
    if |ops| == 0 || !Allowed(s, ops[0]) || s.cur > |s.q| then []
    else (if ops[0].Next? then [s.q[s.cur].id] else []) + HandedOut(Do(s, capacity, ops[0]), capacity, ops[1..])
  }

  /** No id is ever handed out twice. */
  lemma {:induction false} NoIdTwice(s: Run, capacity: nat, ops: seq<Op>, t: Run)
    requires capacity > 0 && Inv(s, capacity) && Runs(s, capacity, ops, t)
    ensures NoDup(HandedOut(s, capacity, ops))
    ensures forall i :: 0 <= i < |HandedOut(s, capacity, ops)| ==> HandedOut(s, capacity, ops)[i] !in s.handed
    decreases |ops|
  {
    hide Inv;
    if |ops| != 0 {
      var u := Do(s, capacity, ops[0]);
      match ops[0] {
        case Insert(id, dist) => InsertKeepsInv(s, capacity, id, dist);
        case Next => NextIsFresh(s, capacity);
      }
      NoIdTwice(u, capacity, ops[1..], t);
    }
  }

  // ---------- Replacing a score ----------

  /** The first position that carries `id`, or `|q|`. */
  function PositionOf(q: seq<Neighbor>, id: int): (p: nat)
    ensures p <= |q|
    ensures p < |q| ==> q[p].id == id
    ensures forall i :: 0 <= i < p ==> q[i].id != id
  {
    if |q| == 0 then 0 else if q[0].id == id then 0 else 1 + PositionOf(q[1..], id)
  }

  function WithoutId(q: seq<Neighbor>, id: int): (r: seq<Neighbor>)
    ensures |r| <= |q|
  {
    var p := PositionOf(q, id);
    if p < |q| then RemoveAt(q, p) else q
  }

  function CursorWithoutId(q: seq<Neighbor>, cur: nat, id: int): nat {
    var p := PositionOf(q, id);
    if p < |q| && p < cur then cur - 1 else cur
  }

  function Updated(q: seq<Neighbor>, capacity: nat, x: Neighbor): seq<Neighbor>
    requires capacity > 0
  {
    Inserted(WithoutId(q, x.id), capacity, x)
  }

  function CursorAfterUpdate(q: seq<Neighbor>, capacity: nat, cur: nat, x: Neighbor): nat
    requires capacity > 0
  {
    CursorAfterInsert(WithoutId(q, x.id), capacity, CursorWithoutId(q, cur, x.id), x)
  }

  lemma WithoutIdSorted(q: seq<Neighbor>, x: Neighbor)
    requires Sorted(q)
    ensures Sorted(WithoutId(q, x.id))
    ensures UniqueIds(q) ==> forall i :: 0 <= i < |WithoutId(q, x.id)| ==> WithoutId(q, x.id)[i].id != x.id
  {
    var p, r := PositionOf(q, x.id), WithoutId(q, x.id);
    forall i, j | 0 <= i < j < |r| ensures Less(r[i], r[j]) {
      assert r[i] == q[if i < p then i else i + 1];
      assert r[j] == q[if j < p then j else j + 1];
    }
  }

  /** The ids in the queue with their distances. */
  function Scores(q: seq<Neighbor>): (scores: map<int, real>)
    requires UniqueIds(q)
    ensures forall id :: id in scores <==> Queued(q, id)
    ensures forall i :: 0 <= i < |q| ==> q[i].id in scores && scores[q[i].id] == q[i].dist
  {
    map i | 0 <= i < |q| :: q[i].id := q[i].dist
  }

  lemma QueueIsSmallest(q: seq<Neighbor>, capacity: nat)
    requires Sorted(q) && UniqueIds(q) && |q| <= capacity
    ensures SmallestOf(q, capacity, Scores(q))
  {
  }

  lemma WithoutIdEntries(q: seq<Neighbor>, id: int)
    requires UniqueIds(q)
    ensures UniqueIds(WithoutId(q, id)) && !Queued(WithoutId(q, id), id)
    ensures forall y :: y in WithoutId(q, id) <==> y in q && y.id != id
  {
    var p, r := PositionOf(q, id), WithoutId(q, id);
    forall i, j | 0 <= i < j < |r| ensures r[i].id != r[j].id {
      assert r[i] == q[if i < p then i else i + 1];
      assert r[j] == q[if j < p then j else j + 1];
    }
    forall y | y in r ensures y in q && y.id != id {
      var i :| 0 <= i < |r| && r[i] == y;
      assert y == q[if i < p then i else i + 1];
    }
    forall y | y in q && y.id != id ensures y in r {
      var i :| 0 <= i < |q| && q[i] == y;
      assert r[if i < p then i else i - 1] == y;
    }
  }

  /**
    After an update the queue holds the smallest of the other entries and the new one, which counts
    as unexpanded; the others stay as they were.
   */
  lemma UpdateKeepsSmallest(q: seq<Neighbor>, capacity: nat, x: Neighbor)
    requires capacity > 0 && |q| <= capacity && Sorted(q) && UniqueIds(q)
    ensures UniqueIds(WithoutId(q, x.id))
    ensures SmallestOf(Updated(q, capacity, x), capacity, Scores(WithoutId(q, x.id))[x.id := x.dist])
    ensures forall y :: y in Updated(q, capacity, x) ==>
      y == Neighbor(x.id, x.dist, false) || (y in q && y.id != x.id)
  {
    hide Inserted, Placed, WithoutId, PositionOf, Search, SmallestOf, Sorted, UniqueIds, PutIn;
    var r, y := WithoutId(q, x.id), Neighbor(x.id, x.dist, false);
    WithoutIdSorted(q, x);
    WithoutIdEntries(q, x.id);
    InsertIgnoresFlag(r, capacity, x);
    QueueIsSmallest(r, capacity);
    InsertKeepsSmallest(r, capacity, Scores(r), y);
    InsertedEntries(r, capacity, y);
  }

  lemma InsertedEntries(r: seq<Neighbor>, capacity: nat, y: Neighbor)
    requires capacity > 0 && |r| <= capacity && !y.expanded
    ensures forall z :: z in Inserted(r, capacity, y) ==> z == y || z in r
  {
    var t := Inserted(r, capacity, y);
    if Placed(r, capacity, y).Some? {
      forall z | z in t ensures z == y || z in r {
        var i :| 0 <= i < |t| && t[i] == z;
      }
    }
  }

  /** The new score moves the entry under the cursor behind a next entry that is already expanded. */
  predicate PassesExpanded(q: seq<Neighbor>, cur: nat, x: Neighbor) {
    cur + 1 < |q| && q[cur].id == x.id && q[cur + 1].expanded && Less(q[cur + 1], x)
  }

  /**
    `insert_or_update` keeps the cursor at the first unexpanded entry exactly when it does
    not move the entry under the cursor back past an entry that is already expanded.
   */
  lemma UpdateKeepsCursorIff(q: seq<Neighbor>, capacity: nat, cur: nat, x: Neighbor)
    requires capacity > 0 && |q| <= capacity && Sorted(q) && CursorAtFirstUnexpanded(q, cur)
    requires UniqueIds(q)
    ensures CursorAtFirstUnexpanded(Updated(q, capacity, x), CursorAfterUpdate(q, capacity, cur, x))
      <==> !PassesExpanded(q, cur, x)
  {
    hide Inserted, Placed, WithoutId, PositionOf, CursorAtFirstUnexpanded, PutIn, Sorted, Search;
    var r, c := WithoutId(q, x.id), CursorWithoutId(q, cur, x.id);
    var y := Neighbor(x.id, x.dist, false);
    WithoutIdSorted(q, x);
    PlacedFits(r, capacity, y);
    InsertIgnoresFlag(r, capacity, x);
    RemovedCursor(q, cur, x.id);
    RemovedPosition(q, cur, x.id);
    if Placed(r, capacity, y).Some? {
      InsertedPutsIn(r, capacity, y);
      InsertedCursor(r, Updated(q, capacity, x), capacity, c, y, Placed(r, capacity, y).value);
    } else {
      NotPlacedUnchanged(r, capacity, y);
      FullMeansAbsent(q, x.id, capacity);
    }
  }

  lemma RemovedPosition(q: seq<Neighbor>, cur: nat, id: int)
    requires UniqueIds(q)
    ensures cur < |q| ==> (PositionOf(q, id) == cur <==> q[cur].id == id)
    ensures PositionOf(q, id) == cur && cur + 1 < |q| ==>
      |WithoutId(q, id)| == |q| - 1 && WithoutId(q, id)[cur] == q[cur + 1]
  {
    hide PositionOf;
  }

  lemma UpdatePasses(capacity: nat)
    requires capacity >= 2
    ensures var q, x := [Neighbor(2, 1.0, false), Neighbor(1, 2.0, true)], Neighbor(2, 3.0, false);
      && PassesExpanded(q, 0, x)
      && Updated(q, capacity, x) == [Neighbor(1, 2.0, true), x] && CursorAfterUpdate(q, capacity, 0, x) == 0
  {
    var q, x := [Neighbor(2, 1.0, false), Neighbor(1, 2.0, true)], Neighbor(2, 3.0, false);
    var r := WithoutId(q, 2);
    assert r == [Neighbor(1, 2.0, true)];
    assert Search(r, x, 0, 1) == Search(r, x, 1, 1) == Some(1);
    assert InsertAt(r, 1, x) == [Neighbor(1, 2.0, true), x];
  }

  /**
    The header's promise fails: after `insert` 1 at 2.0, `closest_unexpanded` and `insert` 2 at 1.0,
    updating 2 to 3.0 leaves the cursor on the expanded 1, which is handed out a second time.
   */
  lemma UpdateHandsOutTwice(capacity: nat)
    requires capacity >= 2
    ensures var a := Do(Empty(), capacity, Insert(1, 2.0));
      var b := Do(a, capacity, Next);
      var s := Do(b, capacity, Insert(2, 1.0));
      var x := Neighbor(2, 3.0, false);
      var q, cur := Updated(s.q, capacity, x), CursorAfterUpdate(s.q, capacity, s.cur, x);
      && PassesExpanded(s.q, s.cur, x)
      && cur < |q| && q[cur].expanded && q[cur].id in s.handed
  {
    hide Updated, CursorAfterUpdate, PassesExpanded;
    UpdatePasses(capacity);
    var x, y := Neighbor(1, 2.0, false), Neighbor(2, 1.0, false);
    var a := Do(Empty(), capacity, Insert(1, 2.0));
    assert InsertAt([], 0, x) == [x];
    assert a == Run([x], 0, map[1 := 2.0], {});
    var b := Do(a, capacity, Next);
    assert b.q == [x.(expanded := true)] && b.cur == 1 && b.handed == {1};
    assert Search(b.q, y, 0, 1) == Search(b.q, y, 0, 0) == Some(0);
    assert InsertAt(b.q, 0, y) == [y, x.(expanded := true)];
  }

  lemma FullMeansAbsent(q: seq<Neighbor>, id: int, capacity: nat)
    requires |q| <= capacity && |WithoutId(q, id)| == capacity
    ensures WithoutId(q, id) == q && PositionOf(q, id) == |q|
  {
  }

  lemma {:induction false} SearchIgnoresFlag(q: seq<Neighbor>, x: Neighbor, y: Neighbor, lo: nat, hi: nat)
    requires lo <= hi <= |q| && y.id == x.id && y.dist == x.dist
    ensures Search(q, x, lo, hi) == Search(q, y, lo, hi)
    decreases hi - lo
  {
    if lo < hi {
      SearchIgnoresFlag(q, x, y, lo, (lo + hi) / 2);
      SearchIgnoresFlag(q, x, y, (lo + hi) / 2 + 1, hi);
    }
  }

  lemma InsertIgnoresFlag(q: seq<Neighbor>, capacity: nat, x: Neighbor)
    requires capacity > 0
    ensures Inserted(q, capacity, x) == Inserted(q, capacity, Neighbor(x.id, x.dist, false))
    ensures Placed(q, capacity, x) == Placed(q, capacity, Neighbor(x.id, x.dist, false))
  {
    SearchIgnoresFlag(q, x, Neighbor(x.id, x.dist, false), 0, |q|);
  }

  lemma RemovedCursor(q: seq<Neighbor>, cur: nat, id: int)
    requires CursorAtFirstUnexpanded(q, cur)
    ensures var r, c, p := WithoutId(q, id), CursorWithoutId(q, cur, id), PositionOf(q, id);
      && c <= |r| && (forall i :: 0 <= i < c ==> r[i].expanded)
      && (c < |r| ==> (r[c].expanded <==> p == cur && q[cur + 1].expanded))
      && (c == |r| <==> cur == |q| || (p == cur && cur + 1 == |q|))
      && (p == cur && cur < |q| ==> c == cur)
  {
    hide PositionOf;
    var r, c, p := WithoutId(q, id), CursorWithoutId(q, cur, id), PositionOf(q, id);
    if p < |q| {
      forall i | 0 <= i < c ensures r[i].expanded {
        assert r[i] == q[if i < p then i else i + 1];
      }
    }
  }

  lemma InsertedCursor(r: seq<Neighbor>, t: seq<Neighbor>, capacity: nat, c: nat, y: Neighbor, k: nat)
    requires !y.expanded && PutIn(r, t, y, k, capacity)
    requires c <= |r| && forall i :: 0 <= i < c ==> r[i].expanded
    ensures CursorAtFirstUnexpanded(t, if k < c then k else c) <==> !(k > c && r[c].expanded)
  {
    var c' := if k < c then k else c;
    assert forall i :: 0 <= i < c' ==> t[i] == r[i];
    assert t[c'] == if k > c then r[c] else y;
  }

  // ---------- The array-backed queue ----------

  class NeighborPriorityQueue {
    var data: array<Neighbor>
    var size: nat
    var capacity: nat
    var cur: nat

    ghost predicate Valid()
      reads this, data
    {
      && capacity > 0 && data.Length == capacity + 1 && size <= capacity && cur <= size
      && Sorted(Contents())
    }

    ghost function Contents(): seq<Neighbor>
      reads this, data
      requires size <= data.Length
    {
      data[..size]
    }

    constructor (cap: nat)
      requires cap > 0
      ensures Valid() && fresh(data) && capacity == cap && Contents() == [] && cur == 0
    {
      size, capacity, cur := 0, cap, 0;
      data := new Neighbor[cap + 1](_ => Neighbor(0, 0.0, false));
    }

    /** Binary search for the place of `nbr`, then shift the tail up by one. */
    method Insert(nbr: Neighbor)
      requires Valid()
      modifies this, data
      ensures Valid() && capacity == old(capacity) && data == old(data)
      ensures Contents() == Inserted(old(Contents()), capacity, nbr)
      ensures cur == CursorAfterInsert(old(Contents()), capacity, old(cur), nbr)
    {
      hide Sorted, Search, PutIn, Less, Fits, Queued;
      ghost var q := Contents();
      ghost var y := Neighbor(nbr.id, nbr.dist, false);
      PlacedInCapacity(q, capacity, nbr);
      if size == capacity && Less(data[size - 1], nbr) {
        return;
      }
      var at := Find(nbr);
      if at.None? {
        return;
      }
      InsertIgnoresFlag(q, capacity, nbr);
      FitsIgnoresFlag(q, nbr, at.value);
      PutAt(at.value, nbr);
      InsertedPutsIn(q, capacity, y);
      PutInUnique(q, Contents(), Inserted(q, capacity, y), y, at.value, capacity);
      PutInSorted(q, Contents(), y, at.value, capacity);
    }

    method Find(nbr: Neighbor) returns (at: Option<nat>)
      requires Valid()
      ensures at == Search(Contents(), nbr, 0, size)
    {
      var lo, hi := 0, size;
      while lo < hi
        invariant 0 <= lo <= hi <= size
        invariant Search(Contents(), nbr, 0, size) == Search(Contents(), nbr, lo, hi)
      {
        var mid := (lo + hi) / 2;
        if Less(nbr, data[mid]) {
          hi := mid;
        } else if data[mid].id == nbr.id {
          return None;
        } else {
          lo := mid + 1;
        }
      }
      return Some(lo);
    }

    /** Open position `lo`, write the new entry there and set the size and the cursor. */
    method PutAt(lo: nat, nbr: Neighbor)
      requires Valid() && lo <= size && lo < capacity
      modifies this, data
      ensures capacity == old(capacity) && data == old(data) && size <= capacity
      ensures cur == if lo < old(cur) then lo else old(cur)
      ensures PutIn(old(Contents()), Contents(), Neighbor(nbr.id, nbr.dist, false), lo, capacity)
    {
      hide Sorted;
      Shift(lo);
      data[lo] := Neighbor(nbr.id, nbr.dist, false);
      if size < capacity {
        size := size + 1;
      }
      if lo < cur {
        cur := lo;
      }
    }

    /** The memmove that opens position `lo`. */
    method Shift(lo: nat)
      requires lo <= size < data.Length
      modifies data
      ensures forall i :: 0 <= i < lo ==> data[i] == old(data[i])
      ensures forall i :: lo < i <= size ==> data[i] == old(data[i - 1])
    {
      var i := size;
      while i > lo
        invariant lo <= i <= size
        invariant forall j :: 0 <= j < i ==> data[j] == old(data[j])
        invariant forall j :: i < j <= size ==> data[j] == old(data[j - 1])
      {
        data[i] := data[i - 1];
        i := i - 1;
      }
    }

    /** Take the entry with the id of `nbr` out, if there is one, and insert `nbr`. */
    method InsertOrUpdate(nbr: Neighbor)
      requires Valid()
      modifies this, data
      ensures Valid() && capacity == old(capacity) && data == old(data)
      ensures Contents() == Updated(old(Contents()), capacity, nbr)
      ensures cur == CursorAfterUpdate(old(Contents()), capacity, old(cur), nbr)
    {
      hide Sorted, Inserted, CursorAfterInsert, WithoutId, CursorWithoutId;
      WithoutIdSorted(Contents(), nbr);
      TakeOut(nbr.id);
      Insert(nbr);
    }

    method TakeOut(id: int)
      requires Valid()
      modifies this, data
      ensures capacity == old(capacity) && data == old(data) && size <= old(size) && cur <= size
      ensures Contents() == WithoutId(old(Contents()), id)
      ensures cur == CursorWithoutId(old(Contents()), old(cur), id)
    {
      hide Sorted, PositionOf;
      ghost var q := Contents();
      var position := 0;
      while position < size && data[position].id != id
        invariant position <= size && forall i :: 0 <= i < position ==> q[i].id != id
      {
        position := position + 1;
      }
      assert position == PositionOf(q, id);
      if position < size {
        CloseGap(position);
        size := size - 1;
        if position < cur {
          cur := cur - 1;
        }
        assert Contents() == RemoveAt(q, position);
      }
    }

    /** The memmove that closes position `lo`. */
    method CloseGap(lo: nat)
      requires lo < size <= data.Length
      modifies data
      ensures forall i :: 0 <= i < lo ==> data[i] == old(data[i])
      ensures forall i :: lo <= i < size - 1 ==> data[i] == old(data[i + 1])
    {
      for i := lo to size - 1
        invariant forall j :: 0 <= j < lo ==> data[j] == old(data[j])
        invariant forall j :: lo <= j < i ==> data[j] == old(data[j + 1])
        invariant forall j :: i <= j < size ==> data[j] == old(data[j])
      {
        data[i] := data[i + 1];
      }
    }

    /** Mark the nearest unexpanded entry and move the cursor past everything expanded. */
    method ClosestUnexpanded() returns (nbr: Neighbor)
      requires Valid() && cur < size
      modifies this, data
      ensures Valid() && capacity == old(capacity) && data == old(data)
      ensures Contents() == Expand(old(Contents()), old(cur))
      ensures nbr == Contents()[old(cur)]
      ensures cur == NextUnexpanded(Contents(), old(cur))
    {
      ghost var q := Contents();
      data[cur] := data[cur].(expanded := true);
      assert Contents() == Expand(q, cur);
      var pre := cur;
      while cur < size && data[cur].expanded
        invariant size == old(size) && capacity == old(capacity) && data == old(data)
        invariant pre <= cur <= size && Contents() == Expand(q, pre)
        invariant NextUnexpanded(Contents(), pre) == NextUnexpanded(Contents(), cur)
        decreases size - cur
      {
        cur := cur + 1;
      }
      nbr := data[pre];
    }

    method Clear()
      requires Valid()
      modifies this
      ensures Valid() && capacity == old(capacity) && data == old(data)
      ensures Contents() == [] && cur == 0
    {
      size, cur := 0, 0;
    }
  }
}
