/**
  The conditions on build_assignments in python/train_convergence_cells.py leave no choice: there is
  one assignment that meets them.
 */
module CoAccessUnique {
  import opened Common
  import opened CoAccess
  import AssignmentCodec

  // ---------- The next Cell ----------

  lemma FirstOfUnique(source: seq<nat>, eligible: set<nat>, n: nat, a: set<nat>, b: set<nat>)
    requires FirstOf(source, eligible, n, a) && FirstOf(source, eligible, n, b)
    ensures a == b
  {
    assert a == (a * b) + (a - b) && b == (a * b) + (b - a);
    assert |a - b| == |b - a|;
    if |a - b| > 0 {
      var x :| x in a - b;
      var u :| u in b - a;
      NoneAfterEachOther(source, x, u);
    }
  }

  lemma NoneAfterEachOther(source: seq<nat>, x: nat, u: nat)
    requires x < |source| && u < |source| && x != u
    ensures !(SourceBefore(source, x, u) && SourceBefore(source, u, x))
  {
  }

  lemma BestSeedUnique(community: seq<nat>, was: seq<bool>, adjacency: map<nat, seq<Edge>>, frequency: map<nat, int>,
                       c: nat, x: nat, y: nat)
    requires BestSeed(community, was, adjacency, frequency, c, x) && BestSeed(community, was, adjacency, frequency, c, y)
    ensures x == y
  {
    hide Strength;
  }

  lemma BestCandidateUnique(community: seq<nat>, was: seq<bool>, adjacency: map<nat, seq<Edge>>,
                            frequency: map<nat, int>, prefix: seq<nat>, c: nat, x: nat, y: nat)
    requires BestCandidate(community, was, adjacency, frequency, prefix, c, x)
    requires BestCandidate(community, was, adjacency, frequency, prefix, c, y)
    ensures x == y
  {
    hide Candidate, Pull;
  }

  lemma {:induction false} CoresAgree(community: seq<nat>, was: seq<bool>, adjacency: map<nat, seq<Edge>>,
                                      frequency: map<nat, int>, c: nat, a: seq<nat>, b: seq<nat>, n: nat)
    requires |a| > 0 && |b| > 0 && a[0] == b[0] && n <= |a| && n <= |b|
    requires Greedy(community, was, adjacency, frequency, a, c) && Greedy(community, was, adjacency, frequency, b, c)
    ensures a[..n] == b[..n]
  {
    hide BestCandidate;
    if n > 1 {
      var k := n - 1;
      CoresAgree(community, was, adjacency, frequency, c, a, b, k);
      BestCandidateUnique(community, was, adjacency, frequency, a[..k], c, a[k], b[k]);
      assert a[..n] == a[..k] + [a[k]] && b[..n] == b[..k] + [b[k]];
    }
  }

  /** The core is full or has no free neighbour left. */
  ghost predicate Whole(community: seq<nat>, was: seq<bool>, adjacency: map<nat, seq<Edge>>, c: nat, target: nat,
                        core: seq<nat>) {
    |core| < target ==> forall u: nat :: !Candidate(community, was, adjacency, core, c, u)
  }

  lemma NothingJoins(community: seq<nat>, was: seq<bool>, adjacency: map<nat, seq<Edge>>, frequency: map<nat, int>,
                     c: nat, target: nat, core: seq<nat>, x: nat)
    requires Whole(community, was, adjacency, c, target, core) && |core| < target
    ensures !BestCandidate(community, was, adjacency, frequency, core, c, x)
  {
    hide Candidate;
  }

  lemma CoreIsWhole(community: seq<nat>, was: seq<bool>, adjacency: map<nat, seq<Edge>>, frequency: map<nat, int>,
                    c: nat, target: nat, a: seq<nat>, b: seq<nat>)
    requires 0 < |a| && 0 < |b| <= target && a[0] == b[0] && Whole(community, was, adjacency, c, target, a)
    requires Greedy(community, was, adjacency, frequency, a, c) && Greedy(community, was, adjacency, frequency, b, c)
    ensures |b| <= |a|
  {
    hide Whole, BestCandidate;
    if |b| > |a| {
      CoresAgree(community, was, adjacency, frequency, c, a, b, |a|);
      assert b[..|a|] == a;
      NothingJoins(community, was, adjacency, frequency, c, target, a, b[|a|]);
    }
  }

  lemma GrownUnique(community: seq<nat>, source: seq<nat>, was: seq<bool>, adjacency: map<nat, seq<Edge>>,
                    frequency: map<nat, int>, target: nat, c: nat, coreA: seq<nat>, a: seq<nat>, coreB: seq<nat>,
                    b: seq<nat>)
    requires GrownFrom(community, source, was, adjacency, frequency, target, c, coreA, a)
    requires GrownFrom(community, source, was, adjacency, frequency, target, c, coreB, b)
    ensures coreA == coreB && ToSet(a) == ToSet(b)
  {
    hide BestSeed, Greedy, Candidate, FirstOf;
    BestSeedUnique(community, was, adjacency, frequency, c, coreA[0], coreB[0]);
    CoreIsWhole(community, was, adjacency, frequency, c, target, coreA, coreB);
    CoreIsWhole(community, was, adjacency, frequency, c, target, coreB, coreA);
    CoresAgree(community, was, adjacency, frequency, c, coreA, coreB, |coreA|);
    assert coreA[..|coreA|] == coreA && coreB[..|coreB|] == coreB;
    FirstOfUnique(source, Sharers(community, source, was, c, coreA), target - |coreA|, ToSet(a) - ToSet(coreA),
                  ToSet(b) - ToSet(coreA));
    assert ToSet(a) == ToSet(coreA) + (ToSet(a) - ToSet(coreA));
    assert ToSet(b) == ToSet(coreA) + (ToSet(b) - ToSet(coreA));
  }

  /** What comes next holds the same nodes. */
  lemma NextUnique(community: seq<nat>, source: seq<nat>, was: seq<bool>, adjacency: map<nat, seq<Edge>>,
                   frequency: map<nat, int>, target: nat, c: nat, a: seq<nat>, b: seq<nat>)
    requires ComesNext(community, source, was, adjacency, frequency, target, c, a)
    requires ComesNext(community, source, was, adjacency, frequency, target, c, b)
    ensures ToSet(a) == ToSet(b)
  {
    hide TracedLeft, GrownFrom, FirstOf;
    if TracedLeft(community, was, adjacency, c) {
      var coreA :| GrownFrom(community, source, was, adjacency, frequency, target, c, coreA, a);
      var coreB :| GrownFrom(community, source, was, adjacency, frequency, target, c, coreB, b);
      GrownUnique(community, source, was, adjacency, frequency, target, c, coreA, a, coreB, b);
    } else {
      FirstOfUnique(source, OpenNodes(community, was, c), target, ToSet(a), ToSet(b));
    }
  }

  ghost predicate InOrder(frequency: map<nat, int>, cell: seq<nat>) {
    forall i, j :: 0 <= i < j < |cell| ==> Before(frequency, cell[i], cell[j])
  }

  /** The order of the nodes in a Cell is determined by their frequencies. */
  lemma {:induction false} SameOrder(frequency: map<nat, int>, a: seq<nat>, b: seq<nat>)
    requires InOrder(frequency, a) && InOrder(frequency, b) && ToSet(a) == ToSet(b)
    ensures a == b
    decreases |a|
  {
    if |b| > 0 {
      assert b[0] in ToSet(b);
    }
    if |a| > 0 {
      assert a[0] in ToSet(b) && |b| > 0 && b[0] in ToSet(a);
      FirstIsSmallest(frequency, a, b[0]);
      FirstIsSmallest(frequency, b, a[0]);
      assert a == [a[0]] + a[1..] && b == [b[0]] + b[1..];
      NotAgain(frequency, a);
      NotAgain(frequency, b);
      assert ToSet(a[1..]) == ToSet(a) - {a[0]} && ToSet(b[1..]) == ToSet(b) - {b[0]};
      SameOrder(frequency, a[1..], b[1..]);
    }
  }

  lemma FirstIsSmallest(frequency: map<nat, int>, cell: seq<nat>, x: nat)
    requires InOrder(frequency, cell) && x in cell
    ensures x == cell[0] || Before(frequency, cell[0], x)
  {
  }

  lemma NotAgain(frequency: map<nat, int>, cell: seq<nat>)
    requires InOrder(frequency, cell) && |cell| > 0
    ensures cell[0] !in cell[1..]
  {
  }

  // ---------- All Cells ----------

  ghost predicate InSome(cells: seq<seq<nat>>, i: nat) {
    exists l :: 0 <= l < |cells| && i in cells[l]
  }

  /** A complete list of Cells that meets the conditions. */
  ghost predicate IsCellList(community: seq<nat>, source: seq<nat>, adjacency: map<nat, seq<Edge>>,
                             frequency: map<nat, int>, target: nat, cells: seq<seq<nat>>, owner: seq<nat>) {
    && GoodCells(community, frequency, target, cells, owner)
    && Origins(community, source, adjacency, frequency, target, cells, owner)
    && (forall k, l :: 0 <= k < l < |cells| ==> ToSet(cells[k]) !! ToSet(cells[l]))
    && forall i: nat :: i < |community| ==> InSome(cells, i)
  }

  /** The next Cell belongs to the first Community that is not finished. */
  lemma OwnersAgree(community: seq<nat>, source: seq<nat>, adjacency: map<nat, seq<Edge>>, frequency: map<nat, int>,
                    target: nat, a: seq<seq<nat>>, ownerA: seq<nat>, b: seq<seq<nat>>, ownerB: seq<nat>, k: nat)
    requires IsCellList(community, source, adjacency, frequency, target, a, ownerA)
    requires IsCellList(community, source, adjacency, frequency, target, b, ownerB)
    requires k < |a| && k < |b| && a[..k] == b[..k]
    ensures ownerA[k] <= ownerB[k]
  {
    hide Origins;
    assert GoodCell(community, frequency, target, ownerB[k], b[k]);
    var x := b[k][0];
    assert x in ToSet(b[k]);
    assert InSome(a, x);
    var l :| 0 <= l < |a| && x in a[l];
    forall j | 0 <= j < k ensures x !in a[j] {
      assert a[j] == a[..k][j] == b[..k][j] == b[j];
      assert ToSet(b[j]) !! ToSet(b[k]);
    }
    assert GoodCell(community, frequency, target, ownerA[l], a[l]);
  }

  lemma SameEarlier(a: seq<seq<nat>>, b: seq<seq<nat>>, k: nat, was: seq<bool>, was': seq<bool>)
    requires k <= |a| && k <= |b| && a[..k] == b[..k] && |was| == |was'| && Earlier(a, k, was) && Earlier(b, k, was')
    ensures was == was'
  {
    forall i: nat | i < |was| ensures InEarlier(a, k, i) == InEarlier(b, k, i) {
      assert forall l :: 0 <= l < k ==> a[l] == a[..k][l] == b[..k][l] == b[l];
    }
  }

  lemma CellsAgreeAt(community: seq<nat>, source: seq<nat>, adjacency: map<nat, seq<Edge>>, frequency: map<nat, int>,
                     target: nat, a: seq<seq<nat>>, ownerA: seq<nat>, b: seq<seq<nat>>, ownerB: seq<nat>, k: nat)
    requires IsCellList(community, source, adjacency, frequency, target, a, ownerA)
    requires IsCellList(community, source, adjacency, frequency, target, b, ownerB)
    requires k < |a| && k < |b| && a[..k] == b[..k]
    ensures ownerA[k] == ownerB[k] && a[k] == b[k]
  {
    hide ComesNext, Earlier, Before;
    OwnersAgree(community, source, adjacency, frequency, target, a, ownerA, b, ownerB, k);
    OwnersAgree(community, source, adjacency, frequency, target, b, ownerB, a, ownerA, k);
    assert Origin(community, source, adjacency, frequency, target, a, k, ownerA[k]);
    assert Origin(community, source, adjacency, frequency, target, b, k, ownerB[k]);
    var was :| |was| == |community| && Earlier(a, k, was)
      && ComesNext(community, source, was, adjacency, frequency, target, ownerA[k], a[k]);
    var was' :| |was'| == |community| && Earlier(b, k, was')
      && ComesNext(community, source, was', adjacency, frequency, target, ownerB[k], b[k]);
    SameEarlier(a, b, k, was, was');
    NextUnique(community, source, was, adjacency, frequency, target, ownerA[k], a[k], b[k]);
    assert GoodCell(community, frequency, target, ownerA[k], a[k]);
    assert GoodCell(community, frequency, target, ownerB[k], b[k]);
    SameOrder(frequency, a[k], b[k]);
  }

  lemma {:induction false} CellsAgree(community: seq<nat>, source: seq<nat>, adjacency: map<nat, seq<Edge>>,
                                      frequency: map<nat, int>, target: nat, a: seq<seq<nat>>, ownerA: seq<nat>,
                                      b: seq<seq<nat>>, ownerB: seq<nat>, n: nat)
    requires IsCellList(community, source, adjacency, frequency, target, a, ownerA)
    requires IsCellList(community, source, adjacency, frequency, target, b, ownerB)
    requires n <= |a| && n <= |b|
    ensures a[..n] == b[..n]
  {
    hide IsCellList;
    if n > 0 {
      CellsAgree(community, source, adjacency, frequency, target, a, ownerA, b, ownerB, n - 1);
      CellsAgreeAt(community, source, adjacency, frequency, target, a, ownerA, b, ownerB, n - 1);
      assert a[..n] == a[..n - 1] + [a[n - 1]] && b[..n] == b[..n - 1] + [b[n - 1]];
    }
  }

  lemma EveryNodeIn(community: seq<nat>, source: seq<nat>, adjacency: map<nat, seq<Edge>>, frequency: map<nat, int>,
                    target: nat, cells: seq<seq<nat>>, owner: seq<nat>, x: nat)
    requires IsCellList(community, source, adjacency, frequency, target, cells, owner) && x < |community|
    ensures InSome(cells, x)
  {
  }

  lemma NewInNext(community: seq<nat>, source: seq<nat>, adjacency: map<nat, seq<Edge>>, frequency: map<nat, int>,
                  target: nat, cells: seq<seq<nat>>, owner: seq<nat>, k: nat) returns (x: nat)
    requires IsCellList(community, source, adjacency, frequency, target, cells, owner) && k < |cells|
    ensures x < |community| && !InSome(cells[..k], x)
  {
    hide Origins;
    assert GoodCell(community, frequency, target, owner[k], cells[k]);
    x := cells[k][0];
    forall l | 0 <= l < k ensures x !in cells[..k][l] {
      AtMostOnce(cells, l, k, x);
    }
  }

  /** A complete list cannot be continued. */
  lemma NotLonger(community: seq<nat>, source: seq<nat>, adjacency: map<nat, seq<Edge>>, frequency: map<nat, int>,
                  target: nat, a: seq<seq<nat>>, ownerA: seq<nat>, b: seq<seq<nat>>, ownerB: seq<nat>)
    requires IsCellList(community, source, adjacency, frequency, target, a, ownerA)
    requires IsCellList(community, source, adjacency, frequency, target, b, ownerB)
    ensures |b| <= |a|
  {
    hide IsCellList, InSome;
    if |b| > |a| {
      CellsAgree(community, source, adjacency, frequency, target, a, ownerA, b, ownerB, |a|);
      assert a[..|a|] == a;
      var x := NewInNext(community, source, adjacency, frequency, target, b, ownerB, |a|);
      EveryNodeIn(community, source, adjacency, frequency, target, a, ownerA, x);
    }
  }

  lemma AtMostOnce(cells: seq<seq<nat>>, k: nat, l: nat, x: nat)
    requires (forall i, j :: 0 <= i < j < |cells| ==> ToSet(cells[i]) !! ToSet(cells[j])) && k < l < |cells|
    ensures !(x in cells[k] && x in cells[l])
  {
    assert ToSet(cells[k]) !! ToSet(cells[l]);
    if x in cells[k] {
      assert x in ToSet(cells[k]);
    }
  }

  /** The places of an assignment make its Cells disjoint and complete. */
  lemma PlacesAreCellList(community: seq<nat>, source: seq<nat>, adjacency: map<nat, seq<Edge>>,
                          frequency: map<nat, int>, target: nat, ids: seq<nat>, orders: seq<nat>,
                          cells: seq<seq<nat>>, owner: seq<nat>)
    requires |ids| == |orders| == |community| && AssignmentCodec.Places(ids, orders, cells)
    requires GoodCells(community, frequency, target, cells, owner)
    requires Origins(community, source, adjacency, frequency, target, cells, owner)
    ensures IsCellList(community, source, adjacency, frequency, target, cells, owner)
  {
    hide Origins, GoodCells;
    forall i: nat | i < |community| ensures InSome(cells, i) {
      assert AssignmentCodec.HasPlace(ids, orders, cells, i);
    }
    forall k, l | 0 <= k < l < |cells| ensures ToSet(cells[k]) !! ToSet(cells[l]) {
      forall x | x in cells[k] ensures x !in cells[l] {
        InCell(ids, orders, cells, k, x);
        if x in cells[l] {
          InCell(ids, orders, cells, l, x);
        }
      }
    }
  }

  lemma InCell(ids: seq<nat>, orders: seq<nat>, cells: seq<seq<nat>>, k: nat, x: nat)
    requires |ids| == |orders| && AssignmentCodec.Places(ids, orders, cells) && k < |cells| && x in cells[k]
    ensures x < |ids| && ids[x] == k
  {
    var r :| 0 <= r < |cells[k]| && cells[k][r] == x;
    assert AssignmentCodec.IsFilled(ids, orders, cells, k, r);
  }

  lemma PlacesDetermine(ids: seq<nat>, orders: seq<nat>, ids': seq<nat>, orders': seq<nat>, cells: seq<seq<nat>>)
    requires |ids| == |orders| == |ids'| == |orders'|
    requires AssignmentCodec.Places(ids, orders, cells) && AssignmentCodec.Places(ids', orders', cells)
    ensures ids == ids' && orders == orders'
  {
    forall i | 0 <= i < |ids| ensures ids[i] == ids'[i] && orders[i] == orders'[i] {
      assert AssignmentCodec.HasPlace(ids, orders, cells, i);
      assert AssignmentCodec.IsFilled(ids', orders', cells, ids[i], orders[i]);
    }
  }

  /** The arguments determine the assignment. */
  lemma AssignmentUnique(community: seq<nat>, source: seq<nat>, adjacency: map<nat, seq<Edge>>,
                         frequency: map<nat, int>, target: nat, a: Assignment, b: Assignment)
    requires IsAssignment(community, source, adjacency, frequency, target, a)
    requires IsAssignment(community, source, adjacency, frequency, target, b)
    ensures a == b
  {
    hide Origins, GoodCells, AssignmentCodec.Places, IsCellList;
    var cellsA, ownerA :|
      && AssignmentCodec.Places(a.cellIds, a.orders, cellsA) && GoodCells(community, frequency, target, cellsA, ownerA)
      && Origins(community, source, adjacency, frequency, target, cellsA, ownerA);
    var cellsB, ownerB :|
      && AssignmentCodec.Places(b.cellIds, b.orders, cellsB) && GoodCells(community, frequency, target, cellsB, ownerB)
      && Origins(community, source, adjacency, frequency, target, cellsB, ownerB);
    PlacesAreCellList(community, source, adjacency, frequency, target, a.cellIds, a.orders, cellsA, ownerA);
    PlacesAreCellList(community, source, adjacency, frequency, target, b.cellIds, b.orders, cellsB, ownerB);
    NotLonger(community, source, adjacency, frequency, target, cellsA, ownerA, cellsB, ownerB);
    NotLonger(community, source, adjacency, frequency, target, cellsB, ownerB, cellsA, ownerA);
    CellsAgree(community, source, adjacency, frequency, target, cellsA, ownerA, cellsB, ownerB, |cellsA|);
    assert cellsA[..|cellsA|] == cellsA && cellsB[..|cellsB|] == cellsB;
    PlacesDetermine(a.cellIds, a.orders, b.cellIds, b.orders, cellsA);
  }
}
