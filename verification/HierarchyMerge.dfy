/**
  Merging disjoint Cell pairs (materialize_pair_merges in python/train_geometric_cells.py):
  the pairs are checked, every pair becomes one unit placed at the lowest common ancestor of
  its two leaves, the hierarchy is rewritten around the placements, and owners are recounted.
 */
module HierarchyMerge {
  import opened Common
  import opened HierarchyTree
  import opened HierarchySurgery

  /** The largest adaptive capacity class. */
  const MAX_CELL: nat := 128

  // ---------- Vectors listed by Cells ----------

  /** The vectors of the listed Cells, one Cell after another. */
  function Members(groups: seq<seq<nat>>, key: seq<nat>): (m: seq<nat>)
    requires InRange(key, |groups|)
  {
    if |key| == 0 then [] else Members(groups, key[..|key| - 1]) + groups[key[|key| - 1]]
  }

  function AllMembers(groups: seq<seq<nat>>): seq<nat> {
    Members(groups, Iota(|groups|))
  }

  /** Exactly the vectors 0, 1, ... are owned, each by one Cell and listed there once. */
  ghost predicate OneOwner(groups: seq<seq<nat>>) {
    forall x: nat :: Occurrences(AllMembers(groups), x) == if x < |AllMembers(groups)| then 1 else 0
  }

  lemma {:induction false} MembersAdd(groups: seq<seq<nat>>, a: seq<nat>, b: seq<nat>)
    requires InRange(a, |groups|) && InRange(b, |groups|)
    ensures InRange(a + b, |groups|)
    ensures Members(groups, a + b) == Members(groups, a) + Members(groups, b)
  {
    InRangeParts(a, b, |groups|);
    if |b| == 0 {
      assert a + b == a;
      assert Members(groups, a) + [] == Members(groups, a);
    } else {
      var c := b[..|b| - 1];
      MembersAdd(groups, a, c);
      assert (a + b)[..|a + b| - 1] == a + c;
      assert Members(groups, a) + (Members(groups, c) + groups[b[|b| - 1]])
        == (Members(groups, a) + Members(groups, c)) + groups[b[|b| - 1]];
    }
  }

  lemma MembersOne(groups: seq<seq<nat>>, c: nat)
    requires c < |groups|
    ensures Members(groups, [c]) == groups[c]
  {
    assert [c][..0] == [] && [] + groups[c] == groups[c];
    assert Members(groups, [c]) == Members(groups, []) + groups[c];
  }

  lemma MembersTwo(groups: seq<seq<nat>>, c: nat, d: nat)
    requires c < |groups| && d < |groups|
    ensures Members(groups, [c, d]) == groups[c] + groups[d]
  {
    MembersOne(groups, c);
    MembersOne(groups, d);
    MembersAdd(groups, [c], [d]);
    assert [c] + [d] == [c, d];
  }

  /** Listing the same Cells in another order lists the same vectors. */
  lemma {:induction false} MembersPermute(groups: seq<seq<nat>>, a: seq<nat>, b: seq<nat>)
    requires InRange(a, |groups|) && InRange(b, |groups|) && multiset(a) == multiset(b)
    ensures multiset(Members(groups, a)) == multiset(Members(groups, b))
  {
    hide Members, InRange;
    if |a| == 0 {
      assert |multiset(b)| == |b| == 0;
      assert a == b;
    } else {
      var x, rest := a[|a| - 1], a[..|a| - 1];
      assert a == rest + [x];
      assert x in multiset(a) && x in b;
      var i :| 0 <= i < |b| && b[i] == x;
      var before, after := b[..i], b[i + 1..];
      WithoutOne(a, b, i);
      InRangeParts(rest, [x], |groups|);
      InRangeParts(before + [x], after, |groups|);
      InRangeParts(before, [x], |groups|);
      InRangeParts(before, after, |groups|);
      MembersPermute(groups, rest, before + after);
      MembersMove(groups, before, x, after);
      MembersAdd(groups, rest, [x]);
      MembersOne(groups, x);
    }
  }

  lemma WithoutOne(a: seq<nat>, b: seq<nat>, i: nat)
    requires |a| > 0 && i < |b| && b[i] == a[|a| - 1] && multiset(a) == multiset(b)
    ensures multiset(a[..|a| - 1]) == multiset(b[..i] + b[i + 1..])
    ensures b == b[..i] + [b[i]] + b[i + 1..] && a == a[..|a| - 1] + [a[|a| - 1]]
  {
    assert b == b[..i] + [b[i]] + b[i + 1..];
    assert a == a[..|a| - 1] + [a[|a| - 1]];
    assert multiset(a[..|a| - 1]) == multiset(a) - multiset{b[i]};
    assert multiset(b[..i] + b[i + 1..]) == multiset(b) - multiset{b[i]};
  }

  lemma MembersMove(groups: seq<seq<nat>>, before: seq<nat>, x: nat, after: seq<nat>)
    requires InRange(before + [x] + after, |groups|)
    ensures InRange(before + after, |groups|) && x < |groups|
    ensures multiset(Members(groups, before + [x] + after))
         == multiset(Members(groups, before + after)) + multiset(groups[x])
  {
    hide Members;
    InRangeParts(before + [x], after, |groups|);
    InRangeParts(before, [x], |groups|);
    InRangeParts(before, after, |groups|);
    assert [x][0] == x;
    MembersOne(groups, x);
    MembersAdd(groups, before, after);
    MembersAdd(groups, before, [x]);
    MembersAdd(groups, before + [x], after);
  }

  // ---------- The pairs ----------

  datatype Pair = Pair(left: nat, right: nat)

  /** The Cells named by the pairs, in order. */
  function Named(pairs: seq<Pair>): (cells: seq<nat>) {
    if |pairs| == 0 then []
    else Named(pairs[..|pairs| - 1]) + [pairs[|pairs| - 1].left, pairs[|pairs| - 1].right]
  }

  ghost predicate Fits(groups: seq<seq<nat>>, p: Pair) {
    && p.left < |groups| && p.right < |groups|
    && |groups[p.left]| + |groups[p.right]| <= MAX_CELL
  }

  /** The pairs name existing Cells, none twice, and every union still fits. */
  ghost predicate Mergeable(groups: seq<seq<nat>>, pairs: seq<Pair>) {
    && (forall i :: 0 <= i < |pairs| ==> Fits(groups, pairs[i]))
    && NoDup(Named(pairs))
  }

  /** Every Cell that has a partner is the partner of its partner. */
  ghost predicate Matching(groups: seq<seq<nat>>, partner: map<nat, nat>) {
    forall c :: c in partner ==>
      && c < |groups| && partner[c] != c && partner[c] < |groups| && partner[c] in partner && partner[partner[c]] == c
      && |groups[c]| + |groups[partner[c]]| <= MAX_CELL
  }

  /** `partner` sends each Cell of the pairs to the other one of its pair, and knows no other Cell. */
  ghost predicate Partners(pairs: seq<Pair>, partner: map<nat, nat>) {
    && (forall i :: 0 <= i < |pairs| ==>
          pairs[i].left in partner && partner[pairs[i].left] == pairs[i].right)
    && (forall c :: c in partner <==> c in Named(pairs))
  }

  /** Check the pairs one by one and record them in both directions. */
  method PairUp(groups: seq<seq<nat>>, pairs: seq<Pair>) returns (r: Result<map<nat, nat>, Error>)
    ensures r.Ok? <==> Mergeable(groups, pairs)
    ensures r.Ok? ==> Partners(pairs, r.value) && Matching(groups, r.value)
    ensures r == Err(IndexError) ==> exists i :: 0 <= i < |pairs| && (pairs[i].left >= |groups| || pairs[i].right >= |groups|)
  {
    hide Named, Matching, Partners, Fits, Mergeable;
    var partner: map<nat, nat> := map[];
    NoPairs(groups);
    assert pairs[..0] == [];
    for i := 0 to |pairs|
      invariant Mergeable(groups, pairs[..i]) && Partners(pairs[..i], partner) && Matching(groups, partner)
    {
      var p := pairs[i];
      assert pairs[..i + 1] == pairs[..i] + [p];
      if !Joins(groups, pairs[..i], partner, p) {
        NotJoined(groups, pairs, partner, i);
      }
      if p.left == p.right || p.left in partner || p.right in partner {
        return Err(ProfileError);
      }
      if p.left >= |groups| || p.right >= |groups| {
        return Err(IndexError);
      }
      if |groups[p.left]| + |groups[p.right]| > MAX_CELL {
        return Err(ProfileError);
      }
      PairJoins(groups, pairs[..i], partner, p);
      partner := partner[p.left := p.right][p.right := p.left];
    }
    assert pairs[..|pairs|] == pairs;
    return Ok(partner);
  }

  ghost predicate Joins(groups: seq<seq<nat>>, pairs: seq<Pair>, partner: map<nat, nat>, p: Pair) {
    && p.left != p.right && p.left !in partner && p.right !in partner
    && p.left < |groups| && p.right < |groups| && |groups[p.left]| + |groups[p.right]| <= MAX_CELL
  }

  lemma NoPairs(groups: seq<seq<nat>>)
    ensures Mergeable(groups, []) && Partners([], map[]) && Matching(groups, map[])
  {
  }

  lemma NamedStep(pairs: seq<Pair>, p: Pair)
    ensures Named(pairs + [p]) == Named(pairs) + [p.left, p.right]
  {
    assert (pairs + [p])[..|pairs|] == pairs;
  }

  lemma PairJoins(groups: seq<seq<nat>>, pairs: seq<Pair>, partner: map<nat, nat>, p: Pair)
    requires Mergeable(groups, pairs) && Partners(pairs, partner) && Matching(groups, partner)
    requires Joins(groups, pairs, partner, p)
    ensures var after := partner[p.left := p.right][p.right := p.left];
      Mergeable(groups, pairs + [p]) && Partners(pairs + [p], after) && Matching(groups, after)
  {
    hide Named;
    NamedStep(pairs, p);
    var cells := Named(pairs);
    forall c ensures c in cells + [p.left, p.right] <==> c in cells || c == p.left || c == p.right {
      if c == p.left {
        assert (cells + [p.left, p.right])[|cells|] == c;
      }
      if c == p.right {
        assert (cells + [p.left, p.right])[|cells| + 1] == c;
      }
    }
    forall i | 0 <= i < |pairs| ensures pairs[i].left in cells && pairs[i].right in cells {
      assert pairs[i].left in partner;
    }
  }

  lemma {:induction false} NamedPrefix(pairs: seq<Pair>, n: nat)
    requires n <= |pairs|
    ensures Named(pairs[..n]) <= Named(pairs)
  {
    if n < |pairs| {
      assert pairs == pairs[..|pairs| - 1] + [pairs[|pairs| - 1]];
      NamedPrefix(pairs[..|pairs| - 1], n);
      assert pairs[..|pairs| - 1][..n] == pairs[..n];
    } else {
      assert pairs[..n] == pairs;
    }
  }

  /** A pair that is turned down makes the whole list unmergeable. */
  lemma NotJoined(groups: seq<seq<nat>>, pairs: seq<Pair>, partner: map<nat, nat>, i: nat)
    requires i < |pairs| && Partners(pairs[..i], partner) && !Joins(groups, pairs[..i], partner, pairs[i])
    ensures !Mergeable(groups, pairs)
  {
    hide Named;
    var p, cells := pairs[i], Named(pairs[..i]);
    NamedPrefix(pairs, i + 1);
    assert pairs[..i + 1] == pairs[..i] + [p];
    NamedStep(pairs[..i], p);
    var all := Named(pairs);
    assert all[|cells|] == p.left && all[|cells| + 1] == p.right;
    if p.left in partner {
      var j :| 0 <= j < |cells| && cells[j] == p.left;
      assert all[j] == cells[j];
    } else if p.right in partner {
      var j :| 0 <= j < |cells| && cells[j] == p.right;
      assert all[j] == cells[j];
    }
  }

  // ---------- Units ----------

  datatype Unit = Unit(key: seq<nat>, members: seq<nat>, placement: nat)

  /** A node contains `placement` exactly when it contains the leaves of all Cells in the key. */
  ghost predicate AtLca(s: Source, key: seq<nat>, placement: nat)
    requires IsTree(s) && InRange(key, |s.leaves|)
  {
    && placement < |s.h|
    && forall v :: 0 <= v < |s.h| ==> (Under(s, v, placement) <==> UnderAll(s, v, key))
  }

  ghost predicate UnderAll(s: Source, v: int, key: seq<nat>)
    requires IsTree(s) && InRange(key, |s.leaves|) && 0 <= v < |s.h|
  {
    forall i :: 0 <= i < |key| ==> 0 <= s.leaves[key[i]] < |s.h| && Under(s, v, s.leaves[key[i]])
  }

  /** The Cells of a unit: a Cell without partner, or a pair in increasing order. */
  ghost predicate IsKey(partner: map<nat, nat>, key: seq<nat>) {
    || (|key| == 1 && key[0] !in partner)
    || (|key| == 2 && key[0] in partner && partner[key[0]] == key[1] && key[0] < key[1])
  }

  ghost predicate IsUnit(s: Source, groups: seq<seq<nat>>, partner: map<nat, nat>, u: Unit)
    requires IsTree(s) && |s.leaves| == |groups|
  {
    && InRange(u.key, |groups|) && IsKey(partner, u.key)
    && u.members == Members(groups, u.key) && AtLca(s, u.key, u.placement)
  }

  /** All source Cells named by the units, unit after unit. */
  function Keys(units: seq<Unit>): seq<nat> {
    if |units| == 0 then [] else Keys(units[..|units| - 1]) + units[|units| - 1].key
  }

  /** Every Cell is in one unit, and the units come in increasing order of their keys. */
  ghost predicate IsUnits(s: Source, groups: seq<seq<nat>>, partner: map<nat, nat>, units: seq<Unit>)
    requires IsTree(s) && |s.leaves| == |groups|
  {
    && (forall i :: 0 <= i < |units| ==> IsUnit(s, groups, partner, units[i]))
    && (forall i, j :: 0 <= i < j < |units| ==> Ahead(units[i], units[j]))
    && InRange(Keys(units), |groups|)
    && (forall c :: 0 <= c < |groups| ==> Occurrences(Keys(units), c) == 1)
  }

  ghost predicate Ahead(u: Unit, w: Unit) {
    |u.key| > 0 && |w.key| > 0 && u.key[0] < w.key[0]
  }

  lemma LeafFacts(s: Source, c: int)
    requires IsTree(s) && 0 <= c < |s.leaves|
    ensures 0 <= s.leaves[c] < |s.h|
  {
  }

  lemma UnderTrans(s: Source, a: int, b: int, c: int)
    requires IsTree(s) && 0 <= a < |s.h| && 0 <= b < |s.h| && 0 <= c < |s.h|
    requires Under(s, a, b) && Under(s, b, c)
    ensures Under(s, a, c)
  {
    NodeFacts(s, a);
    NodeFacts(s, b);
    NodeFacts(s, c);
    AncestorOfAncestor(s, c, s.depths[b], s.depths[a]);
    hide IsTree;
  }

  lemma LcaPlaces(s: Source, left: nat, right: nat, p: nat)
    requires IsTree(s) && left < |s.leaves| && right < |s.leaves|
    requires 0 <= s.leaves[left] < |s.h| && 0 <= s.leaves[right] < |s.h|
    requires IsLca(s, s.leaves[left], s.leaves[right], p)
    ensures AtLca(s, [left, right], p)
  {
    hide IsTree, Under;
    forall v | 0 <= v < |s.h| && Under(s, v, p) ensures UnderAll(s, v, [left, right]) {
      UnderTrans(s, v, p, s.leaves[left]);
      UnderTrans(s, v, p, s.leaves[right]);
    }
    forall v | 0 <= v < |s.h| && UnderAll(s, v, [left, right]) ensures Under(s, v, p) {
      assert [left, right][0] == left && [left, right][1] == right;
    }
  }

  lemma LeafPlaces(s: Source, c: nat)
    requires IsTree(s) && c < |s.leaves| && 0 <= s.leaves[c] < |s.h|
    ensures AtLca(s, [c], s.leaves[c])
  {
    hide IsTree, Under;
    forall v | 0 <= v < |s.h| ensures Under(s, v, s.leaves[c]) <==> UnderAll(s, v, [c]) {
      assert [c][0] == c;
    }
  }

  /** Where the scan over Cells stands before Cell `c`. */
  ghost predicate Scanned(n: nat, partner: map<nat, nat>, consumed: set<nat>, c: int, units: seq<Unit>) {
    && (forall k :: 0 <= k < c ==> k in consumed)
    && (forall k :: k in consumed ==> k < n && (k < c || (k in partner && partner[k] < c)))
    && (forall k :: 0 <= k < c && k in partner ==> partner[k] in consumed)
    && (forall i :: 0 <= i < |units| ==> |units[i].key| > 0 && units[i].key[0] < c)
    && InRange(Keys(units), n)
    && (forall k :: 0 <= k < n ==> Occurrences(Keys(units), k) == if k in consumed then 1 else 0)
  }

  lemma PartnerIsLater(groups: seq<seq<nat>>, partner: map<nat, nat>, consumed: set<nat>, c: nat, units: seq<Unit>)
    requires Scanned(|groups|, partner, consumed, c, units) && c in partner && c !in consumed && Matching(groups, partner)
    ensures c < partner[c] < |groups|
  {
  }

  lemma ScanStep(groups: seq<seq<nat>>, partner: map<nat, nat>, consumed: set<nat>, c: nat, units: seq<Unit>, u: Unit)
    requires Scanned(|groups|, partner, consumed, c, units) && c < |groups| && c !in consumed
    requires Matching(groups, partner)
    requires u.key == if c in partner then [c, partner[c]] else [c]
    ensures Scanned(|groups|, partner, consumed + ToSet(u.key), c + 1, units + [u])
    ensures forall i :: 0 <= i < |units| ==> Ahead(units[i], u)
  {
    hide Keys, Occurrences, InRange;
    KeysStep(units, u);
    InRangeParts(Keys(units), u.key, |groups|);
    KeyOccurs(u.key);
    assert InRange(u.key, |groups|) by {
      KeyInRange(u.key, c, |groups|);
    }
    forall k ensures Occurrences(Keys(units + [u]), k) == Occurrences(Keys(units), k) + Occurrences(u.key, k) {
      OccurrencesAdd(Keys(units), u.key, k);
    }
  }

  lemma KeysStep(units: seq<Unit>, u: Unit)
    ensures Keys(units + [u]) == Keys(units) + u.key
  {
    assert (units + [u])[..|units|] == units;
  }

  lemma KeyInRange(key: seq<nat>, c: nat, n: nat)
    requires c < n && (key == [c] || exists d :: d < n && key == [c, d])
    ensures InRange(key, n)
  {
  }

  lemma KeyOccurs(key: seq<nat>)
    requires |key| == 1 || (|key| == 2 && key[0] != key[1])
    ensures forall k :: Occurrences(key, k) == if k in key then 1 else 0
    ensures forall k :: k in ToSet(key) <==> k == key[0] || k == key[|key| - 1]
  {
    if |key| == 2 {
      assert key == [key[0], key[1]];
    } else {
      assert key == [key[0]];
    }
  }

  /** The unit that a Cell starts: itself, or the pair whose smaller member it is. */
  method UnitFor(s: Source, groups: seq<seq<nat>>, partner: map<nat, nat>, c: nat) returns (u: Unit)
    requires IsTree(s) && |s.leaves| == |groups| && c < |groups|
    requires c in partner ==> c < partner[c] < |groups|
    ensures IsUnit(s, groups, partner, u)
    ensures u.key == if c in partner then [c, partner[c]] else [c]
  {
    hide IsTree, AtLca, IsLca;
    LeafFacts(s, c);
    if c in partner {
      var other := partner[c];
      LeafFacts(s, other);
      var key := if c < other then [c, other] else [other, c];
      var placement := HierarchyLca(s, s.leaves[key[0]], s.leaves[key[1]]);
      u := Unit(key, groups[key[0]] + groups[key[1]], placement);
      LcaPlaces(s, c, other, placement);
      MembersTwo(groups, c, other);
    } else {
      u := Unit([c], groups[c], s.leaves[c]);
      LeafPlaces(s, c);
      MembersOne(groups, c);
    }
  }

  /** Turn Cells and pairs into units with their placements, in increasing order of the keys. */
  method MakeUnits(s: Source, groups: seq<seq<nat>>, partner: map<nat, nat>) returns (units: seq<Unit>)
    requires IsTree(s) && |s.leaves| == |groups| && Matching(groups, partner)
    ensures IsUnits(s, groups, partner, units)
  {
    hide IsTree, IsUnit, Matching, Scanned, Ahead, Keys;
    units := [];
    var consumed: set<nat> := {};
    NothingScanned(|groups|, partner);
    for c := 0 to |groups|
      invariant Scanned(|groups|, partner, consumed, c, units)
      invariant forall i :: 0 <= i < |units| ==> IsUnit(s, groups, partner, units[i])
      invariant forall i, j :: 0 <= i < j < |units| ==> Ahead(units[i], units[j])
    {
      if c in consumed {
        ScanSkips(groups, partner, consumed, c, units);
        continue;
      }
      if c in partner {
        PartnerIsLater(groups, partner, consumed, c, units);
      }
      var u := UnitFor(s, groups, partner, c);
      ScanStep(groups, partner, consumed, c, units, u);
      consumed := consumed + ToSet(u.key);
      units := units + [u];
    }
    AllScanned(|groups|, partner, consumed, units);
  }

  lemma AllScanned(n: nat, partner: map<nat, nat>, consumed: set<nat>, units: seq<Unit>)
    requires Scanned(n, partner, consumed, n, units)
    ensures InRange(Keys(units), n) && forall c :: 0 <= c < n ==> Occurrences(Keys(units), c) == 1
  {
  }

  lemma NothingScanned(n: nat, partner: map<nat, nat>)
    ensures Scanned(n, partner, {}, 0, [])
  {
  }

  lemma ScanSkips(groups: seq<seq<nat>>, partner: map<nat, nat>, consumed: set<nat>, c: nat, units: seq<Unit>)
    requires Scanned(|groups|, partner, consumed, c, units) && c in consumed && c < |groups|
    requires Matching(groups, partner)
    ensures Scanned(|groups|, partner, consumed, c + 1, units)
  {
  }

  // ---------- Placements ----------

  /** The output Cells placed at node `u`, in increasing order. */
  function PlacedHere(units: seq<Unit>, u: int): (cells: seq<nat>) {
    if |units| == 0 then []
    else PlacedHere(units[..|units| - 1], u) + if units[|units| - 1].placement == u then [|units| - 1] else []
  }

  function At(n: nat, units: seq<Unit>): (at: seq<seq<nat>>)
    ensures |at| == n && forall u :: 0 <= u < n ==> at[u] == PlacedHere(units, u)
  {
    seq(n, u => PlacedHere(units, u))
  }

  function Places(units: seq<Unit>): (place: seq<nat>)
    ensures |place| == |units| && forall k :: 0 <= k < |units| ==> place[k] == units[k].placement
  {
    seq(|units|, k requires 0 <= k < |units| => units[k].placement)
  }

  function GroupsOf(units: seq<Unit>): (groups: seq<seq<nat>>)
    ensures |groups| == |units| && forall k :: 0 <= k < |units| ==> groups[k] == units[k].members
  {
    seq(|units|, k requires 0 <= k < |units| => units[k].members)
  }

  function Sizes(groups: seq<seq<nat>>): (sizes: seq<nat>)
    ensures |sizes| == |groups| && forall k :: 0 <= k < |groups| ==> sizes[k] == |groups[k]|
  {
    seq(|groups|, k requires 0 <= k < |groups| => |groups[k]|)
  }

  lemma {:induction false} PlacedHereOnce(units: seq<Unit>, u: int, k: nat)
    ensures Occurrences(PlacedHere(units, u), k) == if k < |units| && units[k].placement == u then 1 else 0
    ensures forall i :: 0 <= i < |PlacedHere(units, u)| ==> PlacedHere(units, u)[i] < |units|
    ensures forall i, j :: 0 <= i < j < |PlacedHere(units, u)| ==> PlacedHere(units, u)[i] < PlacedHere(units, u)[j]
  {
    if |units| > 0 {
      var rest, last := units[..|units| - 1], if units[|units| - 1].placement == u then [|units| - 1] else [];
      PlacedHereOnce(rest, u, k);
      OccurrencesAdd(PlacedHere(rest, u), last, k);
    }
  }

  lemma UnitsPlaced(s: Source, units: seq<Unit>)
    requires forall k :: 0 <= k < |units| ==> units[k].placement < |s.h|
    ensures PlacedAt(s, At(|s.h|, units), Places(units))
  {
    hide PlacedHere;
    var at, place := At(|s.h|, units), Places(units);
    forall u, k | 0 <= u < |at| && 0 <= k < |place| ensures Occurrences(at[u], k) == if place[k] == u then 1 else 0 {
      PlacedHereOnce(units, u, k);
    }
    forall u, i | 0 <= u < |at| && 0 <= i < |at[u]| ensures at[u][i] < |place| {
      PlacedHereOnce(units, u, 0);
    }
  }

  /** Collect the output Cells by placement. */
  method Placements(n: nat, units: seq<Unit>) returns (at: seq<seq<nat>>)
    requires forall k :: 0 <= k < |units| ==> units[k].placement < n
    ensures at == At(n, units)
  {
    hide At, PlacedHere;
    at := seq(n, _ => []);
    AtNone(n);
    assert units[..0] == [];
    for i := 0 to |units|
      invariant at == At(n, units[..i]) && |at| == n
    {
      AtStep(n, units, i);
      at := at[units[i].placement := at[units[i].placement] + [i]];
    }
    assert units[..|units|] == units;
  }

  lemma AtNone(n: nat)
    ensures At(n, []) == seq(n, _ => [])
  {
  }

  lemma AtStep(n: nat, units: seq<Unit>, i: nat)
    requires i < |units| && units[i].placement < n
    ensures var p := units[i].placement;
      At(n, units[..i + 1]) == At(n, units[..i])[p := At(n, units[..i])[p] + [i]]
  {
    assert units[..i + 1][..i] == units[..i];
    var a, b := At(n, units[..i]), At(n, units[..i + 1]);
    forall u | 0 <= u < n ensures b[u] == if u == units[i].placement then a[u] + [i] else a[u] {
      assert PlacedHere(units[..i], u) + [] == PlacedHere(units[..i], u);
    }
  }

  // ---------- Owners ----------

  lemma {:induction false} NoDupOccurs(s: seq<nat>, x: nat)
    requires NoDup(s)
    ensures Occurrences(s, x) == if x in s then 1 else 0
  {
    if |s| != 0 {
      var t := s[..|s| - 1];
      assert s == t + [s[|s| - 1]];
      NoDupOccurs(t, x);
    }
  }

  /** `n` entries that cover 0, ..., n - 1 cover each exactly once and nothing else. */
  lemma CoverIsExact(s: seq<nat>, x: nat)
    requires forall y: nat :: y < |s| ==> y in s
    ensures Occurrences(s, x) == if x < |s| then 1 else 0
  {
    CoverRepeatsNothing(s);
    NoDupOccurs(s, x);
  }

  /** Owners are recorded for exactly the vectors of the first `i` Cells. */
  ghost predicate Recorded(owners: seq<int>, groups: seq<seq<nat>>, i: nat) {
    && i <= |groups|
    && (forall x :: 0 <= x < |owners| ==> (owners[x] != -1 <==> x in Members(groups, Iota(i))))
  }

  /** Record the owner of every vector and refuse a second owner, an unknown vector or a gap. */
  method CheckOwners(groups: seq<seq<nat>>, total: nat) returns (r: Option<Error>)
    requires total == |AllMembers(groups)|
    ensures r.None? <==> OneOwner(groups)
  {
    hide OneOwner, AllMembers, Recorded, Members, Iota, Occurrences;
    var owners := seq(total, _ => -1);
    NothingRecorded(groups, total);
    for c := 0 to |groups|
      invariant |owners| == total && Recorded(owners, groups, c)
      invariant forall x :: 0 <= x < total ==> owners[x] >= -1
    {
      var members := groups[c];
      for i := 0 to |members|
        invariant forall j :: 0 <= j < i ==> members[j] < total && owners[members[j]] == -1
      {
        if members[i] >= total {
          UnknownVector(groups, total, c, i);
          return Some(IndexError);
        }
        if owners[members[i]] != -1 {
          SecondOwner(owners, groups, total, c, i);
          return Some(ProfileError);
        }
      }
      ghost var before := owners;
      for i := 0 to |members|
        invariant |owners| == total && (forall x :: 0 <= x < total ==> owners[x] >= -1)
        invariant forall x :: 0 <= x < total ==> owners[x] == if x in members[..i] then c else before[x]
      {
        assert members[..i + 1] == members[..i] + [members[i]];
        owners := owners[members[i] := c];
      }
      assert members[..|members|] == members;
      RecordedStep(before, owners, groups, c);
    }
    for x := 0 to total
      invariant forall y :: 0 <= y < x ==> owners[y] >= 0
    {
      if owners[x] < 0 {
        Uncovered(owners, groups, total, x);
        return Some(ProfileError);
      }
    }
    AllRecorded(owners, groups, total);
    return None;
  }

  lemma NothingRecorded(groups: seq<seq<nat>>, total: nat)
    ensures Recorded(seq(total, _ => -1), groups, 0)
  {
    assert Iota(0) == [];
  }

  lemma MembersIotaStep(groups: seq<seq<nat>>, c: nat)
    requires c < |groups|
    ensures Members(groups, Iota(c + 1)) == Members(groups, Iota(c)) + groups[c]
  {
    hide Members;
    IotaStep(c);
    MembersOne(groups, c);
    MembersAdd(groups, Iota(c), [c]);
  }

  lemma {:induction false} MembersPrefix(groups: seq<seq<nat>>, c: nat)
    requires c <= |groups|
    ensures Members(groups, Iota(c)) <= AllMembers(groups)
    decreases |groups| - c
  {
    if c < |groups| {
      MembersIotaStep(groups, c);
      MembersPrefix(groups, c + 1);
    }
  }

  lemma UnknownVector(groups: seq<seq<nat>>, total: nat, c: nat, i: nat)
    requires total == |AllMembers(groups)| && c < |groups| && i < |groups[c]| && groups[c][i] >= total
    ensures !OneOwner(groups)
  {
    hide AllMembers;
    MembersIotaStep(groups, c);
    MembersPrefix(groups, c + 1);
    assert Members(groups, Iota(c + 1))[|Members(groups, Iota(c))| + i] == groups[c][i];
    assert AllMembers(groups)[|Members(groups, Iota(c))| + i] == groups[c][i];
    assert groups[c][i] in multiset(AllMembers(groups));
    assert Occurrences(AllMembers(groups), groups[c][i]) > 0;
  }

  lemma SecondOwner(owners: seq<int>, groups: seq<seq<nat>>, total: nat, c: nat, i: nat)
    requires total == |AllMembers(groups)| == |owners| && c < |groups| && i < |groups[c]| && groups[c][i] < total
    requires Recorded(owners, groups, c) && owners[groups[c][i]] != -1
    ensures !OneOwner(groups)
  {
    hide AllMembers, Members;
    var x, before := groups[c][i], Members(groups, Iota(c));
    MembersIotaStep(groups, c);
    MembersPrefix(groups, c + 1);
    var all := AllMembers(groups);
    assert all == before + groups[c] + all[|before| + |groups[c]|..];
    assert x in multiset(before) && x in multiset(groups[c]);
    assert multiset(all) == multiset(before) + multiset(groups[c]) + multiset(all[|before| + |groups[c]|..]);
    assert Occurrences(all, x) >= 2;
  }

  lemma RecordedStep(before: seq<int>, owners: seq<int>, groups: seq<seq<nat>>, c: nat)
    requires c < |groups| && Recorded(before, groups, c) && |owners| == |before|
    requires forall x :: 0 <= x < |owners| ==> owners[x] == if x in groups[c] then c else before[x]
    ensures Recorded(owners, groups, c + 1)
  {
    hide Members;
    MembersIotaStep(groups, c);
  }

  lemma Uncovered(owners: seq<int>, groups: seq<seq<nat>>, total: nat, x: nat)
    requires total == |AllMembers(groups)| == |owners| && x < total
    requires Recorded(owners, groups, |groups|) && owners[x] < 0
    requires forall y :: 0 <= y < total ==> owners[y] >= -1
    ensures !OneOwner(groups)
  {
    assert x !in AllMembers(groups);
    assert Occurrences(AllMembers(groups), x) == 0;
  }

  lemma AllRecorded(owners: seq<int>, groups: seq<seq<nat>>, total: nat)
    requires total == |AllMembers(groups)| == |owners| && Recorded(owners, groups, |groups|)
    requires forall y :: 0 <= y < total ==> owners[y] >= 0
    ensures OneOwner(groups)
  {
    hide Members;
    forall x: nat ensures Occurrences(AllMembers(groups), x) == if x < total then 1 else 0 {
      forall y: nat | y < total ensures y in AllMembers(groups) {
        assert owners[y] != -1;
      }
      CoverIsExact(AllMembers(groups), x);
    }
  }
}
