/**
  What every run of the page cache keeps. A `World` is the locked state together with the
  history its clients and an observer could have recorded: who owns each frame, which
  reservations are still out, and when each page was last demanded.
 */
module IoLruInvariants {
  import opened Common
  import opened IoLruPool

  /** `Detached` frames have left the free list or a page and were bound to nothing. */
  datatype Owner = InFree | InLoading(page: PageId) | InResident(page: PageId) | Detached

  datatype History = History(
    owner: map<Frame, Owner>,
    loads: map<PageId, Reservation>,
    held: multiset<Reservation>,
    clock: nat,
    lastDemand: map<PageId, nat>,
    published: nat,
    prefetchPublished: nat,
    usedEvictions: nat,
    plainCharges: nat)

  datatype World = World(s: Pool, h: History)

  function EmptyHistory(capacity: nat, firstFrame: Frame): History {
    History(map f | f in FramesOf(firstFrame, capacity) :: InFree, map[], multiset{}, 0, map[], 0, 0, 0, 0)
  }

  function Initial(capacity: nat, firstFrame: Frame): World {
    World(EmptyPool(capacity, firstFrame), EmptyHistory(capacity, firstFrame))
  }

  // ---------- Counting reservations on a frame ----------

  ghost function PinsHeld(held: multiset<Reservation>, f: Frame): nat
    decreases |held|
  {
    if held == multiset{} then 0
    else
      var r :| r in held;
      (if r.frame == Some(f) then 1 else 0) + PinsHeld(held - multiset{r}, f)
  }

  lemma {:induction false} PinsHeldRemove(held: multiset<Reservation>, r: Reservation, f: Frame)
    requires r in held
    ensures PinsHeld(held, f) == (if r.frame == Some(f) then 1 else 0) + PinsHeld(held - multiset{r}, f)
    decreases |held|
  {
    var q :| q in held && PinsHeld(held, f) == (if q.frame == Some(f) then 1 else 0) + PinsHeld(held - multiset{q}, f);
    if q != r {
      hide PinsHeld;
      PinsHeldRemove(held - multiset{q}, r, f);
      PinsHeldRemove(held - multiset{r}, q, f);
      assert held - multiset{q} - multiset{r} == held - multiset{r} - multiset{q};
    }
  }

  lemma PinsHeldAdd(held: multiset<Reservation>, r: Reservation, f: Frame)
    ensures PinsHeld(held + multiset{r}, f) == (if r.frame == Some(f) then 1 else 0) + PinsHeld(held, f)
  {
    PinsHeldRemove(held + multiset{r}, r, f);
    assert held + multiset{r} - multiset{r} == held;
  }

  lemma {:induction false} PinsHeldNone(held: multiset<Reservation>, f: Frame)
    requires forall r :: r in held ==> r.frame != Some(f)
    ensures PinsHeld(held, f) == 0
    decreases |held|
  {
    if held != multiset{} {
      var q :| q in held && PinsHeld(held, f) == (if q.frame == Some(f) then 1 else 0) + PinsHeld(held - multiset{q}, f);
      PinsHeldNone(held - multiset{q}, f);
    }
  }

  // ---------- The invariant ----------

  /** `owner` names the one place each frame is in, and the pool's tables agree with it. */
  ghost predicate Ownership(owner: map<Frame, Owner>, free: seq<Frame>, loading: map<PageId, Frame>,
                            resident: map<PageId, Entry>)
  {
    && NoDup(free)
    && (forall i :: 0 <= i < |free| ==> free[i] in owner && owner[free[i]] == InFree)
    && (forall f :: f in owner && owner[f].InFree? ==> f in free)
    && (forall p :: p in loading ==> loading[p] in owner && owner[loading[p]] == InLoading(p))
    && (forall f :: f in owner && owner[f].InLoading? ==> owner[f].page in loading && loading[owner[f].page] == f)
    && (forall p :: p in resident ==> resident[p].frame in owner && owner[resident[p].frame] == InResident(p))
    && (forall f :: f in owner && owner[f].InResident? ==>
          owner[f].page in resident && resident[owner[f].page].frame == f)
    && (forall p :: p in resident ==> p !in loading)
  }

  /** A frame's pin count is the number of reservations out on it, and each still means its page. */
  ghost predicate Pinning(pins: map<Frame, nat>, owner: map<Frame, Owner>, loading: map<PageId, Frame>,
                          resident: map<PageId, Entry>, loads: map<PageId, Reservation>, held: multiset<Reservation>)
  {
    && pins.Keys == owner.Keys
    && (forall f :: f in owner ==>
          pins[f] == match owner[f]
                     case InLoading(_) => 1
                     case InResident(_) => PinsHeld(held, f)
                     case _ => 0)
    && loads.Keys == loading.Keys
    && (forall p :: p in loads ==> IsLoad(loads[p]) && loads[p].page == p && loading[p] == loads[p].frame.value)
    && (forall r :: r in held ==> Bound(r, resident))
  }

  /** The reservation still names the frame that holds its page. */
  ghost predicate Bound(r: Reservation, resident: map<PageId, Entry>) {
    !r.state.Bypass? && r.page in resident && r.frame == Some(resident[r.page].frame)
  }

  /** The recency list is the resident pages, the unused prefetches behind all others. */
  ghost predicate ListShape(lru: seq<PageId>, resident: map<PageId, Entry>, unused: nat) {
    && NoDup(lru)
    && (forall p :: p in resident ==> p in lru)
    && (forall i :: 0 <= i < |lru| ==> lru[i] in resident)
    && unused <= |lru|
    && (forall i :: 0 <= i < |lru| ==> (resident[lru[i]].prefetchedUnused <==> i >= |lru| - unused))
  }

  /** The pages in front are in strictly decreasing order of last demand. */
  ghost predicate DemandOrder(lru: seq<PageId>, unused: nat, last: map<PageId, nat>, clock: nat) {
    && (forall i :: 0 <= i < |lru| - unused ==> lru[i] in last && last[lru[i]] < clock)
    && (forall i, j :: 0 <= i < j < |lru| - unused ==> last[lru[i]] > last[lru[j]])
  }

  /** Conservation of pages and of admission credit since the last clear. */
  ghost predicate Counters(stats: Stats, listed: nat, unused: nat, credit: bool, h: History) {
    && h.prefetchPublished == stats.prefetchUsed + stats.prefetchPollutionEvictions + unused
    && h.published == stats.evictions + listed
    && stats.evictions == stats.prefetchPollutionEvictions + h.usedEvictions
    && stats.prefetchDemandEvictions <= h.usedEvictions
    && h.plainCharges + (if credit then 1 else 0) <= 1 + stats.prefetchUsed
  }

  ghost predicate Inv(w: World) {
    var s, h := w.s, w.h;
    && h.owner.Keys == FramesOf(s.firstFrame, s.capacity)
    && Ownership(h.owner, s.free, s.loading, s.resident)
    && Pinning(s.pins, h.owner, s.loading, s.resident, h.loads, h.held)
    && ListShape(s.lru, s.resident, s.unused)
    && DemandOrder(s.lru, s.unused, h.lastDemand, h.clock)
    && Counters(s.stats, |s.lru|, s.unused, s.credit, h)
  }

  /** The invariant from its parts; the parts stay closed. */
  lemma MakeInv(s: Pool, h: History)
    requires h.owner.Keys == FramesOf(s.firstFrame, s.capacity)
    requires Ownership(h.owner, s.free, s.loading, s.resident)
    requires Pinning(s.pins, h.owner, s.loading, s.resident, h.loads, h.held)
    requires ListShape(s.lru, s.resident, s.unused)
    requires DemandOrder(s.lru, s.unused, h.lastDemand, h.clock)
    requires Counters(s.stats, |s.lru|, s.unused, s.credit, h)
    ensures Inv(World(s, h))
  {
    hide Ownership, Pinning, ListShape, DemandOrder, Counters;
  }

  lemma InvImpliesShape(w: World)
    requires Inv(w)
    ensures Shape(w.s)
  {
  }

  lemma InitialInv(capacity: nat, firstFrame: Frame)
    ensures Inv(Initial(capacity, firstFrame))
  {
    var w := Initial(capacity, firstFrame);
    assert w.s.pins.Keys == FramesOf(firstFrame, capacity);
    assert w.h.owner.Keys == FramesOf(firstFrame, capacity);
    forall i | 0 <= i < |w.s.free| ensures w.s.free[i] in w.h.owner {
      assert w.s.free[i] in FramesOf(firstFrame, capacity);
    }
  }

  // ---------- Operations with their history ----------

  datatype Op =
    | OpReserve(page: PageId, access: Access, wait: bool, coalesced: bool)
    | OpTryReserveHit(page: PageId, access: Access)
    | OpPublish(reservation: Reservation, success: bool)
    | OpRelease(reservation: Reservation)
    | OpClear
    | OpReset(capacity: nat)

  /** What the pool's interface asks of a client that publishes or releases. */
  ghost predicate Allowed(w: World, op: Op) {
    match op
    case OpPublish(r, _) => IsLoad(r) ==> r.page in w.h.loads && w.h.loads[r.page] == r
    case OpRelease(r) => r.frame.Some? && !r.state.Bypass? ==> r in w.h.held
    case _ => true
  }

  function HitHistory(h: History, page: PageId, access: Access, out: Outcome): History {
    if !out.Reserved? then h
    else
      var held := h.(held := h.held + multiset{out.reservation});
      if access.Demand? then held.(lastDemand := h.lastDemand[page := h.clock], clock := h.clock + 1) else held
  }

  /** The history of a miss, read off the state before and after it. */
  function TakeHistory(s: Pool, h: History, access: Access): History
    requires Shape(s)
  {
    if |s.free| > 0 then h.(owner := h.owner[s.free[|s.free| - 1] := Detached])
    else
      var (t, e) := EvictFor(s, access);
      if !e.Evicted? then h
      else
        var charged := t.stats.prefetchDemandEvictions != s.stats.prefetchDemandEvictions;
        var polluted := t.stats.prefetchPollutionEvictions != s.stats.prefetchPollutionEvictions;
        h.(owner := h.owner[e.frame := Detached],
           usedEvictions := h.usedEvictions + if polluted then 0 else 1,
           plainCharges := h.plainCharges + if charged && access.Prefetch? then 1 else 0)
  }

  function MissHistory(s: Pool, h: History, page: PageId, access: Access, out: Outcome): History
    requires Shape(s)
  {
    if s.capacity == 0 then h
    else
      var t := TakeHistory(CountMiss(s, access), h, access);
      if out.Reserved? && IsLoad(out.reservation) then
        t.(owner := t.owner[out.reservation.frame.value := InLoading(page)],
           loads := t.loads[page := out.reservation])
      else t
  }

  function PublishHistory(h: History, r: Reservation, success: bool): History
    requires IsLoad(r)
  {
    if success then
      var g := h.(owner := h.owner[r.frame.value := InResident(r.page)],
                  loads := h.loads - {r.page},
                  held := h.held + multiset{r},
                  published := h.published + 1);
      if IsPrefetch(r.access) then g.(prefetchPublished := h.prefetchPublished + 1)
      else g.(lastDemand := h.lastDemand[r.page := h.clock], clock := h.clock + 1)
    else h.(owner := h.owner[r.frame.value := InFree], loads := h.loads - {r.page})
  }

  datatype Reply = Replied(outcome: Outcome) | Done | Failed(error: Error)

  function ToReply(e: Option<Error>): Reply {
    if e.None? then Done else Failed(e.value)
  }

  /** One locked section of the pool and what an observer adds to the history. */
  function Apply(w: World, op: Op): (World, Reply)
    requires Shape(w.s)
  {
    match op
    case OpReserve(page, access, wait, coalesced) =>
      var (t, out) := ReservePass(w.s, page, access, wait, coalesced);
      var h := if page in w.s.resident then HitHistory(w.h, page, access, out)
               else if page in w.s.loading then w.h
               else MissHistory(w.s, w.h, page, access, out);
      (World(t, h), Replied(out))
    case OpTryReserveHit(page, access) =>
      var (t, out) := TryReserveHit(w.s, page, access);
      (World(t, if page in w.s.resident then HitHistory(w.h, page, access, out) else w.h), Replied(out))
    case OpPublish(r, success) =>
      var (t, e) := Publish(w.s, r, success);
      (World(t, if IsLoad(r) && e.None? then PublishHistory(w.h, r, success) else w.h), ToReply(e))
    case OpRelease(r) =>
      var (t, e) := Release(w.s, r);
      (World(t, if r.frame.Some? && !r.state.Bypass? && e.None? then w.h.(held := w.h.held - multiset{r}) else w.h),
       ToReply(e))
    case OpClear =>
      var (t, e) := Clear(w.s);
      (World(t, if e.None? then EmptyHistory(t.capacity, t.firstFrame) else w.h), ToReply(e))
    case OpReset(capacity) =>
      var (t, e) := ResetCapacity(w.s, capacity);
      (World(t, if e.None? then EmptyHistory(t.capacity, t.firstFrame) else w.h), ToReply(e))
  }

  // ---------- The recency list under each primitive change ----------

  function UnusedWithout(resident: map<PageId, Entry>, unused: nat, page: PageId): int
    requires page in resident
  {
    if resident[page].prefetchedUnused then unused - 1 else unused
  }

  lemma DemandKeepsShape(lru: seq<PageId>, resident: map<PageId, Entry>, unused: nat, i: nat, lru': seq<PageId>)
    requires ListShape(lru, resident, unused) && MovedToFront(lru, lru', i)
    ensures UnusedWithout(resident, unused, lru[i]) >= 0
    ensures ListShape(lru', resident[lru[i] := Entry(resident[lru[i]].frame, false)],
                      UnusedWithout(resident, unused, lru[i]))
  {
    MovedKeepsElements(lru, lru', i);
    var page := lru[i];
    var resident' := resident[page := Entry(resident[page].frame, false)];
    var unused' := UnusedWithout(resident, unused, page);
    forall j | 0 <= j < |lru'|
      ensures lru'[j] in resident'
      ensures resident'[lru'[j]].prefetchedUnused <==> j >= |lru'| - unused'
    {
      if j == 0 {
      } else if j <= i {
        assert lru'[j] == lru[j - 1] && lru[j - 1] != page;
      } else {
        assert lru'[j] == lru[j] && lru[j] != page;
      }
    }
  }

  lemma DemandKeepsOrder(lru: seq<PageId>, unused: nat, last: map<PageId, nat>, clock: nat, i: nat,
                         lru': seq<PageId>, unused': nat)
    requires NoDup(lru) && unused <= |lru| && DemandOrder(lru, unused, last, clock) && MovedToFront(lru, lru', i)
    requires unused' == if i < |lru| - unused then unused else unused - 1
    ensures DemandOrder(lru', unused', last[lru[i] := clock], clock + 1)
  {
    var front := |lru| - unused';
    forall j | 1 <= j < front
      ensures lru'[j] != lru[i] && lru'[j] in last && last[lru'[j]] < clock
    {
      assert lru'[j] == lru[if j <= i then j - 1 else j];
    }
    forall j, k | 1 <= j < k < front ensures last[lru'[j]] > last[lru'[k]] {
      assert lru'[j] == lru[if j <= i then j - 1 else j];
      assert lru'[k] == lru[if k <= i then k - 1 else k];
    }
  }

  lemma RemoveKeepsList(lru: seq<PageId>, resident: map<PageId, Entry>, unused: nat,
                        last: map<PageId, nat>, clock: nat, i: nat, lru': seq<PageId>)
    requires ListShape(lru, resident, unused) && DemandOrder(lru, unused, last, clock)
    requires Removed(lru, lru', i)
    ensures UnusedWithout(resident, unused, lru[i]) >= 0
    ensures ListShape(lru', resident - {lru[i]}, UnusedWithout(resident, unused, lru[i]))
    ensures DemandOrder(lru', UnusedWithout(resident, unused, lru[i]), last, clock)
  {
    RemovedKeepsElements(lru, lru', i);
    var page := lru[i];
    var unused' := UnusedWithout(resident, unused, page);
    forall j | 0 <= j < |lru'|
      ensures lru'[j] in resident - {page}
      ensures resident[lru'[j]].prefetchedUnused <==> j >= |lru'| - unused'
    {
      if j < i {
        assert lru'[j] == lru[j] && lru[j] != page;
      } else {
        assert lru'[j] == lru[j + 1] && lru[j + 1] != page;
      }
    }
    assert ListShape(lru', resident - {page}, unused');
  }

  lemma AppendKeepsList(lru: seq<PageId>, resident: map<PageId, Entry>, unused: nat,
                        last: map<PageId, nat>, clock: nat, page: PageId, frame: Frame)
    requires ListShape(lru, resident, unused) && DemandOrder(lru, unused, last, clock)
    requires page !in resident
    ensures ListShape(lru + [page], resident[page := Entry(frame, true)], unused + 1)
    ensures DemandOrder(lru + [page], unused + 1, last, clock)
    ensures ListShape([page] + lru, resident[page := Entry(frame, false)], unused)
    ensures DemandOrder([page] + lru, unused, last[page := clock], clock + 1)
  {
  }

  // ---------- Ownership under each primitive change ----------

  lemma DetachFree(owner: map<Frame, Owner>, free: seq<Frame>, loading: map<PageId, Frame>,
                   resident: map<PageId, Entry>)
    requires Ownership(owner, free, loading, resident) && |free| > 0
    ensures var n := |free| - 1;
      Ownership(owner[free[n] := Detached], free[..n], loading, resident)
  {
    var n := |free| - 1;
    forall f | f in owner && owner[f].InFree? && f != free[n] ensures f in free[..n] {
      var k := IndexOf(free, f);
      assert free[..n][k] == f;
    }
  }

  lemma DetachPage(owner: map<Frame, Owner>, free: seq<Frame>, loading: map<PageId, Frame>,
                   resident: map<PageId, Entry>, page: PageId)
    requires Ownership(owner, free, loading, resident) && page in resident
    ensures Ownership(owner[resident[page].frame := Detached], free, loading, resident - {page})
  {
  }

  lemma ClaimOwnership(owner: map<Frame, Owner>, free: seq<Frame>, loading: map<PageId, Frame>,
                       resident: map<PageId, Entry>, page: PageId, frame: Frame)
    requires Ownership(owner, free, loading, resident)
    requires page !in resident && page !in loading && frame in owner && owner[frame] == Detached
    ensures Ownership(owner[frame := InLoading(page)], free, loading[page := frame], resident)
  {
  }

  lemma LoadedOwnership(owner: map<Frame, Owner>, free: seq<Frame>, loading: map<PageId, Frame>,
                        resident: map<PageId, Entry>, page: PageId, unused: bool)
    requires Ownership(owner, free, loading, resident) && page in loading
    ensures Ownership(owner[loading[page] := InResident(page)], free, loading - {page},
                      resident[page := Entry(loading[page], unused)])
  {
  }

  lemma FailedOwnership(owner: map<Frame, Owner>, free: seq<Frame>, loading: map<PageId, Frame>,
                        resident: map<PageId, Entry>, page: PageId)
    requires Ownership(owner, free, loading, resident) && page in loading
    ensures Ownership(owner[loading[page] := InFree], free + [loading[page]], loading - {page}, resident)
  {
    var free', frame := free + [loading[page]], loading[page];
    assert free'[|free|] == frame;
    forall f | f in owner && (owner[f].InFree? || f == frame) ensures f in free' {
    }
  }

  lemma MarkUsedOwnership(owner: map<Frame, Owner>, free: seq<Frame>, loading: map<PageId, Frame>,
                          resident: map<PageId, Entry>, page: PageId)
    requires Ownership(owner, free, loading, resident) && page in resident
    ensures Ownership(owner, free, loading, resident[page := Entry(resident[page].frame, false)])
  {
  }

  // ---------- Pins under each primitive change ----------

  lemma HeldPins(held: multiset<Reservation>, r: Reservation)
    requires r in held && r.frame.Some?
    ensures PinsHeld(held, r.frame.value) > 0
  {
    PinsHeldRemove(held, r, r.frame.value);
  }

  lemma HitPinning(pins: map<Frame, nat>, owner: map<Frame, Owner>, loading: map<PageId, Frame>,
                   resident: map<PageId, Entry>, loads: map<PageId, Reservation>, held: multiset<Reservation>,
                   r: Reservation)
    requires Pinning(pins, owner, loading, resident, loads, held) && Bound(r, resident)
    requires r.frame.value in owner && owner[r.frame.value] == InResident(r.page)
    ensures Pinning(pins[r.frame.value := pins[r.frame.value] + 1], owner, loading, resident, loads,
                    held + multiset{r})
  {
    forall f: Frame ensures PinsHeld(held + multiset{r}, f) == (if r.frame == Some(f) then 1 else 0) + PinsHeld(held, f) {
      PinsHeldAdd(held, r, f);
    }
  }

  lemma ReleasePinning(pins: map<Frame, nat>, owner: map<Frame, Owner>, loading: map<PageId, Frame>,
                       resident: map<PageId, Entry>, loads: map<PageId, Reservation>, held: multiset<Reservation>,
                       r: Reservation)
    requires Pinning(pins, owner, loading, resident, loads, held) && r in held
    requires r.frame.value in owner && owner[r.frame.value] == InResident(r.page)
    ensures pins[r.frame.value] > 0
    ensures Pinning(pins[r.frame.value := pins[r.frame.value] - 1], owner, loading, resident, loads,
                    held - multiset{r})
  {
    forall f: Frame ensures PinsHeld(held, f) == (if r.frame == Some(f) then 1 else 0) + PinsHeld(held - multiset{r}, f) {
      PinsHeldRemove(held, r, f);
    }
  }

  lemma MarkUsedPinning(pins: map<Frame, nat>, owner: map<Frame, Owner>, loading: map<PageId, Frame>,
                        resident: map<PageId, Entry>, loads: map<PageId, Reservation>, held: multiset<Reservation>,
                        page: PageId)
    requires Pinning(pins, owner, loading, resident, loads, held) && page in resident
    ensures Pinning(pins, owner, loading, resident[page := Entry(resident[page].frame, false)], loads, held)
  {
  }

  /** An unpinned page is named by no reservation that is still out. */
  lemma EvictPinning(pins: map<Frame, nat>, owner: map<Frame, Owner>, loading: map<PageId, Frame>,
                     resident: map<PageId, Entry>, loads: map<PageId, Reservation>, held: multiset<Reservation>,
                     page: PageId)
    requires Pinning(pins, owner, loading, resident, loads, held) && page in resident
    requires resident[page].frame in owner && owner[resident[page].frame] == InResident(page)
    requires pins[resident[page].frame] == 0
    ensures Pinning(pins, owner[resident[page].frame := Detached], loading, resident - {page}, loads, held)
  {
    var frame := resident[page].frame;
    forall r | r in held ensures Bound(r, resident - {page}) {
      if r.page == page {
        HeldPins(held, r);
        assert false;
      }
    }
  }

  lemma ClaimPinning(pins: map<Frame, nat>, owner: map<Frame, Owner>, loading: map<PageId, Frame>,
                     resident: map<PageId, Entry>, loads: map<PageId, Reservation>, held: multiset<Reservation>,
                     r: Reservation)
    requires Pinning(pins, owner, loading, resident, loads, held)
    requires IsLoad(r) && r.page !in loading && r.frame.value in owner && owner[r.frame.value] == Detached
    requires forall p :: p in loading ==> loading[p] != r.frame.value
    ensures Pinning(pins[r.frame.value := pins[r.frame.value] + 1], owner[r.frame.value := InLoading(r.page)],
                    loading[r.page := r.frame.value], resident, loads[r.page := r], held)
  {
  }

  lemma LoadedPinning(pins: map<Frame, nat>, owner: map<Frame, Owner>, free: seq<Frame>, loading: map<PageId, Frame>,
                      resident: map<PageId, Entry>, loads: map<PageId, Reservation>, held: multiset<Reservation>,
                      r: Reservation, unused: bool)
    requires Ownership(owner, free, loading, resident)
    requires Pinning(pins, owner, loading, resident, loads, held)
    requires IsLoad(r) && r.page in loads && loads[r.page] == r
    ensures Pinning(pins, owner[r.frame.value := InResident(r.page)], loading - {r.page},
                    resident[r.page := Entry(r.frame.value, unused)], loads - {r.page}, held + multiset{r})
  {
    hide PinsHeld;
    var frame := r.frame.value;
    assert owner[frame] == InLoading(r.page);
    var held' := held + multiset{r};
    var resident' := resident[r.page := Entry(frame, unused)];
    PinsHeldNone(held, frame);
    forall f: Frame ensures PinsHeld(held', f) == (if f == frame then 1 else 0) + PinsHeld(held, f) {
      PinsHeldAdd(held, r, f);
    }
    forall q | q in held' ensures Bound(q, resident') {
      if q != r {
        assert Bound(q, resident);
      }
    }
    var owner' := owner[frame := InResident(r.page)];
    forall f | f in owner' && f != frame && owner'[f].InLoading? ensures owner[f] == owner'[f] {
    }
  }

  lemma FailedPinning(pins: map<Frame, nat>, owner: map<Frame, Owner>, free: seq<Frame>, loading: map<PageId, Frame>,
                      resident: map<PageId, Entry>, loads: map<PageId, Reservation>, held: multiset<Reservation>,
                      r: Reservation)
    requires Ownership(owner, free, loading, resident)
    requires Pinning(pins, owner, loading, resident, loads, held)
    requires IsLoad(r) && r.page in loads && loads[r.page] == r
    ensures pins[r.frame.value] == 1
    ensures Pinning(pins[r.frame.value := 0], owner[r.frame.value := InFree], loading - {r.page}, resident,
                    loads - {r.page}, held)
  {
    assert owner[r.frame.value] == InLoading(r.page);
  }

  // ---------- Whole operations ----------

  lemma PrefetchHitParts(s: Pool, h: History, page: PageId, r: Reservation)
    requires Inv(World(s, h)) && Shape(s) && page in s.resident
    requires r.page == page && !r.state.Bypass? && r.frame == Some(s.resident[page].frame)
    ensures Inv(World(TouchPrefetched(s, page), h.(held := h.held + multiset{r})))
  {
    hide ListShape, DemandOrder, Shape, Ownership, PinsHeld, FramesOf;
    OwnerOfResident(s, h, page);
    HitPinning(s.pins, h.owner, s.loading, s.resident, h.loads, h.held, r);
  }

  lemma OwnerOfResident(s: Pool, h: History, page: PageId)
    requires Inv(World(s, h)) && page in s.resident
    ensures s.resident[page].frame in h.owner && h.owner[s.resident[page].frame] == InResident(page)
  {
    hide ListShape, DemandOrder, Pinning, Counters, FramesOf;
  }

  lemma PrefetchHitKeepsInv(w: World, page: PageId, access: Access, coalesced: bool)
    requires Inv(w) && Shape(w.s) && page in w.s.resident && IsPrefetch(access)
    ensures var (t, out) := HitResident(w.s, page, access, coalesced);
      && out.Reserved? && out.reservation.state.Hit?
      && Inv(World(t, HitHistory(w.h, page, access, out)))
  {
    hide Inv, Shape, TouchPrefetched;
    PrefetchHitParts(w.s, w.h, page, HitOf(w.s, page, access, coalesced));
  }

  lemma DemandHitShape(s: Pool, h: History, page: PageId)
    requires Inv(World(s, h)) && Shape(s) && page in s.resident
    ensures var t := TouchDemanded(s, page);
      && ListShape(t.lru, t.resident, t.unused)
      && MovedToFront(s.lru, t.lru, IndexOf(s.lru, page))
      && t.unused == UnusedWithout(s.resident, s.unused, page) >= 0
      && (t.unused == if IndexOf(s.lru, page) < |s.lru| - s.unused then s.unused else s.unused - 1)
  {
    hide Ownership, Pinning, DemandOrder, Counters, Shape;
    var i := IndexOf(s.lru, page);
    var t := TouchDemanded(s, page);
    assert MovedToFront(s.lru, t.lru, i);
    DemandKeepsShape(s.lru, s.resident, s.unused, i, t.lru);
  }

  lemma DemandHitList(s: Pool, h: History, page: PageId)
    requires Inv(World(s, h)) && Shape(s) && page in s.resident
    ensures var t := TouchDemanded(s, page);
      && ListShape(t.lru, t.resident, t.unused)
      && DemandOrder(t.lru, t.unused, h.lastDemand[page := h.clock], h.clock + 1)
      && (s.resident[page].prefetchedUnused ==> s.unused > 0)
  {
    hide Ownership, Pinning, DemandOrder, Counters, Shape, MovedToFront, TouchDemanded;
    DemandHitShape(s, h, page);
    var i, t := IndexOf(s.lru, page), TouchDemanded(s, page);
    DemandKeepsOrder(s.lru, s.unused, h.lastDemand, h.clock, i, t.lru, t.unused);
  }

  lemma DemandHitPins(s: Pool, h: History, page: PageId, r: Reservation)
    requires Inv(World(s, h)) && Shape(s) && page in s.resident
    requires r.page == page && !r.state.Bypass? && r.frame == Some(s.resident[page].frame)
    ensures var t := TouchDemanded(s, page);
      && Ownership(h.owner, t.free, t.loading, t.resident)
      && Pinning(t.pins, h.owner, t.loading, t.resident, h.loads, h.held + multiset{r})
  {
    hide ListShape, DemandOrder, Counters, Shape, PinsHeld;
    MarkUsedOwnership(h.owner, s.free, s.loading, s.resident, page);
    HitPinning(s.pins, h.owner, s.loading, s.resident, h.loads, h.held, r);
    MarkUsedPinning(TouchDemanded(s, page).pins, h.owner, s.loading, s.resident, h.loads, h.held + multiset{r}, page);
  }

  lemma DemandHitCounters(s: Pool, h: History, page: PageId, r: Reservation)
    requires Inv(World(s, h)) && Shape(s) && page in s.resident
    ensures var t := TouchDemanded(s, page);
      var g := h.(held := h.held + multiset{r}, lastDemand := h.lastDemand[page := h.clock], clock := h.clock + 1);
      && Counters(t.stats, |t.lru|, t.unused, t.credit, g)
      && (s.resident[page].prefetchedUnused ==> s.unused > 0)
      && h.owner.Keys == FramesOf(t.firstFrame, t.capacity)
  {
    hide Ownership, Pinning, DemandOrder, MoveToFront, IndexOf, Shape;
    DemandHitList(s, h, page);
  }

  lemma DemandHitParts(s: Pool, h: History, page: PageId, r: Reservation)
    requires Inv(World(s, h)) && Shape(s) && page in s.resident
    requires r.page == page && !r.state.Bypass? && r.frame == Some(s.resident[page].frame)
    ensures var g := h.(held := h.held + multiset{r}, lastDemand := h.lastDemand[page := h.clock], clock := h.clock + 1);
      Inv(World(TouchDemanded(s, page), g))
  {
    hide Inv, Shape, Ownership, Pinning, ListShape, DemandOrder, Counters, TouchDemanded;
    DemandHitList(s, h, page);
    DemandHitPins(s, h, page, r);
    DemandHitCounters(s, h, page, r);
    MakeInv(TouchDemanded(s, page),
            h.(held := h.held + multiset{r}, lastDemand := h.lastDemand[page := h.clock], clock := h.clock + 1));
  }

  lemma DemandHitKeepsInv(w: World, page: PageId, coalesced: bool)
    requires Inv(w) && Shape(w.s) && page in w.s.resident
    ensures var (t, out) := HitResident(w.s, page, Demand, coalesced);
      && out.Reserved? && out.reservation.state.Hit?
      && Inv(World(t, HitHistory(w.h, page, Demand, out)))
  {
    hide Inv, Shape, TouchDemanded, Counters;
    DemandHitParts(w.s, w.h, page, HitOf(w.s, page, Demand, coalesced));
    DemandHitCounters(w.s, w.h, page, HitOf(w.s, page, Demand, coalesced));
  }

  lemma HitKeepsInv(w: World, page: PageId, access: Access, coalesced: bool)
    requires Inv(w) && Shape(w.s) && page in w.s.resident
    ensures var (t, out) := HitResident(w.s, page, access, coalesced);
      && out.Reserved? && out.reservation.state.Hit?
      && Inv(World(t, HitHistory(w.h, page, access, out)))
  {
    if access.Demand? {
      DemandHitKeepsInv(w, page, coalesced);
    } else {
      PrefetchHitKeepsInv(w, page, access, coalesced);
    }
  }

  /** A frame has been taken from wherever it was and nothing else has changed hands. */
  ghost predicate TookFrame(s: Pool, h: History, t: Pool, h': History, frame: Frame) {
    && Inv(World(t, h'))
    && frame in h.owner && !h.owner[frame].Detached?
    && frame in h'.owner && h'.owner[frame] == Detached
    && t.capacity == s.capacity && t.firstFrame == s.firstFrame
    && t.loading == s.loading && t.resident.Keys <= s.resident.Keys && t.pins == s.pins
    && h'.loads == h.loads && h'.held == h.held
    && h'.owner == h.owner[frame := Detached]
  }

  lemma PopFreeTakesFrame(s: Pool, h: History, access: Access)
    requires Inv(World(s, h)) && Shape(s) && |s.free| > 0
    ensures TookFrame(s, h, PopFree(s), TakeHistory(s, h, access), s.free[|s.free| - 1])
  {
    hide Pinning, ListShape, DemandOrder, EvictFor, Shape;
    DetachFree(h.owner, s.free, s.loading, s.resident);
    DetachFreePinning(s, h);
  }

  lemma DetachFreePinning(s: Pool, h: History)
    requires Inv(World(s, h)) && |s.free| > 0
    ensures var frame := s.free[|s.free| - 1];
      && frame in h.owner && h.owner[frame].InFree?
      && Pinning(s.pins, h.owner[frame := Detached], s.loading, s.resident, h.loads, h.held)
  {
    hide ListShape, DemandOrder, Counters;
  }

  lemma EvictAtTakesFrame(s: Pool, h: History, i: nat)
    requires Inv(World(s, h)) && Shape(s) && i < |s.lru|
    requires Eligible(s, false, s.lru[i])
    ensures var entry := s.resident[s.lru[i]];
      && (entry.prefetchedUnused ==> s.unused > 0)
      && TookFrame(s, h, EvictAt(s, i),
                   h.(owner := h.owner[entry.frame := Detached],
                      usedEvictions := h.usedEvictions + if entry.prefetchedUnused then 0 else 1),
                   entry.frame)
  {
    hide Inv, Ownership, Pinning, ListShape, DemandOrder, Counters, FramesOf;
    var page := s.lru[i];
    var entry := s.resident[page];
    var h' := h.(owner := h.owner[entry.frame := Detached],
                 usedEvictions := h.usedEvictions + if entry.prefetchedUnused then 0 else 1);
    EvictedLists(s, h, i);
    EvictedFrames(s, h, page);
    MakeInv(EvictAt(s, i), h');
  }

  lemma EvictedLists(s: Pool, h: History, i: nat)
    requires Inv(World(s, h)) && Shape(s) && i < |s.lru|
    ensures var entry := s.resident[s.lru[i]];
      && (entry.prefetchedUnused ==> s.unused > 0)
      && var t, used := EvictAt(s, i), h.usedEvictions + if entry.prefetchedUnused then 0 else 1;
        && ListShape(t.lru, t.resident, t.unused) && DemandOrder(t.lru, t.unused, h.lastDemand, h.clock)
        && forall owner :: Counters(t.stats, |t.lru|, t.unused, t.credit, h.(owner := owner, usedEvictions := used))
  {
    hide Ownership, Pinning, DemandOrder, FramesOf, Shape;
    ListedResident(s, i);
    RemoveKeepsList(s.lru, s.resident, s.unused, h.lastDemand, h.clock, i, RemoveAt(s.lru, i));
  }

  lemma ListedResident(s: Pool, i: nat)
    requires Shape(s) && i < |s.lru|
    ensures s.lru[i] in s.resident
  {
  }

  lemma EvictedFrames(s: Pool, h: History, page: PageId)
    requires Inv(World(s, h)) && Shape(s) && page in s.resident && Eligible(s, false, page)
    ensures var frame := s.resident[page].frame;
      && frame in h.owner && !h.owner[frame].Detached?
      && h.owner[frame := Detached].Keys == h.owner.Keys == FramesOf(s.firstFrame, s.capacity)
      && Ownership(h.owner[frame := Detached], s.free, s.loading, s.resident - {page})
      && Pinning(s.pins, h.owner[frame := Detached], s.loading, s.resident - {page}, h.loads, h.held)
  {
    hide ListShape, DemandOrder, Counters, FramesOf, Shape, Pinning;
    OwnerOfResident(s, h, page);
    DetachPage(h.owner, s.free, s.loading, s.resident, page);
    EvictPinning(s.pins, h.owner, s.loading, s.resident, h.loads, h.held, page);
  }

  lemma SelectVictimTakesFrame(s: Pool, h: History, requireUnused: bool)
    requires Inv(World(s, h)) && Shape(s)
    ensures var (t, e) := SelectVictim(s, requireUnused);
      && !e.Underflow?
      && (e.Evicted? ==>
            var polluted := t.stats.prefetchPollutionEvictions != s.stats.prefetchPollutionEvictions;
            && TookFrame(s, h, t, h.(owner := h.owner[e.frame := Detached],
                                     usedEvictions := h.usedEvictions + if polluted then 0 else 1), e.frame)
            && t.stats.prefetchDemandEvictions == s.stats.prefetchDemandEvictions
            && t.credit == s.credit)
  {
    hide Inv, TookFrame, Shape, LastEligible, RemoveAt;
    var c := LastEligible(s, requireUnused, |s.lru|);
    if c.Some? {
      EvictAtTakesFrame(s, h, c.value);
    }
  }

  /** When the first scan finds no unpinned unused prefetch, the second cannot take one. */
  lemma SecondScanSparesPrefetch(s: Pool, h: History)
    requires Inv(World(s, h)) && Shape(s)
    requires s.unused != 0 ==> SelectVictim(s, true).1.NoVictim?
    ensures var c := LastEligible(s, false, |s.lru|);
      && (c.Some? ==> !s.resident[s.lru[c.value]].prefetchedUnused)
      && SelectVictim(s, false).0.stats.prefetchPollutionEvictions == s.stats.prefetchPollutionEvictions
  {
    SelectVictimTakesFrame(s, h, true);
  }

  lemma ChargeTakesFrame(s: Pool, h: History, t: Pool, h': History, frame: Frame, access: Access)
    requires TookFrame(s, h, t, h', frame)
    requires MayEvictDemand(t, access) && t.stats.prefetchDemandEvictions < h'.usedEvictions
    ensures TookFrame(s, h, ChargeDemandEviction(t, access),
                      h'.(plainCharges := h'.plainCharges + if access.Prefetch? then 1 else 0), frame)
  {
  }

  lemma UnchargedTakesFrame(s: Pool, h: History, access: Access, requireUnused: bool)
    requires Inv(World(s, h)) && Shape(s) && |s.free| == 0
    requires EvictFor(s, access) == SelectVictim(s, requireUnused)
    ensures var (t, e) := EvictFor(s, access);
      e.Evicted? ==> TookFrame(s, h, t, TakeHistory(s, h, access), e.frame)
  {
    hide Inv, TookFrame, SelectVictim, EvictFor;
    SelectVictimTakesFrame(s, h, requireUnused);
  }

  lemma ChargedTakesFrame(s: Pool, h: History, access: Access)
    requires Inv(World(s, h)) && Shape(s) && |s.free| == 0
    requires s.unused != 0 ==> SelectVictim(s, true).1.NoVictim?
    requires MayEvictDemand(s, access) && SelectVictim(s, false).1.Evicted?
    requires EvictFor(s, access) == (ChargeDemandEviction(SelectVictim(s, false).0, access), SelectVictim(s, false).1)
    ensures var (t, e) := EvictFor(s, access);
      TookFrame(s, h, t, TakeHistory(s, h, access), e.frame)
  {
    hide Inv, TookFrame, SelectVictim, EvictFor;
    DemandEvictionCounted(s, h);
    SelectVictimTakesFrame(s, h, false);
    SecondScanSparesPrefetch(s, h);
    var (t, e) := SelectVictim(s, false);
    var h' := h.(owner := h.owner[e.frame := Detached], usedEvictions := h.usedEvictions + 1);
    ChargeTakesFrame(s, h, t, h', e.frame, access);
  }

  lemma EvictForTakesFrame(s: Pool, h: History, access: Access)
    requires Inv(World(s, h)) && Shape(s) && |s.free| == 0
    ensures var (t, e) := EvictFor(s, access);
      && !e.Underflow?
      && (e.Evicted? ==> TookFrame(s, h, t, TakeHistory(s, h, access), e.frame))
  {
    hide Inv, TookFrame, SelectVictim, TakeHistory;
    SelectVictimTakesFrame(s, h, true);
    SelectVictimTakesFrame(s, h, false);
    if !IsPrefetch(access) {
      UnchargedTakesFrame(s, h, access, false);
    } else if s.unused != 0 && !SelectVictim(s, true).1.NoVictim? {
      UnchargedTakesFrame(s, h, access, true);
    } else if MayEvictDemand(s, access) && SelectVictim(s, false).1.Evicted? {
      ChargedTakesFrame(s, h, access);
    }
  }

  lemma DemandEvictionCounted(s: Pool, h: History)
    requires Inv(World(s, h))
    ensures s.stats.prefetchDemandEvictions <= h.usedEvictions
  {
  }

  lemma ClaimKeepsInv(s: Pool, h: History, t: Pool, h': History, frame: Frame, page: PageId, access: Access,
                      coalesced: bool, evicted: bool)
    requires TookFrame(s, h, t, h', frame) && page !in s.resident && page !in s.loading
    requires page < CHUNK_NO_LIMIT
    ensures var (u, out) := ClaimFrame(t, frame, page, access, coalesced, evicted);
      && out.Reserved? && IsLoad(out.reservation)
      && Inv(World(u, h'.(owner := h'.owner[frame := InLoading(page)], loads := h'.loads[page := out.reservation])))
  {
    hide ListShape, DemandOrder, PinsHeld, FramesOf;
    var (u, out) := ClaimFrame(t, frame, page, access, coalesced, evicted);
    ClaimFrees(t, h', frame);
    ClaimOwnership(h'.owner, t.free, t.loading, t.resident, page, frame);
    ClaimPinning(t.pins, h'.owner, t.loading, t.resident, h'.loads, h'.held, out.reservation);
  }

  lemma ClaimFrees(t: Pool, h: History, frame: Frame)
    requires Inv(World(t, h)) && frame in h.owner && h.owner[frame] == Detached
    ensures frame in t.pins && forall p :: p in t.loading ==> t.loading[p] != frame
    ensures h.owner[frame := InFree].Keys == h.owner.Keys
  {
    hide ListShape, DemandOrder, Counters, PinsHeld, FramesOf;
  }

  lemma CountingKeepsInv(w: World, access: Access)
    requires Inv(w)
    ensures Inv(World(CountMiss(w.s, access), w.h)) && Shape(CountMiss(w.s, access))
    ensures Inv(World(CountRejection(w.s, access), w.h))
    ensures Inv(World(CountCoalesced(w.s), w.h))
  {
    hide DemandOrder, PinsHeld, CountMiss, CountRejection, CountCoalesced;
  }

  predicate MissTakes(s: Pool, access: Access)
    requires Shape(s)
  {
    s.capacity > 0 && (|s.free| > 0 || EvictFor(CountMiss(s, access), access).1.Evicted?)
  }

  lemma TakingNeedsRoom(s: Pool, access: Access)
    requires Shape(s) && MissTakes(s, access)
    ensures s.capacity > 0
  {
  }

  lemma FreeMissUnfolds(s: Pool, page: PageId, access: Access, coalesced: bool)
    requires Shape(s) && s.capacity > 0 && |s.free| > 0
    ensures MissPage(s, page, access, coalesced)
         == ClaimFrame(PopFree(CountMiss(s, access)), s.free[|s.free| - 1], page, access, coalesced, false)
  {
    hide ClaimFrame, PopFree, Shape, EvictFor;
  }

  lemma EvictedMissUnfolds(s: Pool, page: PageId, access: Access, coalesced: bool)
    requires Shape(s) && s.capacity > 0 && |s.free| == 0
    requires EvictFor(CountMiss(s, access), access).1.Evicted?
    ensures var (t, e) := EvictFor(CountMiss(s, access), access);
      MissPage(s, page, access, coalesced) == ClaimFrame(t, e.frame, page, access, coalesced, true)
  {
    hide EvictFor, ClaimFrame, Shape;
  }

  lemma RejectedMissUnfolds(s: Pool, h: History, page: PageId, access: Access, coalesced: bool)
    requires Shape(s) && Inv(World(CountMiss(s, access), h)) && !MissTakes(s, access)
    ensures var (t, out) := MissPage(s, page, access, coalesced);
      && out == Reserved(BypassOf(page, coalesced, access))
      && (t == CountMiss(s, access) || t == CountRejection(CountMiss(s, access), access))
      && MissHistory(s, h, page, access, out) == h
  {
    hide Inv, EvictFor, Shape, CountMiss, CountRejection, TookFrame;
    if s.capacity > 0 {
      EvictForTakesFrame(CountMiss(s, access), h, access);
    }
  }

  lemma MissHistoryUnfolds(s: Pool, h: History, page: PageId, access: Access, out: Outcome)
    requires Shape(s) && s.capacity > 0
    ensures var taken := TakeHistory(CountMiss(s, access), h, access);
      MissHistory(s, h, page, access, out)
      == if out.Reserved? && IsLoad(out.reservation)
         then taken.(owner := taken.owner[out.reservation.frame.value := InLoading(page)],
                     loads := taken.loads[page := out.reservation])
         else taken
  {
    hide Shape, TakeHistory, CountMiss;
  }

  /** The miss has taken `frame`, leaving the pool at `t`, and goes on to claim it. */
  ghost predicate MissClaims(w: World, page: PageId, access: Access, coalesced: bool,
                             t: Pool, frame: Frame, evicted: bool)
    requires Shape(w.s)
  {
    var s := CountMiss(w.s, access);
    && TookFrame(s, w.h, t, TakeHistory(s, w.h, access), frame)
    && frame in t.pins
    && MissPage(w.s, page, access, coalesced) == ClaimFrame(t, frame, page, access, coalesced, evicted)
  }

  lemma TookFramePinned(s: Pool, h: History, t: Pool, h': History, frame: Frame)
    requires TookFrame(s, h, t, h', frame)
    ensures frame in t.pins && Inv(World(t, h'))
  {
    hide Ownership, ListShape, DemandOrder, Counters;
  }

  lemma MissTakesFrame(w: World, page: PageId, access: Access, coalesced: bool)
    returns (t: Pool, frame: Frame, evicted: bool)
    requires Inv(w) && Shape(w.s) && MissTakes(w.s, access)
    ensures MissClaims(w, page, access, coalesced, t, frame, evicted)
  {
    hide Inv, Shape, TookFrame, EvictFor, CountMiss, MissPage, TakeHistory;
    CountingKeepsInv(w, access);
    var s := CountMiss(w.s, access);
    if |w.s.free| > 0 {
      PopFreeTakesFrame(s, w.h, access);
      FreeMissUnfolds(w.s, page, access, coalesced);
      t, frame, evicted := PopFree(s), s.free[|s.free| - 1], false;
    } else {
      EvictForTakesFrame(s, w.h, access);
      EvictedMissUnfolds(w.s, page, access, coalesced);
      t, frame, evicted := EvictFor(s, access).0, EvictFor(s, access).1.frame, true;
    }
    TookFramePinned(s, w.h, t, TakeHistory(s, w.h, access), frame);
  }

  lemma ClaimedMissKeepsInv(w: World, page: PageId, access: Access, coalesced: bool,
                            t: Pool, frame: Frame, evicted: bool)
    requires Shape(w.s) && page !in w.s.resident && page !in w.s.loading && w.s.capacity > 0
    requires MissClaims(w, page, access, coalesced, t, frame, evicted)
    ensures var (u, out) := MissPage(w.s, page, access, coalesced);
      && Inv(World(u, MissHistory(w.s, w.h, page, access, out)))
      && (out == Threw(OutOfRange) || out.Reserved?)
  {
    hide Inv, Shape, TookFrame, CountMiss, MissPage, TakeHistory, MissHistory;
    var s := CountMiss(w.s, access);
    var h' := TakeHistory(s, w.h, access);
    MissHistoryUnfolds(w.s, w.h, page, access, MissPage(w.s, page, access, coalesced).1);
    if page < CHUNK_NO_LIMIT {
      ClaimKeepsInv(s, w.h, t, h', frame, page, access, coalesced, evicted);
    } else {
      TookFramePinned(s, w.h, t, h', frame);
    }
  }

  lemma MissKeepsInv(w: World, page: PageId, access: Access, coalesced: bool)
    requires Inv(w) && Shape(w.s) && page !in w.s.resident && page !in w.s.loading
    ensures var (t, out) := MissPage(w.s, page, access, coalesced);
      && Inv(World(t, MissHistory(w.s, w.h, page, access, out)))
      && (out == Threw(OutOfRange) || out.Reserved?)
  {
    hide Inv, Shape, MissPage, MissHistory, CountMiss, CountRejection, MissClaims;
    CountingKeepsInv(w, access);
    if MissTakes(w.s, access) {
      TakingNeedsRoom(w.s, access);
      var t, frame, evicted := MissTakesFrame(w, page, access, coalesced);
      ClaimedMissKeepsInv(w, page, access, coalesced, t, frame, evicted);
    } else {
      CountingKeepsInv(World(CountMiss(w.s, access), w.h), access);
      RejectedMissUnfolds(w.s, w.h, page, access, coalesced);
    }
  }

  lemma PublishLoadedLists(w: World, r: Reservation)
    requires Inv(w) && IsLoad(r) && r.page in w.h.loads && w.h.loads[r.page] == r
    ensures MatchesLoading(w.s, r) && r.page !in w.s.resident
    ensures var t, h := PublishLoaded(w.s, r), PublishHistory(w.h, r, true);
      ListShape(t.lru, t.resident, t.unused) && DemandOrder(t.lru, t.unused, h.lastDemand, h.clock)
  {
    hide Inv, ListShape, DemandOrder;
    var s, h := w.s, w.h;
    LoadMatches(w, r);
    AppendKeepsList(s.lru, s.resident, s.unused, h.lastDemand, h.clock, r.page, r.frame.value);
  }

  lemma LoadMatches(w: World, r: Reservation)
    requires Inv(w) && IsLoad(r) && r.page in w.h.loads && w.h.loads[r.page] == r
    ensures MatchesLoading(w.s, r) && r.page !in w.s.resident
    ensures r.frame.value in w.h.owner && w.h.owner[r.frame.value] == InLoading(r.page)
    ensures ListShape(w.s.lru, w.s.resident, w.s.unused)
    ensures DemandOrder(w.s.lru, w.s.unused, w.h.lastDemand, w.h.clock)
  {
    hide ListShape, DemandOrder, Counters, FramesOf, PinsHeld;
  }

  lemma PublishLoadedFrames(w: World, r: Reservation)
    requires Inv(w) && IsLoad(r) && r.page in w.h.loads && w.h.loads[r.page] == r
    ensures MatchesLoading(w.s, r) && r.page !in w.s.resident
    ensures var t, h := PublishLoaded(w.s, r), PublishHistory(w.h, r, true);
      && h.owner.Keys == w.h.owner.Keys
      && Ownership(h.owner, t.free, t.loading, t.resident)
      && Pinning(t.pins, h.owner, t.loading, t.resident, h.loads, h.held)
  {
    var s, h, unused := w.s, w.h, IsPrefetch(r.access);
    assert MatchesLoading(s, r) && r.page !in s.resident && h.owner[r.frame.value] == InLoading(r.page);
    LoadedOwnership(h.owner, s.free, s.loading, s.resident, r.page, unused);
    LoadedPinning(s.pins, h.owner, s.free, s.loading, s.resident, h.loads, h.held, r, unused);
    assert h.owner[r.frame.value := InResident(r.page)].Keys == h.owner.Keys;
    hide Inv, Ownership, Pinning;
  }

  lemma PublishLoadedKeepsInv(w: World, r: Reservation)
    requires Inv(w) && IsLoad(r) && r.page in w.h.loads && w.h.loads[r.page] == r
    ensures MatchesLoading(w.s, r) && Inv(World(PublishLoaded(w.s, r), PublishHistory(w.h, r, true)))
  {
    hide Inv, Ownership, Pinning, ListShape, DemandOrder, Counters, PublishLoaded, PublishHistory;
    PublishLoadedLists(w, r);
    PublishLoadedFrames(w, r);
    PublishLoadedCounters(w, r);
    MakeInv(PublishLoaded(w.s, r), PublishHistory(w.h, r, true));
  }

  lemma PublishLoadedCounters(w: World, r: Reservation)
    requires Inv(w) && IsLoad(r) && MatchesLoading(w.s, r)
    ensures var t, h := PublishLoaded(w.s, r), PublishHistory(w.h, r, true);
      && Counters(t.stats, |t.lru|, t.unused, t.credit, h)
      && w.h.owner.Keys == FramesOf(t.firstFrame, t.capacity)
  {
    hide Ownership, Pinning, ListShape, DemandOrder, FramesOf;
  }

  lemma PublishFailedParts(w: World, r: Reservation)
    requires Inv(w) && IsLoad(r) && r.page in w.h.loads && w.h.loads[r.page] == r
    ensures MatchesLoading(w.s, r) && r.frame.value in w.s.pins
    ensures var t, h := PublishFailed(w.s, r), PublishHistory(w.h, r, false);
      && h.owner.Keys == w.h.owner.Keys
      && Ownership(h.owner, t.free, t.loading, t.resident)
      && Pinning(t.pins, h.owner, t.loading, t.resident, h.loads, h.held)
  {
    hide ListShape, DemandOrder, Counters, PinsHeld;
    var s, h := w.s, w.h;
    FailedOwnership(h.owner, s.free, s.loading, s.resident, r.page);
    FailedPinning(s.pins, h.owner, s.free, s.loading, s.resident, h.loads, h.held, r);
    assert h.owner[r.frame.value := InFree].Keys == h.owner.Keys;
  }

  lemma PublishFailedKeepsInv(w: World, r: Reservation)
    requires Inv(w) && IsLoad(r) && r.page in w.h.loads && w.h.loads[r.page] == r
    ensures MatchesLoading(w.s, r) && r.frame.value in w.s.pins
    ensures Inv(World(PublishFailed(w.s, r), PublishHistory(w.h, r, false)))
  {
    hide Ownership, Pinning, ListShape, DemandOrder;
    PublishFailedParts(w, r);
  }

  lemma ReleaseKeepsInv(w: World, r: Reservation)
    requires Inv(w) && r in w.h.held
    ensures var (t, e) := Release(w.s, r);
      e.None? && Inv(World(t, w.h.(held := w.h.held - multiset{r})))
  {
    hide ListShape, DemandOrder, PinsHeld, FramesOf;
    var s, h := w.s, w.h;
    assert Bound(r, s.resident);
    ReleasePinning(s.pins, h.owner, s.loading, s.resident, h.loads, h.held, r);
  }

  /** A pool whose resident pages are all unpinned has nothing out on it. */
  lemma UnpinnedMeansNothingHeld(w: World)
    requires Inv(w) && Shape(w.s) && ResidentUnpinned(w.s)
    ensures w.h.held == multiset{}
  {
    hide PinsHeld;
    if w.h.held != multiset{} {
      var r :| r in w.h.held;
      assert Bound(r, w.s.resident);
      HeldPins(w.h.held, r);
    }
  }

  lemma ClearedIsEmpty(w: World)
    requires Inv(w) && Shape(w.s) && Clear(w.s).1.None?
    ensures Clear(w.s).0 == EmptyPool(w.s.capacity, w.s.firstFrame)
  {
    hide PinsHeld, ListShape, DemandOrder;
    var s, empty := w.s, EmptyPool(w.s.capacity, w.s.firstFrame);
    forall f | f in s.pins ensures f in empty.pins && s.pins[f] == 0 {
      match w.h.owner[f]
      case InLoading(p) => assert false;
      case InResident(p) => assert p in s.resident;
      case _ =>
    }
    assert s.pins == empty.pins;
  }

  lemma ClearKeepsInv(w: World)
    requires Inv(w) && Shape(w.s)
    ensures var (t, e) := Clear(w.s);
      e.None? ==> Inv(World(t, EmptyHistory(t.capacity, t.firstFrame)))
  {
    hide Inv;
    if Clear(w.s).1.None? {
      ClearedIsEmpty(w);
      InitialInv(w.s.capacity, w.s.firstFrame);
    }
  }

  lemma ReserveKeepsInv(w: World, page: PageId, access: Access, wait: bool, coalesced: bool)
    requires Inv(w) && Shape(w.s)
    ensures var (v, reply) := Apply(w, OpReserve(page, access, wait, coalesced));
      Inv(v) && reply != Replied(Threw(LogicError))
  {
    hide Inv, HitResident, HitHistory, MissPage, MissHistory, CountCoalesced;
    CountingKeepsInv(w, access);
    if page in w.s.resident {
      HitKeepsInv(w, page, access, coalesced);
    } else if page !in w.s.loading {
      MissKeepsInv(w, page, access, coalesced);
    }
  }

  lemma TryReserveKeepsInv(w: World, page: PageId, access: Access)
    requires Inv(w) && Shape(w.s)
    ensures var (v, reply) := Apply(w, OpTryReserveHit(page, access));
      Inv(v) && reply.Replied? && reply.outcome.Reserved?
  {
    hide Inv, HitResident, HitHistory;
    if page in w.s.resident {
      HitKeepsInv(w, page, access, false);
    }
  }

  lemma PublishKeepsInv(w: World, r: Reservation, success: bool)
    requires Inv(w) && Shape(w.s) && Allowed(w, OpPublish(r, success))
    ensures var (v, reply) := Apply(w, OpPublish(r, success));
      Inv(v) && reply == Done
  {
    hide Inv, PublishLoaded, PublishFailed, PublishHistory;
    if IsLoad(r) {
      if success {
        PublishLoadedKeepsInv(w, r);
      } else {
        PublishFailedKeepsInv(w, r);
      }
    }
  }

  lemma ReleaseOpKeepsInv(w: World, r: Reservation)
    requires Inv(w) && Shape(w.s) && Allowed(w, OpRelease(r))
    ensures var (v, reply) := Apply(w, OpRelease(r));
      Inv(v) && reply == Done
  {
    hide Inv;
    if r.frame.Some? && !r.state.Bypass? {
      ReleaseKeepsInv(w, r);
    }
  }

  lemma ClearOpKeepsInv(w: World, op: Op)
    requires Inv(w) && Shape(w.s) && (op.OpClear? || op.OpReset?)
    ensures Inv(Apply(w, op).0) && !Apply(w, op).1.Replied?
  {
    hide Inv, EmptyHistory, ResidentUnpinned;
    if op.OpClear? {
      ClearKeepsInv(w);
    } else {
      InitialInv(op.capacity, w.s.firstFrame + w.s.capacity);
    }
  }

  /** No allowed operation breaks the invariant, and the only exception left is the oversized page id. */
  lemma ApplyKeepsInv(w: World, op: Op)
    requires Inv(w) && Shape(w.s) && Allowed(w, op)
    ensures Inv(Apply(w, op).0)
    ensures (op.OpPublish? || op.OpRelease?) ==> Apply(w, op).1 == Done
    ensures Apply(w, op).1 != Replied(Threw(LogicError))
  {
    hide Inv, Apply;
    match op
    case OpReserve(page, access, wait, coalesced) => ReserveKeepsInv(w, page, access, wait, coalesced);
    case OpTryReserveHit(page, access) => TryReserveKeepsInv(w, page, access);
    case OpPublish(r, success) => PublishKeepsInv(w, r, success);
    case OpRelease(r) => ReleaseOpKeepsInv(w, r);
    case _ => ClearOpKeepsInv(w, op);
  }

  // ---------- Runs ----------

  /** `v` is what some client following the interface can turn `w` into. */
  ghost predicate Run(w: World, ops: seq<Op>, v: World)
    decreases |ops|
  {
    if |ops| == 0 then v == w
    else Shape(w.s) && Allowed(w, ops[0]) && Run(Apply(w, ops[0]).0, ops[1..], v)
  }

  lemma {:induction false} RunKeepsInv(w: World, ops: seq<Op>, v: World)
    requires Inv(w) && Run(w, ops, v)
    ensures Inv(v)
    decreases |ops|
  {
    hide Inv, Apply;
    if |ops| != 0 {
      ApplyKeepsInv(w, ops[0]);
      RunKeepsInv(Apply(w, ops[0]).0, ops[1..], v);
    }
  }

  ghost predicate Reachable(v: World) {
    exists capacity, firstFrame, ops :: Run(Initial(capacity, firstFrame), ops, v)
  }

  lemma ReachableInv(v: World)
    requires Reachable(v)
    ensures Inv(v) && Shape(v.s)
  {
    hide Inv;
    var capacity, firstFrame, ops :| Run(Initial(capacity, firstFrame), ops, v);
    InitialInv(capacity, firstFrame);
    RunKeepsInv(Initial(capacity, firstFrame), ops, v);
    InvImpliesShape(v);
  }

  // ---------- What the invariant means ----------

  function Lost(owner: map<Frame, Owner>): set<Frame> {
    set f | f in owner && owner[f] == Detached
  }

  ghost predicate Loads(s: Pool, f: Frame) {
    exists p :: p in s.loading && s.loading[p] == f
  }

  ghost predicate Holds(s: Pool, f: Frame) {
    exists p :: p in s.resident && s.resident[p].frame == f
  }

  /** Every frame of a reachable pool is free, loading or resident, and only one of these, unless it was lost. */
  lemma EachFrameInOnePlace(w: World, f: Frame)
    requires Reachable(w) && f in FramesOf(w.s.firstFrame, w.s.capacity)
    ensures f in Lost(w.h.owner) ==> f !in w.s.free && !Loads(w.s, f) && !Holds(w.s, f)
    ensures f !in Lost(w.h.owner) ==> (f in w.s.free || Loads(w.s, f) || Holds(w.s, f))
    ensures !(f in w.s.free && Loads(w.s, f)) && !(f in w.s.free && Holds(w.s, f)) && !(Loads(w.s, f) && Holds(w.s, f))
  {
    ReachableInv(w);
    hide PinsHeld, ListShape, DemandOrder, Counters;
    match w.h.owner[f]
    case InLoading(p) => assert p in w.s.loading && w.s.loading[p] == f;
    case InResident(p) => assert p in w.s.resident && w.s.resident[p].frame == f;
    case _ =>
  }

  /** The pin count of a resident page's frame is the number of reservations out on that frame. */
  lemma PinsAreReservations(w: World, p: PageId)
    requires Reachable(w) && p in w.s.resident
    ensures w.s.resident[p].frame in w.s.pins
    ensures w.s.pins[w.s.resident[p].frame] == PinsHeld(w.h.held, w.s.resident[p].frame)
    ensures w.s.pins[w.s.resident[p].frame] == 0 <==> (forall r :: r in w.h.held ==> r.page != p)
  {
    ReachableInv(w);
    var f := w.s.resident[p].frame;
    if r :| r in w.h.held && r.page == p {
      assert Bound(r, w.s.resident);
      HeldPins(w.h.held, r);
    } else {
      forall r | r in w.h.held ensures r.frame != Some(f) {
        assert Bound(r, w.s.resident);
      }
      PinsHeldNone(w.h.held, f);
    }
  }

  /** A reservation that is still out keeps its frame on its page, whatever anyone else does. */
  lemma HeldFrameKeepsItsPage(w: World, op: Op, r: Reservation)
    requires Inv(w) && Shape(w.s) && Allowed(w, op) && r in w.h.held
    requires op != OpRelease(r)
    ensures var v := Apply(w, op).0;
      && r in v.h.held && r.page in v.s.resident
      && r.frame == Some(v.s.resident[r.page].frame) && r.frame == Some(w.s.resident[r.page].frame)
  {
    ApplyKeepsInv(w, op);
    var v := Apply(w, op).0;
    assert Bound(r, w.s.resident);
    HeldPins(w.h.held, r);
    assert !ResidentUnpinned(w.s) by {
      assert w.s.pins[w.s.resident[r.page].frame] > 0;
    }
    HeldStaysHeld(w, op, r);
    assert Bound(r, v.s.resident);
  }

  lemma MissKeepsHeld(s: Pool, h: History, page: PageId, access: Access, out: Outcome)
    requires Shape(s)
    ensures MissHistory(s, h, page, access, out).held == h.held
  {
    hide Shape, EvictFor, CountMiss;
  }

  lemma HeldStaysHeld(w: World, op: Op, r: Reservation)
    requires Shape(w.s) && Allowed(w, op) && r in w.h.held && op != OpRelease(r) && !ResidentUnpinned(w.s)
    ensures r in Apply(w, op).0.h.held
  {
    hide Shape, Apply, ResidentUnpinned;
    match op
    case OpReserve(_, _, _, _) => HeldThroughReserve(w, op, r);
    case OpTryReserveHit(_, _) => HeldThroughReserve(w, op, r);
    case OpPublish(_, _) => HeldThroughPublish(w, op, r);
    case OpRelease(_) => HeldThroughPublish(w, op, r);
    case _ => HeldThroughClear(w, op, r);
  }

  lemma HeldThroughReserve(w: World, op: Op, r: Reservation)
    requires Shape(w.s) && r in w.h.held && (op.OpReserve? || op.OpTryReserveHit?)
    ensures r in Apply(w, op).0.h.held
  {
    hide Shape, HitResident, MissPage, MissHistory, CountCoalesced;
    if op.OpReserve? {
      MissKeepsHeld(w.s, w.h, op.page, op.access, ReservePass(w.s, op.page, op.access, op.wait, op.coalesced).1);
    }
  }

  lemma HeldThroughPublish(w: World, op: Op, r: Reservation)
    requires Shape(w.s) && r in w.h.held && (op.OpPublish? || op.OpRelease?) && op != OpRelease(r)
    ensures r in Apply(w, op).0.h.held
  {
    hide Shape, Publish, Release;
  }

  lemma HeldThroughClear(w: World, op: Op, r: Reservation)
    requires Shape(w.s) && r in w.h.held && (op.OpClear? || op.OpReset?) && !ResidentUnpinned(w.s)
    ensures Apply(w, op).0 == w && r in Apply(w, op).0.h.held
  {
    hide Shape, ResidentUnpinned, EmptyPool, EmptyHistory;
  }

  lemma ListedAreResident(lru: seq<PageId>, resident: map<PageId, Entry>, unused: nat)
    requires ListShape(lru, resident, unused)
    ensures |lru| == |resident|
  {
    NoDupCardinality(lru);
    forall p ensures p in ToSet(lru) <==> p in resident.Keys {
      if p in lru {
        assert lru[IndexOf(lru, p)] in resident;
      }
    }
    assert ToSet(lru) == resident.Keys;
  }

  lemma UnusedAreFlagged(lru: seq<PageId>, resident: map<PageId, Entry>, unused: nat)
    requires ListShape(lru, resident, unused)
    ensures unused == |set p | p in resident && resident[p].prefetchedUnused|
  {
    var n := |lru| - unused;
    var tail := lru[n..];
    NoDupCardinality(tail);
    var flagged := set p | p in resident && resident[p].prefetchedUnused;
    forall p ensures p in flagged <==> p in ToSet(tail) {
      if p in flagged {
        var i := IndexOf(lru, p);
        assert lru[i] == p && tail[i - n] == p;
      }
      if p in tail {
        var i := IndexOf(tail, p);
        assert lru[i + n] == p;
      }
    }
    assert flagged == ToSet(tail);
  }

  /** Counters of a reachable pool balance; plain prefetches displace at most one used page per credit. */
  lemma CountersBalance(w: World)
    requires Reachable(w)
    ensures w.h.prefetchPublished ==
            w.s.stats.prefetchUsed + w.s.stats.prefetchPollutionEvictions + w.s.unused
    ensures w.h.published - w.s.stats.evictions == |w.s.resident|
    ensures w.s.stats.evictions - w.s.stats.prefetchPollutionEvictions == w.h.usedEvictions
    ensures w.s.stats.prefetchDemandEvictions <= w.h.usedEvictions
    ensures w.h.plainCharges <= 1 + w.s.stats.prefetchUsed
    ensures w.s.unused == |set p | p in w.s.resident && w.s.resident[p].prefetchedUnused|
  {
    ReachableInv(w);
    ListedAreResident(w.s.lru, w.s.resident, w.s.unused);
    UnusedAreFlagged(w.s.lru, w.s.resident, w.s.unused);
    hide Ownership, Pinning, ListShape, DemandOrder;
  }

  ghost predicate ChargesUsedPage(s: Pool, t: Pool, access: Access) {
    var charges := t.stats.prefetchDemandEvictions - s.stats.prefetchDemandEvictions;
    && 0 <= charges <= 1
    && (charges == 1 ==>
          && IsPrefetch(access)
          && (access.Prefetch? ==> s.credit && !t.credit)
          && exists p :: p in s.resident && !s.resident[p].prefetchedUnused && t.resident == s.resident - {p})
  }

  lemma ChargedScan(s: Pool, h: History, access: Access)
    requires Inv(World(s, h)) && Shape(s) && IsPrefetch(access) && MayEvictDemand(s, access)
    requires s.unused != 0 ==> SelectVictim(s, true).1.NoVictim?
    requires SelectVictim(s, false).1.Evicted?
    ensures ChargesUsedPage(s, ChargeDemandEviction(SelectVictim(s, false).0, access), access)
  {
    hide Inv, TookFrame, LastEligible, RemoveAt;
    SelectVictimTakesFrame(s, h, false);
    SecondScanSparesPrefetch(s, h);
    var c := LastEligible(s, false, |s.lru|);
    var p := s.lru[c.value];
    assert p in s.resident && SelectVictim(s, false).0.resident == s.resident - {p};
  }

  lemma EvictForCharge(s: Pool, h: History, access: Access)
    requires Inv(World(s, h)) && Shape(s) && |s.free| == 0
    ensures ChargesUsedPage(s, EvictFor(s, access).0, access)
  {
    hide Inv, SelectVictim, TookFrame, Shape;
    SelectVictimTakesFrame(s, h, true);
    SelectVictimTakesFrame(s, h, false);
    if IsPrefetch(access) && MayEvictDemand(s, access) && SelectVictim(s, false).1.Evicted? {
      if s.unused != 0 ==> SelectVictim(s, true).1.NoVictim? {
        ChargedScan(s, h, access);
        hide ChargesUsedPage;
      }
    }
  }

  lemma MissStats(s: Pool, page: PageId, access: Access, coalesced: bool)
    requires Shape(s)
    ensures var t := MissPage(s, page, access, coalesced).0;
      var m := if s.capacity > 0 && |s.free| == 0 then EvictFor(CountMiss(s, access), access).0 else CountMiss(s, access);
      && t.stats.prefetchDemandEvictions == m.stats.prefetchDemandEvictions
      && t.credit == m.credit && t.resident == m.resident
  {
    hide Shape, EvictFor;
  }

  lemma HitNeverCharges(s: Pool, page: PageId, access: Access, coalesced: bool)
    requires Shape(s) && page in s.resident
    ensures ChargesUsedPage(s, HitResident(s, page, access, coalesced).0, access)
  {
    hide Shape, MoveToFront, IndexOf;
  }

  lemma MissCharges(s: Pool, h: History, page: PageId, access: Access, coalesced: bool)
    requires Shape(s) && Inv(World(CountMiss(s, access), h))
    ensures ChargesUsedPage(s, MissPage(s, page, access, coalesced).0, access)
  {
    hide Inv, Shape, MissPage, EvictFor, CountMiss;
    MissStats(s, page, access, coalesced);
    if s.capacity > 0 && |s.free| == 0 {
      EvictForCharge(CountMiss(s, access), h, access);
    }
  }

  /** A prefetch that is charged with a demand eviction has removed a page that is not an unused prefetch. */
  lemma ChargedEvictionRemovesUsedPage(w: World, page: PageId, access: Access, wait: bool, coalesced: bool)
    requires Reachable(w) && Shape(w.s)
    ensures ChargesUsedPage(w.s, ReservePass(w.s, page, access, wait, coalesced).0, access)
  {
    hide Inv, Shape, MissPage, HitResident, CountMiss, CountCoalesced;
    ReachableInv(w);
    CountingKeepsInv(w, access);
    if page in w.s.resident {
      HitNeverCharges(w.s, page, access, coalesced);
    } else {
      MissCharges(w.s, w.h, page, access, coalesced);
    }
  }
}
