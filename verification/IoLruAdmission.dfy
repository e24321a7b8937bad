/**
  What each call on the page cache of src/io_lru_buffer_pool.cc answers in a reachable pool, how the
  statistics count it, and what becomes of the admission credit.
 */
module IoLruAdmission {
  import opened Common
  import opened IoLruPool
  import opened IoLruInvariants
  import opened IoLruReplacement

  // ---------- What a reservation answers ----------

  /** What a miss for a page that fits into a chunk id answers once it has a frame. */
  function Loaded(page: PageId, frame: Frame, coalesced: bool, evicted: bool, access: Access): Outcome {
    if page >= CHUNK_NO_LIMIT then Threw(OutOfRange)
    else Reserved(Reservation(Load, page, Some(frame), coalesced, evicted, access, false))
  }

  function LoadingWith(s: Pool, page: PageId, frame: Frame): map<PageId, Frame> {
    if page < CHUNK_NO_LIMIT then s.loading[page := frame] else s.loading
  }

  lemma FullMiss(s: Pool, page: PageId, access: Access, coalesced: bool)
    requires Shape(s) && s.capacity > 0 && |s.free| == 0
    ensures Shape(CountMiss(s, access)) && OnlyCounts(s, CountMiss(s, access))
    ensures var (t, out) := MissPage(s, page, access, coalesced);
      var (u, e) := EvictFor(CountMiss(s, access), access);
      && t.resident == u.resident && t.credit == u.credit && t.free == u.free
      && (e.NoVictim? ==> out == Reserved(BypassOf(page, coalesced, access)) && t.loading == u.loading)
      && (e.NoVictim? ==> t.stats == CountRejection(u, access).stats)
      && (e.Evicted? ==> out == Loaded(page, e.frame, coalesced, true, access) && t.stats == u.stats)
      && (e.Evicted? ==> t.loading == LoadingWith(u, page, e.frame))
  {
    hide Shape, EvictFor;
  }

  /** A miss that finds no free frame. */
  ghost predicate Displaces(w: World, page: PageId, access: Access, coalesced: bool, t: Pool, out: Outcome)
    requires Shape(w.s)
  {
    if MayDisplace(w.s, access) then
      exists victim :: VictimByPolicy(w, t, victim)
        && out == Loaded(page, w.s.resident[victim].frame, coalesced, true, access)
        && t.loading == LoadingWith(w.s, page, w.s.resident[victim].frame)
    else
      out == Reserved(BypassOf(page, coalesced, access)) && t.resident == w.s.resident && t.loading == w.s.loading
  }

  lemma FullMissDisplaces(w: World, page: PageId, access: Access, coalesced: bool)
    requires Inv(w) && Shape(w.s) && w.s.capacity > 0 && |w.s.free| == 0
    ensures var (t, out) := MissPage(w.s, page, access, coalesced);
      && Displaces(w, page, access, coalesced, t, out)
      && t.credit == (w.s.credit && !SpendsCredit(w.s, access)) && t.free == []
      && t.stats == MissCounted(w.s, access)
  {
    hide Inv, Shape, MissPage, EvictFor, ResidentUnpinnedNone, HasUnpinnedPrefetch, LeastRecentlyDemanded;
    CountingKeepsInv(w, access);
    FullMiss(w.s, page, access, coalesced);
    var counted := World(CountMiss(w.s, access), w.h);
    CountingKeepsPolicy(w.s, counted.s);
    EvictByPolicy(counted, access);
    var (u, e) := EvictFor(counted.s, access);
    if e.Evicted? {
      var victim :| VictimByPolicy(counted, u, victim) && e.frame == counted.s.resident[victim].frame;
      assert VictimByPolicy(w, MissPage(w.s, page, access, coalesced).0, victim);
    }
  }

  /** A miss that finds a free frame takes the one freed last, and nothing else changes hands. */
  lemma FreeMissTakes(s: Pool, page: PageId, access: Access, coalesced: bool)
    requires Shape(s) && s.capacity > 0 && |s.free| > 0
    ensures var (t, out) := MissPage(s, page, access, coalesced);
      var frame := s.free[|s.free| - 1];
      && out == Loaded(page, frame, coalesced, false, access)
      && t.resident == s.resident && t.free == s.free[..|s.free| - 1] && t.loading == LoadingWith(s, page, frame)
      && t.credit == s.credit && t.stats == MissCounted(s, access)
  {
    hide Shape, MissPage, HasUnpinnedPrefetch, ResidentUnpinnedNone;
    FreeMissUnfolds(s, page, access, coalesced);
  }

  /** How the statistics count a request for an absent page. */
  ghost function MissCounted(s: Pool, access: Access): Stats
    requires Shape(s)
  {
    var c := if IsPrefetch(access) then s.stats.(prefetchMisses := s.stats.prefetchMisses + 1)
             else s.stats.(misses := s.stats.misses + 1);
    if s.capacity == 0 || |s.free| > 0 then c
    else if !MayDisplace(s, access) then
      if IsPrefetch(access) then c.(prefetchAdmissionRejections := c.prefetchAdmissionRejections + 1)
      else c.(pinnedVictimFailures := c.pinnedVictimFailures + 1)
    else if HasUnpinnedPrefetch(s) then
      c.(evictions := c.evictions + 1, prefetchPollutionEvictions := c.prefetchPollutionEvictions + 1)
    else if IsPrefetch(access) then
      c.(evictions := c.evictions + 1, prefetchDemandEvictions := c.prefetchDemandEvictions + 1)
    else c.(evictions := c.evictions + 1)
  }

  /**
    What a request for an absent page answers in a reachable pool: a load on the frame freed last;
    without a free frame, a load on the frame of the page that the policy gives up; and when the
    policy gives up none, or the pool has no frames, a bypass that moves no page.
   */
  lemma MissAnswers(w: World, page: PageId, access: Access, wait: bool, coalesced: bool)
    requires Reachable(w) && Shape(w.s) && page !in w.s.resident && page !in w.s.loading
    ensures var (t, out) := ReservePass(w.s, page, access, wait, coalesced);
      && t.stats == MissCounted(w.s, access)
      && t.credit == (w.s.credit && !SpendsCredit(w.s, access))
      && if w.s.capacity == 0 then
           out == Reserved(BypassOf(page, coalesced, access)) && t == w.s.(stats := t.stats)
         else if |w.s.free| > 0 then
           var frame := w.s.free[|w.s.free| - 1];
           && out == Loaded(page, frame, coalesced, false, access)
           && t.resident == w.s.resident && t.free == w.s.free[..|w.s.free| - 1]
           && t.loading == LoadingWith(w.s, page, frame)
         else t.free == [] && Displaces(w, page, access, coalesced, t, out)
  {
    hide Inv, Shape, MissPage, CountMiss, HasUnpinnedPrefetch, ResidentUnpinnedNone, Displaces;
    ReachableInv(w);
    if w.s.capacity == 0 {
      NoFramesBypass(w.s, page, access, coalesced);
    } else if |w.s.free| > 0 {
      FreeMissTakes(w.s, page, access, coalesced);
    } else {
      FullMissDisplaces(w, page, access, coalesced);
    }
  }

  lemma NoFramesBypass(s: Pool, page: PageId, access: Access, coalesced: bool)
    requires Shape(s) && s.capacity == 0
    ensures var (t, out) := MissPage(s, page, access, coalesced);
      out == Reserved(BypassOf(page, coalesced, access)) && t == s.(stats := MissCounted(s, access))
  {
    hide Shape, HasUnpinnedPrefetch, ResidentUnpinnedNone;
  }

  /**
    What a request for a resident page answers: its frame, without any eviction or credit spent;
    a demand says whether the page was an unused prefetch, and then earns the credit.
   */
  lemma HitAnswers(w: World, page: PageId, access: Access, wait: bool, coalesced: bool)
    requires Reachable(w) && Shape(w.s) && page in w.s.resident
    ensures var (t, out) := ReservePass(w.s, page, access, wait, coalesced);
      var entry, earns := w.s.resident[page], EarnsCredit(w.s, page, access);
      && out == Reserved(Reservation(Hit, page, Some(entry.frame), coalesced, false, access, earns))
      && t.resident == w.s.resident[page := Entry(entry.frame, entry.prefetchedUnused && !access.Demand?)]
      && t.loading == w.s.loading && t.free == w.s.free
      && (forall f :: f in w.s.pins && f != entry.frame ==> f in t.pins && t.pins[f] == w.s.pins[f])
      && t.credit == (w.s.credit || earns)
      && t.stats == if IsPrefetch(access) then w.s.stats.(prefetchHits := w.s.stats.prefetchHits + 1)
                    else w.s.stats.(demandHits := w.s.stats.demandHits + 1,
                                    prefetchUsed := w.s.stats.prefetchUsed + if earns then 1 else 0)
  {
    hide Ownership, Pinning, Counters, DemandOrder, MoveToFront, IndexOf;
    ReachableInv(w);
    if w.s.resident[page].prefetchedUnused {
      FlaggedAreCounted(w, page);
    }
  }

  lemma FlaggedAreCounted(w: World, page: PageId)
    requires Inv(w) && page in w.s.resident && w.s.resident[page].prefetchedUnused
    ensures w.s.unused > 0
  {
    hide Ownership, Pinning, Counters, DemandOrder;
    assert w.s.lru[IndexOf(w.s.lru, page)] == page;
  }

  /** A demand that finds the page a prefetch has brought in. */
  predicate EarnsCredit(s: Pool, page: PageId, access: Access) {
    access.Demand? && page in s.resident && s.resident[page].prefetchedUnused
  }

  // ---------- The life of the admission credit ----------

  ghost predicate Spends(s: Pool, op: Op)
    requires Shape(s)
  {
    op.OpReserve? && op.page !in s.resident && op.page !in s.loading && SpendsCredit(s, op.access)
  }

  predicate Earns(s: Pool, op: Op) {
    (op.OpReserve? || op.OpTryReserveHit?) && EarnsCredit(s, op.page, op.access)
  }

  /**
    The credit is there at the start and after the pool is emptied; a plain prefetch takes it by
    displacing a used page, a demand for an unused prefetch gives it back, nothing else touches it.
   */
  lemma CreditLife(w: World, op: Op)
    requires Reachable(w) && Shape(w.s) && Allowed(w, op)
    ensures EmptyPool(w.s.capacity, w.s.firstFrame).credit
    ensures Apply(w, op).0.s.credit
         == if Empties(w, op) || Earns(w.s, op) then true else w.s.credit && !Spends(w.s, op)
  {
    hide Inv, Shape, Reachable, HitResident, MissPage, CountMiss, ReservePass, SpendsCredit, MissCounted, EmptyPool,
         ResidentUnpinned, Displaces, Publish;
    EmptyPoolAllFree(w.s.capacity, w.s.firstFrame);
    match op
    case OpReserve(page, access, wait, coalesced) =>
      if page in w.s.resident {
        HitAnswers(w, page, access, wait, coalesced);
      } else if page in w.s.loading {
        InFlightAnswers(w.s, page, access, wait, coalesced);
      } else {
        MissAnswers(w, page, access, wait, coalesced);
      }
    case OpTryReserveHit(page, access) =>
      if page in w.s.resident {
        HitAnswers(w, page, access, false, false);
        TryAnswers(w.s, page, access);
      }
    case OpPublish(r, success) => PublishKeepsCredit(w.s, r, success);
    case OpRelease(r) =>
    case _ => EmptyingAnswers(w, op);
  }

  lemma InFlightAnswers(s: Pool, page: PageId, access: Access, wait: bool, coalesced: bool)
    requires Shape(s) && page !in s.resident && page in s.loading
    ensures var (t, out) := ReservePass(s, page, access, wait, coalesced);
      && t == s.(stats := s.stats.(coalescedMisses := s.stats.coalescedMisses + 1))
      && out == if wait then Blocked else Reserved(Reservation(Bypass, page, None, true, false, access, false))
  {
    hide Shape;
  }

  lemma PublishKeepsCredit(s: Pool, r: Reservation, success: bool)
    requires Shape(s)
    ensures Publish(s, r, success).0.credit == s.credit
  {
    hide Shape;
    if MatchesLoading(s, r) {
      LoadingPinned(s, r.page);
    }
  }

  /** `try_reserve_hit` reserves a resident page like any request and leaves the pool alone otherwise. */
  lemma TryAnswers(s: Pool, page: PageId, access: Access)
    requires Shape(s)
    ensures page in s.resident ==> TryReserveHit(s, page, access) == ReservePass(s, page, access, false, false)
    ensures page !in s.resident ==>
      TryReserveHit(s, page, access) == (s, Reserved(Reservation(Bypass, page, None, false, false, access, false)))
  {
    hide Shape, HitResident;
  }

  // ---------- Emptying the pool ----------

  /** A pool that owns `frames` frames, all free, and remembers nothing. */
  ghost predicate AllFree(s: Pool, frames: set<Frame>) {
    && |s.free| == s.capacity && NoDup(s.free) && ToSet(s.free) == frames
    && s.resident == map[] && s.loading == map[] && s.lru == [] && s.unused == 0
    && s.credit && s.stats == NO_STATS
    && s.pins.Keys == frames && forall f :: f in frames ==> s.pins[f] == 0
  }

  lemma EmptyPoolAllFree(capacity: nat, firstFrame: Frame)
    ensures EmptyPool(capacity, firstFrame).capacity == capacity
    ensures AllFree(EmptyPool(capacity, firstFrame), FramesOf(firstFrame, capacity))
  {
  }

  lemma FreshFrames(firstFrame: Frame, old': nat, new': nat)
    ensures FramesOf(firstFrame, old') !! FramesOf(firstFrame + old', new')
  {
  }

  lemma NothingHeldMeansUnpinned(w: World)
    requires Inv(w) && Shape(w.s) && w.h.held == multiset{}
    ensures ResidentUnpinned(w.s)
  {
    hide ListShape, DemandOrder, Counters;
  }

  /**
    `clear` and `reset_capacity` succeed exactly when no reservation is out, and for a reset when
    it asks for frames at all. Then every frame is free, after a reset as many new ones as asked for.
   */
  lemma EmptyingAnswers(w: World, op: Op)
    requires Reachable(w) && Shape(w.s) && (op.OpClear? || op.OpReset?)
    ensures var (v, reply) := Apply(w, op);
      var idle := w.h.loads == map[] && w.h.held == multiset{};
      && (reply == Done <==> idle && (op.OpReset? ==> op.capacity > 0))
      && (reply != Done ==> v == w && reply == Failed(if op == OpReset(0) then InvalidArgument else LogicError))
      && (reply == Done && op.OpClear? ==> v.s.capacity == w.s.capacity && AllFree(v.s, w.h.owner.Keys))
      && (reply == Done && op.OpReset? ==>
            v.s.capacity == op.capacity && exists frames :: frames !! w.h.owner.Keys && AllFree(v.s, frames))
  {
    hide Inv, Shape, FramesOf, FrameSeq, ResidentUnpinned, EmptyPool, AllFree;
    ReachableInv(w);
    LoadsAreLoading(w);
    ResidentPinned(w.s);
    if ResidentUnpinned(w.s) {
      UnpinnedMeansNothingHeld(w);
    }
    if w.h.held == multiset{} {
      NothingHeldMeansUnpinned(w);
    }
    if op.OpClear? {
      if Clear(w.s).1.None? {
        ClearedIsEmpty(w);
        EmptyPoolAllFree(w.s.capacity, w.s.firstFrame);
      }
    } else {
      EmptyPoolAllFree(op.capacity, w.s.firstFrame + w.s.capacity);
      FreshFrames(w.s.firstFrame, w.s.capacity, op.capacity);
    }
  }

  lemma LoadsAreLoading(w: World)
    requires Inv(w)
    ensures w.h.loads == map[] <==> w.s.loading == map[]
    ensures w.h.owner.Keys == FramesOf(w.s.firstFrame, w.s.capacity)
  {
    hide Ownership, ListShape, DemandOrder, Counters, FramesOf;
    assert w.h.loads.Keys == w.s.loading.Keys;
  }
}
