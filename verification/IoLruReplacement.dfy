/**
  What the page cache of src/io_lru_buffer_pool.cc gives up and what it loses: which page is
  evicted, in which order unused prefetches go, and when a frame drops out of use.
 */
module IoLruReplacement {
  import opened Common
  import opened IoLruPool
  import opened IoLruInvariants

  // ---------- Which page a demand evicts ----------

  lemma EligiblePosition(s: Pool, p: PageId) returns (k: nat)
    requires Shape(s) && p in s.resident && Eligible(s, false, p)
    ensures k < |s.lru| && s.lru[k] == p
    ensures var c := LastEligible(s, false, |s.lru|);
      c.Some? && k <= c.value
  {
    k := IndexOf(s.lru, p);
  }

  /** Some unpinned resident page is an unused prefetch. */
  ghost predicate HasUnpinnedPrefetch(s: Pool)
    requires Shape(s)
  {
    exists p :: p in s.resident && Eligible(s, true, p)
  }

  /** Every other unpinned page was demanded after `victim`. */
  ghost predicate LeastRecentlyDemanded(s: Pool, last: map<PageId, nat>, victim: PageId)
    requires Shape(s)
  {
    && victim in last
    && forall p :: p in s.resident && p != victim && Eligible(s, false, p) ==> p in last && last[victim] < last[p]
  }

  lemma VictimIsPrefetchIfAny(s: Pool)
    requires Shape(s) && ListShape(s.lru, s.resident, s.unused)
    ensures var c := LastEligible(s, false, |s.lru|);
      && (c.None? <==> ResidentUnpinnedNone(s))
      && (c.Some? ==> (s.resident[s.lru[c.value]].prefetchedUnused <==> HasUnpinnedPrefetch(s)))
  {
    hide LastEligible;
    var c := LastEligible(s, false, |s.lru|);
    forall p | p in s.resident && Eligible(s, false, p)
      ensures c.Some? && (s.resident[p].prefetchedUnused ==> s.resident[s.lru[c.value]].prefetchedUnused)
    {
      var k := EligiblePosition(s, p);
    }
  }

  ghost predicate ResidentUnpinnedNone(s: Pool)
    requires Shape(s)
  {
    forall p :: p in s.resident ==> !Eligible(s, false, p)
  }

  lemma VictimIsOldest(s: Pool, last: map<PageId, nat>, clock: nat)
    requires Shape(s) && ListShape(s.lru, s.resident, s.unused) && DemandOrder(s.lru, s.unused, last, clock)
    ensures var c := LastEligible(s, false, |s.lru|);
      c.Some? && !s.resident[s.lru[c.value]].prefetchedUnused ==> LeastRecentlyDemanded(s, last, s.lru[c.value])
  {
    hide LastEligible;
    var c := LastEligible(s, false, |s.lru|);
    if c.Some? && !s.resident[s.lru[c.value]].prefetchedUnused {
      var victim := s.lru[c.value];
      forall p | p in s.resident && p != victim && Eligible(s, false, p) ensures p in last && last[victim] < last[p] {
        var k := EligiblePosition(s, p);
      }
    }
  }

  ghost predicate VictimByPolicy(w: World, t: Pool, victim: PageId)
    requires Shape(w.s)
  {
    && victim in w.s.resident && t.resident == w.s.resident - {victim}
    && (w.s.resident[victim].prefetchedUnused <==> HasUnpinnedPrefetch(w.s))
    && (!HasUnpinnedPrefetch(w.s) ==> LeastRecentlyDemanded(w.s, w.h.lastDemand, victim))
  }

  /** What one scan finds; it gives up no credit. */
  lemma ScanVictim(w: World, requireUnused: bool)
    requires Inv(w) && Shape(w.s)
    ensures var (t, e) := SelectVictim(w.s, requireUnused);
      && !e.Underflow?
      && (e.Evicted? <==> if requireUnused then HasUnpinnedPrefetch(w.s) else !ResidentUnpinnedNone(w.s))
      && (e.Evicted? ==> t.credit == w.s.credit && t.loading == w.s.loading && t.free == w.s.free)
      && (e.Evicted? ==> t.stats == EvictionCounted(w.s.stats, HasUnpinnedPrefetch(w.s)))
      && (e.Evicted? ==> exists victim :: VictimByPolicy(w, t, victim) && e.frame == w.s.resident[victim].frame)
  {
    hide Ownership, Pinning, ListShape, DemandOrder, Counters, LastEligible, LeastRecentlyDemanded, HasUnpinnedPrefetch,
         ResidentUnpinnedNone, RemoveAt;
    SelectVictimTakesFrame(w.s, w.h, requireUnused);
    VictimIsPrefetchIfAny(w.s);
    UnusedScanFinds(w.s);
    VictimIsOldest(w.s, w.h.lastDemand, w.h.clock);
    var c := LastEligible(w.s, requireUnused, |w.s.lru|);
    if c.Some? {
      var (t, e) := SelectVictim(w.s, requireUnused);
      assert VictimByPolicy(w, t, w.s.lru[c.value]);
    }
  }

  /** How the statistics count an eviction, of an unused prefetch or of a used page. */
  function EvictionCounted(stats: Stats, unusedVictim: bool): Stats {
    stats.(evictions := stats.evictions + 1,
           prefetchPollutionEvictions := stats.prefetchPollutionEvictions + if unusedVictim then 1 else 0)
  }

  lemma UnusedScanFinds(s: Pool)
    requires Shape(s)
    ensures var c := LastEligible(s, true, |s.lru|);
      && (c.Some? <==> HasUnpinnedPrefetch(s))
      && (c.Some? ==> s.lru[c.value] in s.resident && s.resident[s.lru[c.value]].prefetchedUnused)
  {
    hide LastEligible;
    forall p | p in s.resident && Eligible(s, true, p) ensures LastEligible(s, true, |s.lru|).Some? {
      var k := IndexOf(s.lru, p);
      assert s.lru[k] == p;
    }
  }

  /** The policy looks at no counter. */
  lemma CountingKeepsPolicy(s: Pool, t: Pool)
    requires Shape(s) && Shape(t) && OnlyCounts(s, t)
    ensures ResidentUnpinnedNone(t) == ResidentUnpinnedNone(s) && HasUnpinnedPrefetch(t) == HasUnpinnedPrefetch(s)
    ensures forall last, victim :: LeastRecentlyDemanded(t, last, victim) == LeastRecentlyDemanded(s, last, victim)
  {
    hide Shape;
    assert forall p, u :: p in s.resident && s.resident[p].frame in s.pins ==> Eligible(t, u, p) == Eligible(s, u, p);
  }

  /**
    The admission policy for a pool without a free frame. Anyone may displace an unpinned unused
    prefetch. When there is none, a demand and a gateway prefetch may displace any unpinned page,
    a plain prefetch only with credit.
   */
  ghost predicate MayDisplace(s: Pool, access: Access)
    requires Shape(s)
  {
    HasUnpinnedPrefetch(s) || (!ResidentUnpinnedNone(s) && (access.Prefetch? ==> s.credit))
  }

  /** There is a free frame, or a page that this access may displace. */
  ghost predicate Room(s: Pool, access: Access)
    requires Shape(s)
  {
    s.capacity > 0 && (|s.free| > 0 || MayDisplace(s, access))
  }

  /** This access pays for the page it displaces with the pool's credit. */
  ghost predicate SpendsCredit(s: Pool, access: Access)
    requires Shape(s)
  {
    access.Prefetch? && s.capacity > 0 && |s.free| == 0 && s.credit && !HasUnpinnedPrefetch(s) && !ResidentUnpinnedNone(s)
  }

  /** How the statistics count what happens when no frame is free. */
  ghost function DisplacementCounted(s: Pool, access: Access): Stats
    requires Shape(s)
  {
    var evicted := EvictionCounted(s.stats, HasUnpinnedPrefetch(s));
    if !MayDisplace(s, access) then s.stats
    else if IsPrefetch(access) && !HasUnpinnedPrefetch(s) then
      evicted.(prefetchDemandEvictions := s.stats.prefetchDemandEvictions + 1)
    else evicted
  }

  lemma EvictByPolicy(w: World, access: Access)
    requires Inv(w) && Shape(w.s) && w.s.capacity > 0 && |w.s.free| == 0
    ensures var (t, e) := EvictFor(w.s, access);
      && !e.Underflow?
      && (e.Evicted? <==> MayDisplace(w.s, access))
      && (e.Evicted? ==> exists victim :: VictimByPolicy(w, t, victim) && e.frame == w.s.resident[victim].frame)
      && t.loading == w.s.loading && t.free == w.s.free
      && t.credit == (w.s.credit && !SpendsCredit(w.s, access))
      && t.stats == DisplacementCounted(w.s, access)
  {
    hide Inv, Shape, SelectVictim, HasUnpinnedPrefetch, ResidentUnpinnedNone, LeastRecentlyDemanded;
    ScanVictim(w, true);
    ScanVictim(w, false);
    ScanFinds(w.s, w.h);
    var (t, e) := SelectVictim(w.s, false);
    if e.Evicted? {
      var victim :| VictimByPolicy(w, t, victim) && e.frame == w.s.resident[victim].frame;
      assert VictimByPolicy(w, ChargeDemandEviction(t, access), victim);
    }
  }

  // ---------- In which order unused prefetches go ----------

  /** The unused prefetches at the end of the list stand in the order of their publication. */
  ghost predicate TailOrder(lru: seq<PageId>, unused: nat, times: map<PageId, nat>, clock: nat) {
    && unused <= |lru|
    && (forall i :: |lru| - unused <= i < |lru| ==> lru[i] in times && times[lru[i]] < clock)
    && (forall i, j :: |lru| - unused <= i < j < |lru| ==> times[lru[i]] < times[lru[j]])
  }

  /** When each page was last published for a prefetch, counting these publications. */
  datatype Published = Published(times: map<PageId, nat>, clock: nat)

  function NotePublish(p: Published, op: Op): Published {
    if op.OpPublish? && op.success && IsLoad(op.reservation) && IsPrefetch(op.reservation.access) then
      Published(p.times[op.reservation.page := p.clock], p.clock + 1)
    else p
  }

  function NoteAll(p: Published, ops: seq<Op>): Published
    decreases |ops|
  {
    if |ops| == 0 then p else NoteAll(NotePublish(p, ops[0]), ops[1..])
  }

  ghost predicate Ordered(s: Pool, p: Published) {
    TailOrder(s.lru, s.unused, p.times, p.clock)
  }

  lemma MoveKeepsTail(lru: seq<PageId>, unused: nat, times: map<PageId, nat>, clock: nat, i: nat,
                      lru': seq<PageId>, unused': nat)
    requires TailOrder(lru, unused, times, clock) && MovedToFront(lru, lru', i)
    requires unused' == if i < |lru| - unused then unused else unused - 1
    ensures TailOrder(lru', unused', times, clock)
  {
    forall j | |lru'| - unused' <= j < |lru'|
      ensures lru'[j] == lru[if j <= i then j - 1 else j] && (if j <= i then j - 1 else j) >= |lru| - unused
    {
    }
  }

  lemma RemoveKeepsTail(lru: seq<PageId>, unused: nat, times: map<PageId, nat>, clock: nat, i: nat,
                        lru': seq<PageId>, unused': nat)
    requires TailOrder(lru, unused, times, clock) && Removed(lru, lru', i)
    requires unused' == if i < |lru| - unused then unused else unused - 1
    ensures TailOrder(lru', unused', times, clock)
  {
    forall j | |lru'| - unused' <= j < |lru'| ensures lru'[j] == lru[if j < i then j else j + 1] {
    }
  }

  /** What an eviction does to the recency list. */
  ghost predicate DropsOne(s: Pool, t: Pool) {
    || (t.lru == s.lru && t.unused == s.unused)
    || exists i :: DropsAt(s, t, i)
  }

  ghost predicate DropsAt(s: Pool, t: Pool, i: int) {
    0 <= i && Removed(s.lru, t.lru, i) && t.unused == if i < |s.lru| - s.unused then s.unused else s.unused - 1
  }

  lemma ScanDropsOne(s: Pool, requireUnused: bool)
    requires Shape(s) && ListShape(s.lru, s.resident, s.unused)
    ensures DropsOne(s, SelectVictim(s, requireUnused).0)
  {
    hide LastEligible;
    var c := LastEligible(s, requireUnused, |s.lru|);
    if c.Some? && (s.resident[s.lru[c.value]].prefetchedUnused ==> s.unused > 0) {
      assert DropsAt(s, EvictAt(s, c.value), c.value);
    }
  }

  lemma EvictDropsOne(s: Pool, access: Access)
    requires Shape(s) && ListShape(s.lru, s.resident, s.unused)
    ensures DropsOne(s, EvictFor(s, access).0)
  {
    hide SelectVictim, Shape, ListShape, Removed;
    ScanDropsOne(s, true);
    ScanDropsOne(s, false);
    var t := SelectVictim(s, false).0;
    if i :| DropsAt(s, t, i) {
      assert DropsAt(s, ChargeDemandEviction(t, access), i);
    }
  }

  lemma MissDropsOne(s: Pool, page: PageId, access: Access, coalesced: bool)
    requires Shape(s) && ListShape(s.lru, s.resident, s.unused)
    ensures DropsOne(s, MissPage(s, page, access, coalesced).0)
  {
    hide EvictFor, Shape, ListShape, Removed;
    var counted := CountMiss(s, access);
    EvictDropsOne(counted, access);
    var t := EvictFor(counted, access).0;
    if i :| DropsAt(counted, t, i) {
      if s.capacity > 0 && |s.free| == 0 {
        assert DropsAt(s, MissPage(s, page, access, coalesced).0, i);
      }
    }
  }

  lemma DropKeepsTail(s: Pool, t: Pool, p: Published)
    requires Ordered(s, p) && DropsOne(s, t)
    ensures Ordered(t, p)
  {
    hide TailOrder, Removed;
    if i :| DropsAt(s, t, i) {
      RemoveKeepsTail(s.lru, s.unused, p.times, p.clock, i, t.lru, t.unused);
    }
  }

  lemma InvLists(w: World)
    requires Inv(w)
    ensures ListShape(w.s.lru, w.s.resident, w.s.unused)
  {
  }

  lemma HitKeepsTail(w: World, page: PageId, access: Access, coalesced: bool, p: Published)
    requires Inv(w) && Shape(w.s) && page in w.s.resident && Ordered(w.s, p)
    ensures Ordered(HitResident(w.s, page, access, coalesced).0, p)
  {
    hide Inv, Shape, TailOrder, MovedToFront, TouchDemanded;
    if access.Demand? {
      DemandHitShape(w.s, w.h, page);
      var t := TouchDemanded(w.s, page);
      MoveKeepsTail(w.s.lru, w.s.unused, p.times, p.clock, IndexOf(w.s.lru, page), t.lru, t.unused);
    }
  }

  lemma PublishKeepsTail(w: World, r: Reservation, success: bool, p: Published)
    requires Inv(w) && Shape(w.s) && Allowed(w, OpPublish(r, success)) && Ordered(w.s, p)
    ensures Ordered(Publish(w.s, r, success).0, NotePublish(p, OpPublish(r, success)))
  {
    hide Inv, Shape;
    if IsLoad(r) {
      LoadMatches(w, r);
      LoadIsNotListed(w, r.page);
    }
  }

  lemma LoadIsNotListed(w: World, page: PageId)
    requires Inv(w) && page !in w.s.resident
    ensures forall i :: 0 <= i < |w.s.lru| ==> w.s.lru[i] != page
  {
    hide Ownership, Pinning, DemandOrder, Counters;
  }

  /** Every allowed call leaves the unused prefetches in the order of their publication. */
  lemma ApplyKeepsTail(w: World, op: Op, p: Published)
    requires Inv(w) && Shape(w.s) && Allowed(w, op) && Ordered(w.s, p)
    ensures Ordered(Apply(w, op).0.s, NotePublish(p, op))
  {
    hide Inv, Shape, HitResident, MissPage, CountCoalesced, Publish, TailOrder, DropsOne;
    match op
    case OpReserve(page, access, _, coalesced) =>
      if page in w.s.resident {
        HitKeepsTail(w, page, access, coalesced, p);
      } else if page !in w.s.loading {
        InvLists(w);
        MissDropsOne(w.s, page, access, coalesced);
        DropKeepsTail(w.s, MissPage(w.s, page, access, coalesced).0, p);
      }
    case OpTryReserveHit(page, access) =>
      if page in w.s.resident {
        HitKeepsTail(w, page, access, false, p);
      }
    case OpPublish(r, success) => PublishKeepsTail(w, r, success, p);
    case OpRelease(_) =>
    case _ => EmptyTail(p);
  }

  lemma EmptyTail(p: Published)
    ensures TailOrder([], 0, p.times, p.clock)
  {
  }

  /** In every reachable pool the unused prefetches stand in the order in which they were published. */
  lemma {:induction false} RunKeepsTail(w: World, ops: seq<Op>, v: World, p: Published)
    requires Inv(w) && Run(w, ops, v) && Ordered(w.s, p)
    ensures Ordered(v.s, NoteAll(p, ops))
    decreases |ops|
  {
    hide Inv, Apply, Ordered, NotePublish;
    if |ops| != 0 {
      ApplyKeepsInv(w, ops[0]);
      ApplyKeepsTail(w, ops[0], p);
      RunKeepsTail(Apply(w, ops[0]).0, ops[1..], v, NotePublish(p, ops[0]));
    }
  }

  /** If `t` has given up an unused prefetch, it is the one published last of those that are unpinned. */
  ghost predicate GaveUpLatest(s: Pool, t: Pool, p: Published)
    requires Shape(s)
  {
    forall victim :: victim in s.resident && victim !in t.resident && s.resident[victim].prefetchedUnused ==>
      && victim in p.times
      && forall q :: q in s.resident && q != victim && Eligible(s, true, q) ==>
           q in p.times && p.times[q] < p.times[victim]
  }

  lemma ScanGivesUpLatest(w: World, p: Published, requireUnused: bool)
    requires Inv(w) && Shape(w.s) && Ordered(w.s, p)
    ensures GaveUpLatest(w.s, SelectVictim(w.s, requireUnused).0, p)
  {
    hide Inv, LastEligible;
    InvLists(w);
    var c := LastEligible(w.s, requireUnused, |w.s.lru|);
    if c.Some? && w.s.resident[w.s.lru[c.value]].prefetchedUnused {
      forall q | q in w.s.resident && q != w.s.lru[c.value] && Eligible(w.s, true, q)
        ensures q in p.times && p.times[q] < p.times[w.s.lru[c.value]]
      {
        var k := IndexOf(w.s.lru, q);
        assert w.s.lru[k] == q && k < c.value;
      }
    }
  }

  /** Whatever access takes it: an unused prefetch that goes is the latest published unpinned one. */
  lemma LatestPrefetchGoes(w: World, p: Published, page: PageId, access: Access, wait: bool, coalesced: bool)
    requires Inv(w) && Shape(w.s) && Ordered(w.s, p)
    ensures GaveUpLatest(w.s, ReservePass(w.s, page, access, wait, coalesced).0, p)
  {
    hide Inv, Shape, Ordered, MissPage, HitResident, EvictFor, CountMiss, CountCoalesced, Eligible;
    CountingKeepsInv(w, access);
    if page in w.s.resident {
      HitKeepsPages(w.s, page, access, coalesced);
    } else if page !in w.s.loading {
      MissStats(w.s, page, access, coalesced);
      var counted := World(CountMiss(w.s, access), w.h);
      CountedAlike(w.s, counted.s, p);
      EvictGivesUpLatest(counted, p, access);
      var t := MissPage(w.s, page, access, coalesced).0;
      if t.resident == EvictFor(counted.s, access).0.resident {
        GaveUpAlike(w.s, counted.s, EvictFor(counted.s, access).0, t, p);
      }
    }
  }

  lemma GaveUpAlike(s: Pool, counted: Pool, t: Pool, u: Pool, p: Published)
    requires Shape(s) && Shape(counted) && OnlyCounts(s, counted) && u.resident == t.resident
    requires GaveUpLatest(counted, t, p)
    ensures GaveUpLatest(s, u, p)
  {
    CountedAlike(s, counted, p);
  }

  lemma HitKeepsPages(s: Pool, page: PageId, access: Access, coalesced: bool)
    requires Shape(s) && page in s.resident
    ensures HitResident(s, page, access, coalesced).0.resident.Keys == s.resident.Keys
  {
    hide Shape, MoveToFront, IndexOf;
  }

  lemma CountedAlike(s: Pool, t: Pool, p: Published)
    requires Shape(s) && Shape(t) && OnlyCounts(s, t)
    ensures Ordered(t, p) == Ordered(s, p) && t.resident == s.resident
    ensures forall q, u :: q in s.resident && s.resident[q].frame in s.pins ==> Eligible(t, u, q) == Eligible(s, u, q)
  {
    hide Shape, TailOrder;
  }

  lemma EvictGivesUpLatest(w: World, p: Published, access: Access)
    requires Inv(w) && Shape(w.s) && Ordered(w.s, p)
    ensures GaveUpLatest(w.s, EvictFor(w.s, access).0, p)
  {
    hide Inv, Shape, Ordered, SelectVictim, Eligible;
    ScanGivesUpLatest(w, p, true);
    ScanGivesUpLatest(w, p, false);
  }

  // ---------- When a miss gets a frame ----------

  lemma ScanFinds(s: Pool, h: History)
    requires Inv(World(s, h)) && Shape(s)
    ensures SelectVictim(s, true).1.Evicted? <==> HasUnpinnedPrefetch(s)
    ensures SelectVictim(s, false).1.Evicted? <==> !ResidentUnpinnedNone(s)
    ensures !SelectVictim(s, true).1.Underflow? && !SelectVictim(s, false).1.Underflow?
    ensures s.unused == 0 ==> !HasUnpinnedPrefetch(s)
    ensures HasUnpinnedPrefetch(s) ==> !ResidentUnpinnedNone(s)
  {
    hide Inv, LastEligible, TookFrame, EvictAt;
    InvLists(World(s, h));
    SelectVictimTakesFrame(s, h, true);
    SelectVictimTakesFrame(s, h, false);
    forall p | p in s.resident && Eligible(s, true, p)
      ensures LastEligible(s, true, |s.lru|).Some? && Eligible(s, false, p) && s.unused > 0
    {
      var k := IndexOf(s.lru, p);
      assert s.lru[k] == p;
    }
    forall p | p in s.resident && Eligible(s, false, p) ensures LastEligible(s, false, |s.lru|).Some? {
      var k := IndexOf(s.lru, p);
      assert s.lru[k] == p;
    }
  }

  /** A miss gets hold of a frame exactly when there is room. */
  lemma TakesIffRoom(w: World, access: Access)
    requires Inv(w) && Shape(w.s)
    ensures MissTakes(w.s, access) <==> Room(w.s, access)
  {
    hide Inv, Shape, SelectVictim, CountMiss, HasUnpinnedPrefetch, ResidentUnpinnedNone, LeastRecentlyDemanded;
    CountingKeepsInv(w, access);
    CountingKeepsPolicy(w.s, CountMiss(w.s, access));
    ScanFinds(CountMiss(w.s, access), w.h);
  }

  // ---------- Lost frames ----------

  lemma LostAfterTake(owner: map<Frame, Owner>, frame: Frame, page: PageId)
    requires frame in owner && !owner[frame].Detached?
    ensures frame !in Lost(owner) && Lost(owner[frame := Detached]) == Lost(owner) + {frame}
    ensures Lost(owner[frame := Detached][frame := InLoading(page)]) == Lost(owner)
  {
  }

  lemma ClaimLoses(s: Pool, h: History, t: Pool, h': History, frame: Frame, page: PageId, access: Access,
                   coalesced: bool, evicted: bool)
    requires TookFrame(s, h, t, h', frame)
    ensures var (u, out) := ClaimFrame(t, frame, page, access, coalesced, evicted);
      && (out == Threw(OutOfRange) <==> page >= CHUNK_NO_LIMIT)
      && (out == Threw(OutOfRange) ==> frame !in Lost(h.owner) && Lost(h'.owner) == Lost(h.owner) + {frame})
      && (out != Threw(OutOfRange) ==> Lost(h'.owner[frame := InLoading(page)]) == Lost(h.owner))
  {
    hide Lost;
    LostAfterTake(h.owner, frame, page);
  }

  /** What a miss does to the set of lost frames, when `takes` says that it gets hold of one. */
  ghost predicate LosesOneIf(w: World, page: PageId, out: Outcome, h: History, takes: bool) {
    && (out == Threw(OutOfRange) <==> takes && page >= CHUNK_NO_LIMIT)
    && (out != Threw(OutOfRange) ==> Lost(h.owner) == Lost(w.h.owner))
    && (out == Threw(OutOfRange) ==> exists f :: f !in Lost(w.h.owner) && Lost(h.owner) == Lost(w.h.owner) + {f})
  }

  lemma ClaimedMissLoses(w: World, page: PageId, access: Access, coalesced: bool,
                         t: Pool, frame: Frame, evicted: bool)
    requires Shape(w.s) && w.s.capacity > 0 && MissClaims(w, page, access, coalesced, t, frame, evicted)
    ensures var (u, out) := MissPage(w.s, page, access, coalesced);
      LosesOneIf(w, page, out, MissHistory(w.s, w.h, page, access, out), true)
  {
    hide Shape, TookFrame, Lost, CountMiss, MissPage, MissHistory, TakeHistory;
    var s := CountMiss(w.s, access);
    ClaimLoses(s, w.h, t, TakeHistory(s, w.h, access), frame, page, access, coalesced, evicted);
    MissHistoryUnfolds(w.s, w.h, page, access, MissPage(w.s, page, access, coalesced).1);
  }

  lemma MissLoses(w: World, page: PageId, access: Access, coalesced: bool)
    requires Inv(w) && Shape(w.s) && page !in w.s.resident && page !in w.s.loading
    ensures var (t, out) := MissPage(w.s, page, access, coalesced);
      LosesOneIf(w, page, out, MissHistory(w.s, w.h, page, access, out), MissTakes(w.s, access))
  {
    hide Inv, Shape, MissPage, MissHistory, CountMiss, Lost, MissClaims, MissTakes;
    CountingKeepsInv(w, access);
    if MissTakes(w.s, access) {
      TakingNeedsRoom(w.s, access);
      var t, frame, evicted := MissTakesFrame(w, page, access, coalesced);
      ClaimedMissLoses(w, page, access, coalesced, t, frame, evicted);
    } else {
      RejectedMissUnfolds(w.s, w.h, page, access, coalesced);
    }
  }

  /**
    A frame is lost exactly when a page id too large to encode is asked for and there is room
    for it: by then the pool has already taken a frame.
   */
  lemma OversizedPageLosesFrame(w: World, page: PageId, access: Access, wait: bool, coalesced: bool)
    requires Inv(w) && Shape(w.s)
    ensures var (v, reply) := Apply(w, OpReserve(page, access, wait, coalesced));
      var takes := page !in w.s.resident && page !in w.s.loading && Room(w.s, access);
      && (reply == Replied(Threw(OutOfRange)) <==> takes && page >= CHUNK_NO_LIMIT)
      && (reply != Replied(Threw(OutOfRange)) ==> Lost(v.h.owner) == Lost(w.h.owner))
      && (reply == Replied(Threw(OutOfRange)) ==>
            exists f :: f !in Lost(w.h.owner) && Lost(v.h.owner) == Lost(w.h.owner) + {f})
  {
    hide Inv, Shape, MissPage, MissHistory, HitResident, Lost, MissTakes, Room;
    TakesIffRoom(w, access);
    if page in w.s.resident {
      HitTakesNothing(w, page, access, coalesced);
    } else if page !in w.s.loading {
      MissLoses(w, page, access, coalesced);
    }
  }

  /** The call empties or replaces the pool. */
  predicate Empties(w: World, op: Op)
    requires Shape(w.s)
  {
    (op.OpClear? || op.OpReset?) && Apply(w, op).1 == Done
  }

  /** A lost frame comes back only when the pool is cleared or replaced, and then all of them do. */
  lemma LossesStay(w: World, op: Op)
    requires Inv(w) && Shape(w.s) && Allowed(w, op)
    ensures var v := Apply(w, op).0;
      if Empties(w, op) then Lost(v.h.owner) == {} else Lost(w.h.owner) <= Lost(v.h.owner)
  {
    hide Inv, Shape, Apply, Lost;
    match op
    case OpReserve(page, access, wait, coalesced) => OversizedPageLosesFrame(w, page, access, wait, coalesced);
    case OpTryReserveHit(page, access) => TryLosesNothing(w, page, access);
    case OpPublish(r, success) => PublishLosesNothing(w, r, success);
    case OpRelease(r) => ReleaseLosesNothing(w, r);
    case _ => EmptyingFindsAll(w, op);
  }

  lemma TryLosesNothing(w: World, page: PageId, access: Access)
    requires Inv(w) && Shape(w.s)
    ensures Lost(Apply(w, OpTryReserveHit(page, access)).0.h.owner) == Lost(w.h.owner)
  {
    hide Inv, Shape, HitResident, HitHistory, Lost;
    if page in w.s.resident {
      HitTakesNothing(w, page, access, false);
    }
  }

  lemma PublishLosesNothing(w: World, r: Reservation, success: bool)
    requires Inv(w) && Shape(w.s) && Allowed(w, OpPublish(r, success))
    ensures Lost(Apply(w, OpPublish(r, success)).0.h.owner) == Lost(w.h.owner)
  {
    hide Inv, Shape, PublishLoaded, PublishFailed;
    PublishKeepsInv(w, r, success);
    if IsLoad(r) {
      LoadMatches(w, r);
    }
  }

  lemma ReleaseLosesNothing(w: World, r: Reservation)
    requires Shape(w.s)
    ensures Lost(Apply(w, OpRelease(r)).0.h.owner) == Lost(w.h.owner)
  {
    hide Shape;
  }

  lemma EmptyingFindsAll(w: World, op: Op)
    requires Shape(w.s) && (op.OpClear? || op.OpReset?)
    ensures var v := Apply(w, op).0;
      if Empties(w, op) then Lost(v.h.owner) == {} else v == w
  {
    hide Shape, ResidentUnpinned, EmptyPool, FramesOf;
  }

  /** Some call of the run empties or replaces the pool. */
  ghost predicate EmptiesIn(w: World, ops: seq<Op>)
    decreases |ops|
  {
    |ops| > 0 && Shape(w.s) && (Empties(w, ops[0]) || EmptiesIn(Apply(w, ops[0]).0, ops[1..]))
  }

  /** Until then a lost frame stays lost, whatever calls are made. */
  lemma {:induction false} LostUntilEmptied(w: World, ops: seq<Op>, v: World)
    requires Inv(w) && Run(w, ops, v) && !EmptiesIn(w, ops)
    ensures Lost(w.h.owner) <= Lost(v.h.owner)
    decreases |ops|
  {
    hide Inv, Apply, Lost, Empties;
    if |ops| != 0 {
      ApplyKeepsInv(w, ops[0]);
      LossesStay(w, ops[0]);
      LostUntilEmptied(Apply(w, ops[0]).0, ops[1..], v);
    }
  }

  lemma HitTakesNothing(w: World, page: PageId, access: Access, coalesced: bool)
    requires Inv(w) && Shape(w.s) && page in w.s.resident
    ensures var (t, out) := HitResident(w.s, page, access, coalesced);
      out != Threw(OutOfRange) && HitHistory(w.h, page, access, out).owner == w.h.owner
  {
    hide Inv, Shape;
  }

  lemma PoppedShape(s: Pool)
    requires Shape(s) && |s.free| > 0
    ensures Shape(PopFree(s))
  {
  }

  lemma MissPasses(s: Pool, page: PageId, access: Access)
    requires Shape(s) && s.resident == map[] && s.loading == map[]
    ensures ReservePass(s, page, access, true, false) == MissPage(s, page, access, false)
  {
    hide MissPage, Shape;
  }

  /** One such request on a one-frame pool leaves nothing to serve any later page with. */
  lemma OversizedPageExample(s: Pool, oversized: PageId, page: PageId, access: Access)
    requires s == EmptyPool(1, 0) && oversized == CHUNK_NO_LIMIT
    ensures Shape(s) && ReservePass(s, oversized, Demand, true, false).1 == Threw(OutOfRange)
    ensures var t := ReservePass(s, oversized, Demand, true, false).0;
      Shape(t) && ReservePass(t, page, access, true, false).1 == Reserved(BypassOf(page, false, access))
  {
    hide MissPage, CountMiss, EmptyPool, Shape, ReservePass;
    InitialInv(1, 0);
    InvImpliesShape(Initial(1, 0));
    EmptyPoolFields(1, 0);
    MissPasses(s, oversized, Demand);
    FreeMissUnfolds(s, oversized, Demand, false);
    PoppedShape(CountMiss(s, Demand));
    ExhaustedPoolBypasses(PopFree(CountMiss(s, Demand)), page, access);
  }

  lemma EmptyPoolFields(capacity: nat, firstFrame: Frame)
    ensures var s := EmptyPool(capacity, firstFrame);
      && s.capacity == capacity && |s.free| == capacity && |s.lru| == 0
      && s.resident == map[] && s.loading == map[]
  {
  }

  lemma ExhaustedPoolBypasses(t: Pool, page: PageId, access: Access)
    requires Shape(t) && |t.free| == 0 && |t.lru| == 0 && t.loading == map[]
    ensures ReservePass(t, page, access, true, false).1 == Reserved(BypassOf(page, false, access))
  {
    hide CountMiss, CountRejection, EvictAt;
    var s := CountMiss(t, access);
    assert forall requireUnused :: SelectVictim(s, requireUnused) == (s, NoVictim);
  }
}
