/**
  The page cache of src/io_lru_buffer_pool.cc.

  A `Pool` value is the state that the pool's mutex protects; each function below is one
  locked section of a public call. `IoLruBufferPool` is the mutable object, whose methods
  are proved against those functions. What the functions guarantee over whole runs is in
  IoLruInvariants.dfy and IoLruThreads.dfy.
 */
module IoLruPool {
  import opened Common

  type PageId = int
  type Frame = int

  /** Chunk numbers occupy 62 bits of a chunk id; encoding a larger page id throws. */
  const CHUNK_NO_LIMIT: nat := 0x4000_0000_0000_0000

  datatype Access = Demand | Prefetch | GatewayPrefetch

  datatype ReservationState = Hit | Load | Bypass

  datatype Error = LogicError | InvalidArgument | OutOfRange

  datatype Reservation = Reservation(
    state: ReservationState,
    page: PageId,
    frame: Option<Frame>,
    coalesced: bool,
    evicted: bool,
    access: Access,
    prefetchedHit: bool)

  /** How one pass through the reservation loop ends; `Blocked` is the condition-variable wait. */
  datatype Outcome = Reserved(reservation: Reservation) | Blocked | Threw(error: Error)

  datatype Entry = Entry(frame: Frame, prefetchedUnused: bool)

  datatype Stats = Stats(
    demandHits: int,
    prefetchHits: int,
    prefetchMisses: int,
    prefetchUsed: int,
    prefetchPollutionEvictions: int,
    prefetchAdmissionRejections: int,
    prefetchDemandEvictions: int,
    misses: int,
    coalescedMisses: int,
    evictions: int,
    pinnedVictimFailures: int,
    failedLoads: int)

  const NO_STATS := Stats(0, 0, 0, 0, 0, 0, 0, 0, 0, 0, 0, 0)

  /** `lru` runs from most to least recent; `free` is a stack with its top at the end. */
  datatype Pool = Pool(
    capacity: nat,
    firstFrame: Frame,
    free: seq<Frame>,
    resident: map<PageId, Entry>,
    loading: map<PageId, Frame>,
    lru: seq<PageId>,
    unused: nat,
    credit: bool,
    stats: Stats,
    pins: map<Frame, nat>)

  predicate IsPrefetch(access: Access) {
    access != Demand
  }

  function FrameSeq(first: Frame, count: nat): (frames: seq<Frame>)
    ensures |frames| == count
    ensures forall i :: 0 <= i < count ==> frames[i] == first + i
  {
    seq(count, i requires 0 <= i => first + i)
  }

  function FramesOf(first: Frame, count: nat): set<Frame> {
    ToSet(FrameSeq(first, count))
  }

  /** An empty pool over `capacity` frames that no earlier pool has used. */
  function EmptyPool(capacity: nat, firstFrame: Frame): Pool {
    Pool(capacity, firstFrame, FrameSeq(firstFrame, capacity), map[], map[], [], 0, true, NO_STATS,
         map f | f in FramesOf(firstFrame, capacity) :: 0)
  }

  /** What the code relies on when it follows iterators and frame pointers. */
  ghost predicate Shape(s: Pool) {
    && NoDup(s.lru)
    && (forall p :: p in s.resident ==> p in s.lru)
    && (forall i :: 0 <= i < |s.lru| ==> s.lru[i] in s.resident)
    && (forall p :: p in s.resident ==> s.resident[p].frame in s.pins)
    && (forall p :: p in s.loading ==> s.loading[p] in s.pins)
    && (forall i :: 0 <= i < |s.free| ==> s.free[i] in s.pins)
    && (forall p :: p in s.resident ==> p !in s.loading)
  }

  // ---------- Reservation ----------

  function BypassOf(page: PageId, coalesced: bool, access: Access): Reservation {
    Reservation(Bypass, page, None, coalesced, false, access, false)
  }

  /** A demand access to a resident page: most recent, and no longer an unused prefetch. */
  function TouchDemanded(s: Pool, page: PageId): Pool
    requires Shape(s) && page in s.resident
  {
    var entry := s.resident[page];
    var used := entry.prefetchedUnused && s.unused > 0;
    s.(pins := s.pins[entry.frame := s.pins[entry.frame] + 1],
       lru := MoveToFront(s.lru, IndexOf(s.lru, page)),
       resident := s.resident[page := Entry(entry.frame, false)],
       unused := if used then s.unused - 1 else s.unused,
       credit := s.credit || used,
       stats := s.stats.(demandHits := s.stats.demandHits + 1,
                         prefetchUsed := s.stats.prefetchUsed + if used then 1 else 0))
  }

  function TouchPrefetched(s: Pool, page: PageId): Pool
    requires Shape(s) && page in s.resident
  {
    var frame := s.resident[page].frame;
    s.(pins := s.pins[frame := s.pins[frame] + 1],
       stats := s.stats.(prefetchHits := s.stats.prefetchHits + 1))
  }

  function HitOf(s: Pool, page: PageId, access: Access, coalesced: bool): Reservation
    requires page in s.resident
  {
    Reservation(Hit, page, Some(s.resident[page].frame), coalesced, false, access,
                access.Demand? && s.resident[page].prefetchedUnused)
  }

  function HitResident(s: Pool, page: PageId, access: Access, coalesced: bool): (Pool, Outcome)
    requires Shape(s) && page in s.resident
  {
    var hit := HitOf(s, page, access, coalesced);
    if access.Demand? then
      (TouchDemanded(s, page), if hit.prefetchedHit && s.unused == 0 then Threw(LogicError) else Reserved(hit))
    else (TouchPrefetched(s, page), Reserved(hit))
  }

  predicate Eligible(s: Pool, requireUnused: bool, p: PageId)
    requires p in s.resident && s.resident[p].frame in s.pins
  {
    s.pins[s.resident[p].frame] == 0 && (requireUnused ==> s.resident[p].prefetchedUnused)
  }

  /** The eligible page nearest the back of `lru[..n]`. */
  function LastEligible(s: Pool, requireUnused: bool, n: nat): (r: Option<nat>)
    requires Shape(s) && n <= |s.lru|
    ensures r.Some? ==> r.value < n && Eligible(s, requireUnused, s.lru[r.value])
    ensures forall j :: (if r.Some? then r.value + 1 else 0) <= j < n ==> !Eligible(s, requireUnused, s.lru[j])
  {
    if n == 0 then None
    else if Eligible(s, requireUnused, s.lru[n - 1]) then Some(n - 1)
    else LastEligible(s, requireUnused, n - 1)
  }

  datatype Eviction = Evicted(frame: Frame) | NoVictim | Underflow

  /** Drop the page at position `i` of the recency list. */
  function EvictAt(s: Pool, i: nat): Pool
    requires Shape(s) && i < |s.lru|
    requires s.resident[s.lru[i]].prefetchedUnused ==> s.unused > 0
  {
    var page := s.lru[i];
    var unusedVictim := s.resident[page].prefetchedUnused;
    s.(lru := RemoveAt(s.lru, i),
       resident := s.resident - {page},
       unused := if unusedVictim then s.unused - 1 else s.unused,
       stats := s.stats.(
         evictions := s.stats.evictions + 1,
         prefetchPollutionEvictions := s.stats.prefetchPollutionEvictions + if unusedVictim then 1 else 0))
  }

  function SelectVictim(s: Pool, requireUnused: bool): (r: (Pool, Eviction))
    requires Shape(s)
    ensures r.0.pins == s.pins
    ensures r.1.Evicted? ==> r.1.frame in s.pins && s.pins[r.1.frame] == 0
    ensures !r.1.Evicted? ==> r.0 == s
  {
    match LastEligible(s, requireUnused, |s.lru|)
    case None => (s, NoVictim)
    case Some(i) =>
      var entry := s.resident[s.lru[i]];
      if entry.prefetchedUnused && s.unused == 0 then (s, Underflow)
      else (EvictAt(s, i), Evicted(entry.frame))
  }

  /** A prefetch may displace a page that is not an unused prefetch. */
  predicate MayEvictDemand(s: Pool, access: Access) {
    access.GatewayPrefetch? || s.credit
  }

  function ChargeDemandEviction(s: Pool, access: Access): Pool {
    s.(credit := if access.Prefetch? then false else s.credit,
       stats := s.stats.(prefetchDemandEvictions := s.stats.prefetchDemandEvictions + 1))
  }

  function EvictFor(s: Pool, access: Access): (r: (Pool, Eviction))
    requires Shape(s)
    ensures r.0.pins == s.pins
    ensures r.1.Evicted? ==> r.1.frame in s.pins && s.pins[r.1.frame] == 0
    ensures !r.1.Evicted? ==> r.0 == s
  {
    if IsPrefetch(access) then
      var first := if s.unused != 0 then SelectVictim(s, true) else (s, NoVictim);
      if first.1.NoVictim? && MayEvictDemand(s, access) then
        var second := SelectVictim(s, false);
        if second.1.Evicted? then (ChargeDemandEviction(second.0, access), second.1) else second
      else first
    else SelectVictim(s, false)
  }

  /** Statistics that never feed back into replacement; everything else is untouched. */
  ghost predicate OnlyCounts(s: Pool, t: Pool) {
    && t == s.(stats := t.stats)
    && t.stats.prefetchUsed == s.stats.prefetchUsed
    && t.stats.prefetchPollutionEvictions == s.stats.prefetchPollutionEvictions
    && t.stats.prefetchDemandEvictions == s.stats.prefetchDemandEvictions
    && t.stats.evictions == s.stats.evictions
  }

  function CountMiss(s: Pool, access: Access): (t: Pool)
    ensures OnlyCounts(s, t)
    ensures Shape(s) ==> Shape(t)
  {
    if IsPrefetch(access)
    then s.(stats := s.stats.(prefetchMisses := s.stats.prefetchMisses + 1))
    else s.(stats := s.stats.(misses := s.stats.misses + 1))
  }

  function CountRejection(s: Pool, access: Access): (t: Pool)
    ensures OnlyCounts(s, t)
    ensures Shape(s) ==> Shape(t)
  {
    if IsPrefetch(access)
    then s.(stats := s.stats.(prefetchAdmissionRejections := s.stats.prefetchAdmissionRejections + 1))
    else s.(stats := s.stats.(pinnedVictimFailures := s.stats.pinnedVictimFailures + 1))
  }

  function CountCoalesced(s: Pool): (t: Pool)
    ensures OnlyCounts(s, t)
    ensures Shape(s) ==> Shape(t)
  {
    s.(stats := s.stats.(coalescedMisses := s.stats.coalescedMisses + 1))
  }

  /**
    Bind a frame that has already left its old place to `page`. Encoding the chunk id
    comes first, so an oversized page id leaves the frame in no list at all.
   */
  function ClaimFrame(s: Pool, frame: Frame, page: PageId, access: Access, coalesced: bool, evicted: bool)
    : (Pool, Outcome)
    requires frame in s.pins
  {
    if page >= CHUNK_NO_LIMIT then (s, Threw(OutOfRange))
    else (s.(pins := s.pins[frame := s.pins[frame] + 1], loading := s.loading[page := frame]),
          Reserved(Reservation(Load, page, Some(frame), coalesced, evicted, access, false)))
  }

  function PopFree(s: Pool): Pool
    requires |s.free| > 0
  {
    s.(free := s.free[..|s.free| - 1])
  }

  function MissPage(s: Pool, page: PageId, access: Access, coalesced: bool): (Pool, Outcome)
    requires Shape(s)
  {
    var counted := CountMiss(s, access);
    if s.capacity == 0 then (counted, Reserved(BypassOf(page, coalesced, access)))
    else if |s.free| > 0 then
      ClaimFrame(PopFree(counted), s.free[|s.free| - 1], page, access, coalesced, false)
    else
      var (evicted, outcome) := EvictFor(counted, access);
      match outcome
      case Underflow => (evicted, Threw(LogicError))
      case NoVictim => (CountRejection(evicted, access), Reserved(BypassOf(page, coalesced, access)))
      case Evicted(frame) => ClaimFrame(evicted, frame, page, access, coalesced, true)
  }

  /** One pass of the reservation loop; after `Blocked` the caller comes back with `coalesced` set. */
  function ReservePass(s: Pool, page: PageId, access: Access, wait: bool, coalesced: bool): (Pool, Outcome)
    requires Shape(s)
  {
    if page in s.resident then HitResident(s, page, access, coalesced)
    else if page in s.loading then
      (CountCoalesced(s), if wait then Blocked else Reserved(BypassOf(page, true, access)))
    else MissPage(s, page, access, coalesced)
  }

  function TryReserveHit(s: Pool, page: PageId, access: Access): (Pool, Outcome)
    requires Shape(s)
  {
    if page in s.resident then HitResident(s, page, access, false)
    else (s, Reserved(BypassOf(page, false, access)))
  }

  // ---------- Publication and release ----------

  predicate IsLoad(r: Reservation) {
    r.state.Load? && r.frame.Some?
  }

  predicate MatchesLoading(s: Pool, r: Reservation) {
    IsLoad(r) && r.page in s.loading && s.loading[r.page] == r.frame.value
  }

  function PublishLoaded(s: Pool, r: Reservation): Pool
    requires MatchesLoading(s, r)
  {
    s.(loading := s.loading - {r.page},
       lru := if IsPrefetch(r.access) then s.lru + [r.page] else [r.page] + s.lru,
       resident := if r.page in s.resident then s.resident
                   else s.resident[r.page := Entry(r.frame.value, IsPrefetch(r.access))],
       unused := if IsPrefetch(r.access) then s.unused + 1 else s.unused)
  }

  function PublishFailed(s: Pool, r: Reservation): Pool
    requires MatchesLoading(s, r) && r.frame.value in s.pins
  {
    s.(loading := s.loading - {r.page},
       pins := s.pins[r.frame.value := if s.pins[r.frame.value] > 0 then s.pins[r.frame.value] - 1 else 0],
       free := s.free + [r.frame.value],
       stats := s.stats.(failedLoads := s.stats.failedLoads + 1))
  }

  function Publish(s: Pool, r: Reservation, success: bool): (Pool, Option<Error>)
    requires Shape(s)
  {
    if !IsLoad(r) then (s, None)
    else if !MatchesLoading(s, r) then (s, Some(LogicError))
    else (if success then PublishLoaded(s, r) else PublishFailed(s, r), None)
  }

  /** Pin counts live in the frame; a frame this pool does not know has no pins to drop. */
  function Release(s: Pool, r: Reservation): (Pool, Option<Error>) {
    if r.frame.None? || r.state.Bypass? then (s, None)
    else if r.frame.value !in s.pins || s.pins[r.frame.value] == 0 then (s, Some(LogicError))
    else (s.(pins := s.pins[r.frame.value := s.pins[r.frame.value] - 1]), None)
  }

  // ---------- Clearing ----------

  predicate ResidentUnpinned(s: Pool)
    requires forall p :: p in s.resident ==> s.resident[p].frame in s.pins
  {
    forall p | p in s.resident :: s.pins[s.resident[p].frame] == 0
  }

  function Clear(s: Pool): (Pool, Option<Error>)
    requires Shape(s)
  {
    if s.loading != map[] || !ResidentUnpinned(s) then (s, Some(LogicError))
    else (s.(resident := map[], lru := [], free := FrameSeq(s.firstFrame, s.capacity),
             unused := 0, credit := true, stats := NO_STATS), None)
  }

  /** The replacement frames are new objects, so they get ids no earlier frame had. */
  function ResetCapacity(s: Pool, capacity: nat): (Pool, Option<Error>)
    requires Shape(s)
  {
    if capacity == 0 then (s, Some(InvalidArgument))
    else if s.loading != map[] || !ResidentUnpinned(s) then (s, Some(LogicError))
    else (EmptyPool(capacity, s.firstFrame + s.capacity), None)
  }

  // ---------- Batches ----------

  /** A batch either reserves every page, waits at one that another caller is loading, or throws. */
  datatype Batch =
    | BatchReserved(got: seq<Reservation>)
    | BatchBlocked(got: seq<Reservation>)
    | BatchThrew(error: Error)

  ghost predicate StrictlyIncreasing(pages: seq<PageId>) {
    forall i, j :: 0 <= i < j < |pages| ==> pages[i] < pages[j]
  }

  /**
    Reserve `pages[|got|..]` in order, having already reserved the pages before; `coalesced` says
    that the next one has been waited for.
   */
  function ReserveRest(s: Pool, pages: seq<PageId>, access: Access, got: seq<Reservation>, coalesced: bool): (Pool, Batch)
    requires Shape(s) && |got| <= |pages|
    decreases |pages| - |got|
  {
    if |got| == |pages| then (s, BatchReserved(got))
    else
      var (t, out) := ReservePass(s, pages[|got|], access, true, coalesced);
      assert Shape(t) by { ReservePassKeepsShape(s, pages[|got|], access, true, coalesced); }
      match out
      case Blocked => (t, BatchBlocked(got))
      case Threw(e) => (t, BatchThrew(e))
      case Reserved(r) => ReserveRest(t, pages, access, got + [r], false)
  }

  function PublishAll(s: Pool, rs: seq<Reservation>, success: bool): (Pool, Option<Error>)
    requires Shape(s)
    decreases |rs|
  {
    if |rs| == 0 then (s, None)
    else
      var (t, e) := Publish(s, rs[0], success);
      PublishKeepsShape(s, rs[0], success);
      if e.Some? then (t, e) else PublishAll(t, rs[1..], success)
  }

  function ReleaseAll(s: Pool, rs: seq<Reservation>): (Pool, Option<Error>)
    decreases |rs|
  {
    if |rs| == 0 then (s, None)
    else
      var (t, e) := Release(s, rs[0]);
      if e.Some? then (t, e) else ReleaseAll(t, rs[1..])
  }

  // ---------- The shape survives every operation ----------

  lemma LoadingPinned(s: Pool, page: PageId)
    requires Shape(s) && page in s.loading
    ensures s.loading[page] in s.pins && page !in s.resident
  {
  }

  lemma ResidentPinned(s: Pool)
    requires Shape(s)
    ensures forall p :: p in s.resident ==> s.resident[p].frame in s.pins
  {
  }

  lemma HitKeepsShape(s: Pool, page: PageId, access: Access, coalesced: bool)
    requires Shape(s) && page in s.resident
    ensures Shape(HitResident(s, page, access, coalesced).0)
  {
    if access.Demand? {
      TouchKeepsShape(s, page);
    }
  }

  lemma TouchKeepsShape(s: Pool, page: PageId)
    requires Shape(s) && page in s.resident
    ensures Shape(TouchDemanded(s, page))
  {
    MovedKeepsElements(s.lru, TouchDemanded(s, page).lru, IndexOf(s.lru, page));
    hide MoveToFront, IndexOf;
  }

  lemma EvictKeepsShape(s: Pool, i: nat)
    requires Shape(s) && i < |s.lru|
    requires s.resident[s.lru[i]].prefetchedUnused ==> s.unused > 0
    ensures Shape(EvictAt(s, i))
  {
    RemovedKeepsElements(s.lru, EvictAt(s, i).lru, i);
    hide RemoveAt;
  }

  lemma EvictForKeepsShape(s: Pool, access: Access)
    requires Shape(s)
    ensures var t := EvictFor(s, access).0;
      Shape(t) && t.loading == s.loading && t.resident.Keys <= s.resident.Keys
  {
    hide Shape, EvictAt;
    SelectVictimKeepsShape(s, true);
    SelectVictimKeepsShape(s, false);
    ChargeKeepsShape(SelectVictim(s, false).0, access);
    hide SelectVictim;
  }

  lemma ChargeKeepsShape(s: Pool, access: Access)
    requires Shape(s)
    ensures Shape(ChargeDemandEviction(s, access))
  {
  }

  lemma SelectVictimKeepsShape(s: Pool, requireUnused: bool)
    requires Shape(s)
    ensures var t := SelectVictim(s, requireUnused).0;
      Shape(t) && t.loading == s.loading && t.resident.Keys <= s.resident.Keys
  {
    var c := LastEligible(s, requireUnused, |s.lru|);
    if c.Some? && (s.resident[s.lru[c.value]].prefetchedUnused ==> s.unused > 0) {
      EvictKeepsShape(s, c.value);
    }
  }

  lemma ClaimKeepsShape(s: Pool, frame: Frame, page: PageId, access: Access, coalesced: bool, evicted: bool)
    requires Shape(s) && frame in s.pins && page !in s.resident
    ensures Shape(ClaimFrame(s, frame, page, access, coalesced, evicted).0)
  {
  }

  lemma PopFreeKeepsShape(s: Pool)
    requires Shape(s) && |s.free| > 0
    ensures Shape(PopFree(s)) && s.free[|s.free| - 1] in s.pins
  {
  }

  lemma MissKeepsShape(s: Pool, page: PageId, access: Access, coalesced: bool)
    requires Shape(s) && page !in s.resident
    ensures Shape(MissPage(s, page, access, coalesced).0)
  {
    hide Shape, EvictFor, ClaimFrame, CountMiss, CountRejection;
    var counted := CountMiss(s, access);
    if s.capacity > 0 {
      if |s.free| > 0 {
        PopFreeKeepsShape(counted);
        ClaimKeepsShape(PopFree(counted), s.free[|s.free| - 1], page, access, coalesced, false);
      } else {
        EvictForKeepsShape(counted, access);
        var (t, e) := EvictFor(counted, access);
        if e.Evicted? {
          ClaimKeepsShape(t, e.frame, page, access, coalesced, true);
        }
      }
    }
  }

  lemma ReservePassKeepsShape(s: Pool, page: PageId, access: Access, wait: bool, coalesced: bool)
    requires Shape(s)
    ensures Shape(ReservePass(s, page, access, wait, coalesced).0)
  {
    hide Shape, HitResident, MissPage, CountCoalesced;
    if page in s.resident {
      HitKeepsShape(s, page, access, coalesced);
    } else if page !in s.loading {
      MissKeepsShape(s, page, access, coalesced);
    }
  }

  lemma PublishKeepsShape(s: Pool, r: Reservation, success: bool)
    requires Shape(s)
    ensures Shape(Publish(s, r, success).0)
  {
    if MatchesLoading(s, r) {
      var t := Publish(s, r, success).0;
      assert r.page !in s.resident;
      if success {
        assert t.lru == if IsPrefetch(r.access) then s.lru + [r.page] else [r.page] + s.lru;
        forall p | p in t.resident ensures p in t.lru {
        }
      }
    }
  }
}
