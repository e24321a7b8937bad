/**
  The mutable pool object of src/io_lru_buffer_pool.cc, one method per locked section.
  Each method is proved to take `State()` where the matching function of `IoLruPool` says.
 */
module IoLruBufferPoolObject {
  import opened Common
  import opened IoLruPool

  lemma ResidentListed(s: Pool, page: PageId)
    requires Shape(s) && page in s.resident
    ensures IndexOf(s.lru, page) < |s.lru| && s.resident[page].frame in s.pins
  {
    hide IndexOf;
  }

  lemma TouchDemandedIs(s: Pool, page: PageId)
    requires Shape(s) && page in s.resident && IndexOf(s.lru, page) < |s.lru| && s.resident[page].frame in s.pins
    ensures var entry := s.resident[page];
      var moved := s.(pins := s.pins[entry.frame := s.pins[entry.frame] + 1],
                      lru := MoveToFront(s.lru, IndexOf(s.lru, page)),
                      stats := s.stats.(demandHits := s.stats.demandHits + 1),
                      resident := s.resident[page := Entry(entry.frame, false)]);
      TouchDemanded(s, page) ==
        if entry.prefetchedUnused && s.unused > 0 then
          moved.(unused := s.unused - 1, credit := true,
                 stats := moved.stats.(prefetchUsed := s.stats.prefetchUsed + 1))
        else moved
  {
    hide Shape, MoveToFront, IndexOf;
  }

  lemma NoneEligible(s: Pool, requireUnused: bool)
    requires Shape(s)
    ensures LastEligible(s, requireUnused, 0) == None
  {
  }

  lemma LastEligibleStep(s: Pool, requireUnused: bool, n: nat)
    requires Shape(s) && n < |s.lru|
    ensures s.lru[n] in s.resident && s.resident[s.lru[n]].frame in s.pins
    ensures LastEligible(s, requireUnused, n + 1) ==
      if Eligible(s, requireUnused, s.lru[n]) then Some(n) else LastEligible(s, requireUnused, n)
  {
    var p := s.lru[n];
    assert p in s.resident;
  }

  lemma EmptyPoolShape(capacity: nat, firstFrame: Frame)
    ensures Shape(EmptyPool(capacity, firstFrame))
    ensures FramesOf(firstFrame, capacity) <= EmptyPool(capacity, firstFrame).pins.Keys
  {
    var s := EmptyPool(capacity, firstFrame);
    forall i | 0 <= i < |s.free| ensures s.free[i] in s.pins {
      assert s.free[i] in FramesOf(firstFrame, capacity);
    }
  }

  lemma ClearKeepsShape(s: Pool)
    requires Shape(s) && FramesOf(s.firstFrame, s.capacity) <= s.pins.Keys
    ensures Shape(Clear(s).0)
  {
    var t := Clear(s).0;
    if Clear(s).1.None? {
      forall i | 0 <= i < |t.free| ensures t.free[i] in t.pins {
        assert t.free[i] in FramesOf(s.firstFrame, s.capacity);
      }
    }
  }

  class IoLruBufferPool {
    var capacity: nat
    var firstFrame: Frame
    var free: seq<Frame>
    var resident: map<PageId, Entry>
    var loading: map<PageId, Frame>
    var lru: seq<PageId>
    var unused: nat
    var credit: bool
    var stats: Stats
    var pins: map<Frame, nat>

    function State(): Pool
      reads this
    {
      Pool(capacity, firstFrame, free, resident, loading, lru, unused, credit, stats, pins)
    }

    /** The code can follow its iterators and frame pointers, and the pool's own frames exist. */
    ghost predicate Valid()
      reads this
    {
      Shape(State()) && FramesOf(firstFrame, capacity) <= pins.Keys
    }

    constructor (capacityPages: nat)
      ensures Valid() && State() == EmptyPool(capacityPages, 0)
    {
      capacity := capacityPages;
      firstFrame := 0;
      free := FrameSeq(0, capacityPages);
      resident, loading, lru := map[], map[], [];
      unused, credit, stats := 0, true, NO_STATS;
      pins := map f | f in FramesOf(0, capacityPages) :: 0;
      new;
      EmptyPoolShape(capacityPages, 0);
    }

    /** Pin a resident page and, for a demand access, move it to the front. */
    method PinResident(page: PageId, access: Access, coalesced: bool) returns (out: Outcome)
      requires Valid() && page in resident
      modifies this
      ensures Valid() && (State(), out) == HitResident(old(State()), page, access, coalesced)
    {
      hide Shape, FramesOf, TouchDemanded, TouchPrefetched;
      ResidentListed(State(), page);
      var entry := resident[page];
      var prefetchedHit := access.Demand? && entry.prefetchedUnused;
      out := Reserved(Reservation(Hit, page, Some(entry.frame), coalesced, false, access, prefetchedHit));
      if access.Demand? {
        var counted := PinDemanded(page);
        if !counted {
          out := Threw(LogicError);
        }
      } else {
        PinPrefetched(page);
      }
    }

    /** False when an unused prefetch is hit though none is counted. */
    method PinDemanded(page: PageId) returns (counted: bool)
      requires Valid() && page in resident
      modifies this
      ensures Valid() && State() == TouchDemanded(old(State()), page)
      ensures counted <==> (old(resident[page]).prefetchedUnused ==> old(unused) > 0)
    {
      hide Shape, MoveToFront, IndexOf, FramesOf, TouchDemanded;
      ghost var s := State();
      ResidentListed(s, page);
      TouchKeepsShape(s, page);
      TouchDemandedIs(s, page);
      var entry := resident[page];
      pins := pins[entry.frame := pins[entry.frame] + 1];
      lru := MoveToFront(lru, IndexOf(lru, page));
      stats := stats.(demandHits := stats.demandHits + 1);
      resident := resident[page := Entry(entry.frame, false)];
      if entry.prefetchedUnused {
        if unused == 0 {
          return false;
        }
        unused := unused - 1;
        credit := true;
        stats := stats.(prefetchUsed := stats.prefetchUsed + 1);
      }
      return true;
    }

    method PinPrefetched(page: PageId)
      requires Valid() && page in resident
      modifies this`pins, this`stats
      ensures Valid() && State() == TouchPrefetched(old(State()), page)
    {
      hide Shape, FramesOf;
      ghost var s := State();
      ResidentListed(s, page);
      HitKeepsShape(s, page, Prefetch, false);
      var frame := resident[page].frame;
      pins := pins[frame := pins[frame] + 1];
      stats := stats.(prefetchHits := stats.prefetchHits + 1);
    }

    /** Scan the recency list from its back for an unpinned page and drop the first one found. */
    method TakeVictim(requireUnused: bool) returns (e: Eviction)
      requires Valid()
      modifies this
      ensures Valid() && (State(), e) == SelectVictim(old(State()), requireUnused)
    {
      hide Shape, LastEligible, RemoveAt, FramesOf;
      ghost var s := State();
      SelectVictimKeepsShape(s, requireUnused);
      NoneEligible(s, requireUnused);
      var n: nat := |lru|;
      while n > 0
        invariant n <= |lru| && State() == s
        invariant LastEligible(s, requireUnused, |lru|) == LastEligible(s, requireUnused, n)
      {
        n := n - 1;
        LastEligibleStep(s, requireUnused, n);
        var page := lru[n];
        var entry := resident[page];
        if pins[entry.frame] == 0 && (requireUnused ==> entry.prefetchedUnused) {
          if entry.prefetchedUnused {
            if unused == 0 {
              return Underflow;
            }
            unused := unused - 1;
            stats := stats.(prefetchPollutionEvictions := stats.prefetchPollutionEvictions + 1);
          }
          lru := RemoveAt(lru, n);
          resident := resident - {page};
          stats := stats.(evictions := stats.evictions + 1);
          assert State() == EvictAt(s, n);
          return Evicted(entry.frame);
        }
      }
      return NoVictim;
    }

    /** Choose a frame to reuse under the admission policy of `access`. */
    method Displace(access: Access) returns (e: Eviction)
      requires Valid()
      modifies this
      ensures Valid() && (State(), e) == EvictFor(old(State()), access)
    {
      hide Shape, SelectVictim, FramesOf;
      ghost var s := State();
      if access != Demand {
        e := NoVictim;
        if unused != 0 {
          e := TakeVictim(true);
        }
        var mayEvictDemand := access.GatewayPrefetch? || credit;
        if e.NoVictim? && mayEvictDemand {
          e := TakeVictim(false);
          if e.Evicted? {
            ChargeKeepsShape(State(), access);
            if access.Prefetch? {
              credit := false;
            }
            stats := stats.(prefetchDemandEvictions := stats.prefetchDemandEvictions + 1);
          }
        }
      } else {
        e := TakeVictim(false);
      }
    }

    /** One pass of the loop in reserve_locked; `Blocked` is where the source waits for a publication. */
    method Reserve(page: PageId, access: Access, wait: bool, coalesced: bool) returns (out: Outcome)
      requires Valid()
      modifies this
      ensures Valid() && (State(), out) == ReservePass(old(State()), page, access, wait, coalesced)
    {
      hide Shape, HitResident, MissPage, FramesOf;
      ghost var s := State();
      ReservePassKeepsShape(s, page, access, wait, coalesced);
      if page in resident {
        out := PinResident(page, access, coalesced);
        return;
      }
      if page in loading {
        stats := stats.(coalescedMisses := stats.coalescedMisses + 1);
        assert State() == CountCoalesced(s);
        if !wait {
          return Reserved(BypassOf(page, true, access));
        }
        return Blocked;
      }
      out := LoadAbsent(page, access, coalesced);
    }

    method CountMissed(access: Access)
      requires Valid()
      modifies this`stats
      ensures Valid() && State() == CountMiss(old(State()), access)
    {
      hide Shape, FramesOf;
      if access == Demand {
        stats := stats.(misses := stats.misses + 1);
      } else {
        stats := stats.(prefetchMisses := stats.prefetchMisses + 1);
      }
      assert State() == CountMiss(old(State()), access);
    }

    method CountRejected(access: Access)
      requires Valid()
      modifies this`stats
      ensures Valid() && State() == CountRejection(old(State()), access)
    {
      hide Shape, FramesOf;
      if access == Demand {
        stats := stats.(pinnedVictimFailures := stats.pinnedVictimFailures + 1);
      } else {
        stats := stats.(prefetchAdmissionRejections := stats.prefetchAdmissionRejections + 1);
      }
      assert State() == CountRejection(old(State()), access);
    }

    /** Bind a frame that is in no list to a page that is about to be read. */
    method Claim(frame: Frame, page: PageId, access: Access, coalesced: bool, evicted: bool) returns (out: Outcome)
      requires Valid() && frame in pins && page !in resident
      modifies this
      ensures Valid() && (State(), out) == ClaimFrame(old(State()), frame, page, access, coalesced, evicted)
    {
      hide Shape, FramesOf;
      ghost var s := State();
      ClaimKeepsShape(s, frame, page, access, coalesced, evicted);
      if page >= CHUNK_NO_LIMIT {
        return Threw(OutOfRange);
      }
      pins := pins[frame := pins[frame] + 1];
      loading := loading[page := frame];
      return Reserved(Reservation(Load, page, Some(frame), coalesced, evicted, access, false));
    }

    method LoadAbsent(page: PageId, access: Access, coalesced: bool) returns (out: Outcome)
      requires Valid() && page !in resident && page !in loading
      modifies this
      ensures Valid() && (State(), out) == MissPage(old(State()), page, access, coalesced)
    {
      hide Shape, EvictFor, ClaimFrame, CountMiss, CountRejection, FramesOf;
      CountMissed(access);
      if capacity == 0 {
        return Reserved(BypassOf(page, coalesced, access));
      }
      if |free| > 0 {
        PopFreeKeepsShape(State());
        var frame := free[|free| - 1];
        free := free[..|free| - 1];
        out := Claim(frame, page, access, coalesced, false);
      } else {
        EvictForKeepsShape(State(), access);
        var e := Displace(access);
        if e.Underflow? {
          return Threw(LogicError);
        }
        if e.NoVictim? {
          CountRejected(access);
          return Reserved(BypassOf(page, coalesced, access));
        }
        out := Claim(e.frame, page, access, coalesced, true);
      }
    }

    method TryReserve(page: PageId, access: Access) returns (out: Outcome)
      requires Valid()
      modifies this
      ensures Valid() && (State(), out) == TryReserveHit(old(State()), page, access)
    {
      hide Shape, HitResident, FramesOf;
      if page !in resident {
        return Reserved(BypassOf(page, false, access));
      }
      out := PinResident(page, access, false);
    }

    /**
      Reserve a strictly increasing batch until it is complete or must wait for a page; after the
      wait the caller goes on with `ReserveFrom`.
     */
    method ReserveMany(pages: seq<PageId>, access: Access) returns (b: Batch)
      requires Valid()
      modifies this
      ensures Valid()
      ensures !StrictlyIncreasing(pages) ==> State() == old(State()) && b == BatchThrew(InvalidArgument)
      ensures StrictlyIncreasing(pages) ==> (State(), b) == ReserveRest(old(State()), pages, access, [], false)
    {
      var i := 1;
      while i < |pages|
        invariant 1 <= i && (i <= |pages| || |pages| == 0)
        invariant forall j, k :: 0 <= j < k < i && k < |pages| ==> pages[j] < pages[k]
      {
        if pages[i - 1] >= pages[i] {
          return BatchThrew(InvalidArgument);
        }
        i := i + 1;
      }
      b := ReserveFrom(pages, access, [], false);
    }

    /** The loop of the batch, which a caller that had to wait enters again with what it has got so far. */
    method ReserveFrom(pages: seq<PageId>, access: Access, start: seq<Reservation>, waited: bool) returns (b: Batch)
      requires Valid() && |start| <= |pages|
      modifies this
      ensures Valid() && (State(), b) == ReserveRest(old(State()), pages, access, start, waited)
    {
      hide Shape, ReservePass, FramesOf;
      ghost var s := State();
      var got, coalesced := start, waited;
      while |got| < |pages|
        invariant Valid() && |got| <= |pages|
        invariant ReserveRest(s, pages, access, start, waited) == ReserveRest(State(), pages, access, got, coalesced)
        decreases |pages| - |got|
      {
        var out := Reserve(pages[|got|], access, true, coalesced);
        match out {
          case Blocked => return BatchBlocked(got);
          case Threw(e) => return BatchThrew(e);
          case Reserved(r) => got, coalesced := got + [r], false;
        }
      }
      return BatchReserved(got);
    }

    /** Make a load visible, or give its frame back. */
    method PublishOne(r: Reservation, success: bool) returns (e: Option<Error>)
      requires Valid()
      modifies this
      ensures Valid() && (State(), e) == Publish(old(State()), r, success)
    {
      hide Shape, FramesOf;
      ghost var s := State();
      PublishKeepsShape(s, r, success);
      if MatchesLoading(s, r) {
        LoadingPinned(s, r.page);
      }
      if !r.state.Load? || r.frame.None? {
        return None;
      }
      if r.page !in loading || loading[r.page] != r.frame.value {
        return Some(LogicError);
      }
      var frame := r.frame.value;
      loading := loading - {r.page};
      if success {
        lru := if r.access == Demand then [r.page] + lru else lru + [r.page];
        resident := resident[r.page := Entry(frame, r.access != Demand)];
        if r.access != Demand {
          unused := unused + 1;
        }
      } else {
        pins := pins[frame := if pins[frame] > 0 then pins[frame] - 1 else 0];
        free := free + [frame];
        stats := stats.(failedLoads := stats.failedLoads + 1);
      }
      return None;
    }

    method PublishMany(rs: seq<Reservation>, success: bool) returns (e: Option<Error>)
      requires Valid()
      modifies this
      ensures Valid() && (State(), e) == PublishAll(old(State()), rs, success)
    {
      ghost var s := State();
      var i := 0;
      while i < |rs|
        invariant 0 <= i <= |rs| && Valid()
        invariant PublishAll(s, rs, success) == PublishAll(State(), rs[i..], success)
      {
        e := PublishOne(rs[i], success);
        if e.Some? {
          return;
        }
        assert rs[i..][1..] == rs[i + 1..];
        i := i + 1;
      }
      return None;
    }

    method ReleaseOne(r: Reservation) returns (e: Option<Error>)
      requires Valid()
      modifies this
      ensures Valid() && (State(), e) == Release(old(State()), r)
    {
      hide FramesOf;
      if r.frame.None? || r.state.Bypass? {
        return None;
      }
      if r.frame.value !in pins || pins[r.frame.value] == 0 {
        return Some(LogicError);
      }
      pins := pins[r.frame.value := pins[r.frame.value] - 1];
      return None;
    }

    method ReleaseMany(rs: seq<Reservation>) returns (e: Option<Error>)
      requires Valid()
      modifies this
      ensures Valid() && (State(), e) == ReleaseAll(old(State()), rs)
    {
      ghost var s := State();
      var i := 0;
      while i < |rs|
        invariant 0 <= i <= |rs| && Valid()
        invariant ReleaseAll(s, rs) == ReleaseAll(State(), rs[i..])
      {
        e := ReleaseOne(rs[i]);
        if e.Some? {
          return;
        }
        assert rs[i..][1..] == rs[i + 1..];
        i := i + 1;
      }
      return None;
    }

    method ClearPages() returns (e: Option<Error>)
      requires Valid()
      modifies this
      ensures Valid() && (State(), e) == Clear(old(State()))
    {
      hide Shape, FramesOf, FrameSeq, ResidentUnpinned;
      ghost var s := State();
      ResidentPinned(s);
      ClearKeepsShape(s);
      if loading != map[] || !ResidentUnpinned(State()) {
        return Some(LogicError);
      }
      resident, lru, free := map[], [], FrameSeq(firstFrame, capacity);
      unused, credit, stats := 0, true, NO_STATS;
      return None;
    }

    method Resize(capacityPages: nat) returns (e: Option<Error>)
      requires Valid()
      modifies this
      ensures Valid() && (State(), e) == ResetCapacity(old(State()), capacityPages)
    {
      hide Shape, FramesOf, FrameSeq, ResidentUnpinned, EmptyPool;
      ResidentPinned(State());
      if capacityPages == 0 {
        return Some(InvalidArgument);
      }
      if loading != map[] || !ResidentUnpinned(State()) {
        return Some(LogicError);
      }
      Renew(capacityPages);
      return None;
    }

    /** Start over with new frames. */
    method Renew(capacityPages: nat)
      modifies this
      ensures Valid() && State() == EmptyPool(capacityPages, old(firstFrame) + old(capacity))
    {
      hide Shape, FramesOf, FrameSeq;
      EmptyPoolShape(capacityPages, firstFrame + capacity);
      firstFrame := firstFrame + capacity;
      capacity := capacityPages;
      free := FrameSeq(firstFrame, capacity);
      pins := map f | f in FramesOf(firstFrame, capacity) :: 0;
      resident, loading, lru := map[], map[], [];
      unused, credit, stats := 0, true, NO_STATS;
    }
  }
}
