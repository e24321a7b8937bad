/**
  What the batch calls of src/io_lru_buffer_pool.cc do to the pool as a whole: a batch that reserves,
  publishes or releases is the run of the single calls, up to the first that fails.
 */
module IoLruBatches {
  import opened Common
  import opened IoLruPool
  import opened IoLruInvariants

  // ---------- Publication ----------

  function LoadPages(rs: seq<Reservation>): set<PageId> {
    set i | 0 <= i < |rs| && IsLoad(rs[i]) :: rs[i].page
  }

  /** The frames of the loads, in order. */
  function LoadFrames(rs: seq<Reservation>): seq<Frame> {
    if |rs| == 0 then []
    else (if IsLoad(rs[0]) then [rs[0].frame.value] else []) + LoadFrames(rs[1..])
  }

  /** The pages that were loaded on demand, the last one first. */
  function Demanded(rs: seq<Reservation>): seq<PageId> {
    if |rs| == 0 then []
    else Demanded(rs[1..]) + PageIf(rs[0], IsLoad(rs[0]) && rs[0].access.Demand?)
  }

  /** The pages that were loaded ahead of demand, in order. */
  function Prefetched(rs: seq<Reservation>): seq<PageId> {
    if |rs| == 0 then []
    else PageIf(rs[0], IsLoad(rs[0]) && !rs[0].access.Demand?) + Prefetched(rs[1..])
  }

  function PageIf(r: Reservation, listed: bool): seq<PageId> {
    if listed then [r.page] else []
  }

  /** Every load of `rs` was in flight in its frame, and none occurs twice. */
  ghost predicate InFlight(s: Pool, rs: seq<Reservation>) {
    && (forall i :: 0 <= i < |rs| && IsLoad(rs[i]) ==> rs[i].page in s.loading && s.loading[rs[i].page] == rs[i].frame.value)
    && (forall i, j :: 0 <= i < j < |rs| && IsLoad(rs[i]) && IsLoad(rs[j]) ==> rs[i].page != rs[j].page)
  }

  /** The loads of `rs` have become resident pages, each in its frame and still pinned. */
  ghost predicate Landed(s: Pool, rs: seq<Reservation>, t: Pool) {
    && t.loading == s.loading - LoadPages(rs)
    && t.resident.Keys == s.resident.Keys + LoadPages(rs)
    && (forall p :: p in s.resident ==> t.resident[p] == s.resident[p])
    && (forall i :: 0 <= i < |rs| && IsLoad(rs[i]) ==>
          t.resident[rs[i].page] == Entry(rs[i].frame.value, !rs[i].access.Demand?))
    && t.lru == Demanded(rs) + s.lru + Prefetched(rs)
    && t.unused == s.unused + |Prefetched(rs)|
    && t == s.(loading := t.loading, resident := t.resident, lru := t.lru, unused := t.unused)
  }

  /** The loads of `rs` have been given up: their frames are free and lose a pin. */
  ghost predicate GivenUp(s: Pool, rs: seq<Reservation>, t: Pool) {
    && t.loading == s.loading - LoadPages(rs)
    && t.free == s.free + LoadFrames(rs)
    && t.pins.Keys == s.pins.Keys
    && (forall f :: f in s.pins && f !in LoadFrames(rs) ==> t.pins[f] == s.pins[f])
    && (forall f :: f in s.pins && f in LoadFrames(rs) ==> t.pins[f] == if s.pins[f] > 0 then s.pins[f] - 1 else 0)
    && t == s.(loading := t.loading, free := t.free, pins := t.pins,
               stats := s.stats.(failedLoads := s.stats.failedLoads + |LoadFrames(rs)|))
  }

  ghost predicate OneFrameEach(loading: map<PageId, Frame>) {
    forall p, q :: p in loading && q in loading && p != q ==> loading[p] != loading[q]
  }

  lemma OneLoad(r: Reservation)
    requires IsLoad(r)
    ensures LoadPages([r]) == {r.page} && LoadFrames([r]) == [r.frame.value]
    ensures Demanded([r]) == if r.access.Demand? then [r.page] else []
    ensures Prefetched([r]) == if r.access.Demand? then [] else [r.page]
  {
    assert [r][0] == r && [r][1..] == [];
    assert LoadPages([r]) == {r.page};
  }

  lemma HeadLands(s: Pool, r: Reservation)
    requires Shape(s) && MatchesLoading(s, r)
    ensures Landed(s, [r], PublishLoaded(s, r))
  {
    hide LoadPages, LoadFrames, Demanded, Prefetched;
    LoadingPinned(s, r.page);
    OneLoad(r);
    hide Shape;
    var t := PublishLoaded(s, r);
    assert t.lru == Demanded([r]) + s.lru + Prefetched([r]);
  }

  lemma HeadGivenUp(s: Pool, r: Reservation)
    requires Shape(s) && MatchesLoading(s, r) && r.frame.value in s.pins
    ensures GivenUp(s, [r], PublishFailed(s, r))
  {
    hide LoadPages, LoadFrames;
    OneLoad(r);
    hide Shape;
  }

  lemma HeadPublished(s: Pool, r: Reservation, success: bool)
    requires Shape(s) && MatchesLoading(s, r)
    ensures var (t, e) := Publish(s, r, success);
      && e == None && InFlight(s, [r])
      && (if success then Landed(s, [r], t) else GivenUp(s, [r], t))
  {
    hide Shape, Landed, GivenUp, PublishLoaded, PublishFailed;
    LoadingPinned(s, r.page);
    HeadLands(s, r);
    HeadGivenUp(s, r);
  }

  lemma LoadPagesSplit(rs: seq<Reservation>)
    requires |rs| > 0
    ensures LoadPages(rs) == LoadPages([rs[0]]) + LoadPages(rs[1..])
  {
    forall p | p in LoadPages([rs[0]]) + LoadPages(rs[1..]) ensures p in LoadPages(rs) {
      if i :| 0 <= i < |rs| - 1 && IsLoad(rs[1..][i]) && rs[1..][i].page == p {
        assert rs[i + 1].page == p;
      } else {
        assert rs[0].page == p;
      }
    }
    forall p | p in LoadPages(rs) ensures p in LoadPages([rs[0]]) + LoadPages(rs[1..]) {
      var i :| 0 <= i < |rs| && IsLoad(rs[i]) && rs[i].page == p;
      if i == 0 {
        assert [rs[0]][0].page == p;
      } else {
        assert rs[1..][i - 1].page == p;
      }
    }
  }

  lemma FlightsJoin(s: Pool, rs: seq<Reservation>, u: Pool)
    requires |rs| > 0 && u.loading == s.loading - LoadPages([rs[0]])
    requires InFlight(s, [rs[0]]) && InFlight(u, rs[1..])
    ensures InFlight(s, rs)
  {
    assert [rs[0]][0] == rs[0];
    forall i | 1 <= i < |rs| && IsLoad(rs[i])
      ensures rs[i].page in s.loading && s.loading[rs[i].page] == rs[i].frame.value
      ensures IsLoad(rs[0]) ==> rs[0].page != rs[i].page
    {
      assert rs[1..][i - 1] == rs[i];
      assert IsLoad(rs[0]) ==> [rs[0]][0].page in LoadPages([rs[0]]);
    }
    forall i, j | 0 <= i < j < |rs| && IsLoad(rs[i]) && IsLoad(rs[j]) ensures rs[i].page != rs[j].page {
      assert rs[1..][j - 1] == rs[j];
      if i > 0 {
        assert rs[1..][i - 1] == rs[i];
      }
    }
  }

  lemma DemandedSplits(rs: seq<Reservation>)
    requires |rs| > 0
    ensures Demanded(rs) == Demanded(rs[1..]) + Demanded([rs[0]])
  {
    hide PageIf;
    assert [rs[0]][1..] == [];
  }

  lemma PrefetchedSplits(rs: seq<Reservation>)
    requires |rs| > 0
    ensures Prefetched(rs) == Prefetched([rs[0]]) + Prefetched(rs[1..])
  {
    hide PageIf;
    PrefetchedOne(rs[0]);
  }

  lemma PrefetchedOne(r: Reservation)
    ensures Prefetched([r]) == PageIf(r, IsLoad(r) && !r.access.Demand?)
  {
    hide PageIf;
    assert [r][1..] == [];
  }

  lemma FramesSplit(rs: seq<Reservation>)
    requires |rs| > 0
    ensures LoadFrames([rs[0]]) == if IsLoad(rs[0]) then [rs[0].frame.value] else []
    ensures LoadFrames(rs) == LoadFrames([rs[0]]) + LoadFrames(rs[1..])
  {
    var one := [rs[0]];
    assert one[1..] == [] && LoadFrames([]) == [];
    assert LoadFrames(one) == (if IsLoad(rs[0]) then [rs[0].frame.value] else []) + [];
  }

  lemma EntriesJoin(s: Pool, rs: seq<Reservation>, u: Pool, t: Pool)
    requires |rs| > 0 && Landed(s, [rs[0]], u) && Landed(u, rs[1..], t) && InFlight(s, rs)
    ensures forall i :: 0 <= i < |rs| && IsLoad(rs[i]) ==>
      rs[i].page in t.resident && t.resident[rs[i].page] == Entry(rs[i].frame.value, !rs[i].access.Demand?)
  {
    hide LoadFrames, Demanded, Prefetched;
    forall i | 0 <= i < |rs| && IsLoad(rs[i])
      ensures rs[i].page in t.resident && t.resident[rs[i].page] == Entry(rs[i].frame.value, !rs[i].access.Demand?)
    {
      if i > 0 {
        assert rs[1..][i - 1] == rs[i];
        assert rs[i].page in LoadPages(rs[1..]);
      } else {
        assert [rs[0]][0] == rs[0];
        assert rs[0].page in LoadPages([rs[0]]);
      }
    }
  }

  lemma LandingsJoin(s: Pool, rs: seq<Reservation>, u: Pool, t: Pool)
    requires |rs| > 0 && InFlight(s, rs) && Landed(s, [rs[0]], u) && Landed(u, rs[1..], t)
    ensures Landed(s, rs, t)
  {
    hide LoadPages, LoadFrames, Demanded, Prefetched;
    LoadPagesSplit(rs);
    DemandedSplits(rs);
    PrefetchedSplits(rs);
    EntriesJoin(s, rs, u, t);
    hide InFlight;
    assert t.lru == Demanded(rs) + s.lru + Prefetched(rs);
    assert t.loading == s.loading - LoadPages(rs);
  }

  lemma FramesApart(s: Pool, rs: seq<Reservation>)
    requires |rs| > 0 && InFlight(s, rs) && OneFrameEach(s.loading)
    ensures IsLoad(rs[0]) ==> rs[0].frame.value !in LoadFrames(rs[1..])
  {
    if IsLoad(rs[0]) {
      forall f | f in LoadFrames(rs[1..]) ensures f != rs[0].frame.value {
        var i := FrameHasLoad(rs[1..], f);
        assert rs[i + 1].frame == Some(f);
      }
    }
  }

  lemma {:induction false} FrameHasLoad(rs: seq<Reservation>, f: Frame) returns (i: nat)
    requires f in LoadFrames(rs)
    ensures i < |rs| && IsLoad(rs[i]) && rs[i].frame.value == f
  {
    if IsLoad(rs[0]) && rs[0].frame.value == f {
      i := 0;
    } else {
      assert f in LoadFrames(rs[1..]);
      i := FrameHasLoad(rs[1..], f);
      i := i + 1;
    }
  }

  lemma GiveUpsJoin(s: Pool, rs: seq<Reservation>, u: Pool, t: Pool)
    requires |rs| > 0 && InFlight(s, rs) && OneFrameEach(s.loading) && GivenUp(s, [rs[0]], u) && GivenUp(u, rs[1..], t)
    ensures GivenUp(s, rs, t)
  {
    LoadPagesSplit(rs);
    FramesSplit(rs);
    FramesApart(s, rs);
    var first, rest := LoadFrames([rs[0]]), LoadFrames(rs[1..]);
    forall f ensures f in LoadFrames(rs) <==> f in first || f in rest {
    }
    assert t.free == s.free + LoadFrames(rs);
    assert t.loading == s.loading - LoadPages(rs);
  }

  /** The pool after a batch of publications, all with the same result. */
  ghost predicate Published(s: Pool, rs: seq<Reservation>, success: bool, t: Pool) {
    InFlight(s, rs) && if success then Landed(s, rs, t) else GivenUp(s, rs, t)
  }

  lemma NothingPublished(s: Pool, rs: seq<Reservation>, success: bool)
    requires forall i :: 0 <= i < |rs| ==> !IsLoad(rs[i])
    requires |rs| <= 1
    ensures Published(s, rs, success, s)
  {
    assert |rs| == 1 ==> rs[1..] == [];
    assert LoadPages(rs) == {};
    assert LoadFrames(rs) == [] && Demanded(rs) == [] && Prefetched(rs) == [];
    assert s.loading == s.loading - LoadPages(rs);
    assert s.resident.Keys == s.resident.Keys + LoadPages(rs);
  }

  lemma PublicationsJoin(s: Pool, rs: seq<Reservation>, success: bool, u: Pool, t: Pool)
    requires |rs| > 0 && Shape(s) && OneFrameEach(s.loading)
    requires Published(s, [rs[0]], success, u) && Published(u, rs[1..], success, t)
    ensures Published(s, rs, success, t)
  {
    hide Shape, Landed, GivenUp;
    LoadingShrinks(s, [rs[0]], success, u);
    FlightsJoin(s, rs, u);
    if success {
      LandingsJoin(s, rs, u, t);
    } else {
      GiveUpsJoin(s, rs, u, t);
    }
  }

  lemma LoadingShrinks(s: Pool, rs: seq<Reservation>, success: bool, u: Pool)
    requires Published(s, rs, success, u)
    ensures u.loading == s.loading - LoadPages(rs)
  {
  }

  lemma HeadIsPublished(s: Pool, r: Reservation, success: bool)
    requires Shape(s) && (IsLoad(r) ==> MatchesLoading(s, r))
    ensures Publish(s, r, success).1 == None && Published(s, [r], success, Publish(s, r, success).0)
  {
    hide Shape, InFlight, Landed, GivenUp;
    if IsLoad(r) {
      HeadPublished(s, r, success);
    } else {
      NothingPublished(s, [r], success);
    }
  }

  /**
    A batch publishes the loads before the first one that is not in flight, that one and the rest
    not at all; it reports an error exactly when there is such a one.
   */
  lemma {:induction false} PublishAllDoes(s: Pool, rs: seq<Reservation>, success: bool) returns (n: nat)
    requires Shape(s) && OneFrameEach(s.loading)
    ensures n <= |rs|
    ensures var (t, e) := PublishAll(s, rs, success);
      && Published(s, rs[..n], success, t)
      && (n == |rs| ==> e == None)
      && (n < |rs| ==> e == Some(LogicError) && IsLoad(rs[n]) && !MatchesLoading(t, rs[n]))
    decreases |rs|
  {
    hide Shape, Published, Publish;
    n := 0;
    if |rs| == 0 || (IsLoad(rs[0]) && !MatchesLoading(s, rs[0])) {
      NothingPublished(s, rs[..0], success);
      if |rs| > 0 {
        RefusedPublication(s, rs[0], success);
      }
    } else {
      HeadIsPublished(s, rs[0], success);
      PublishKeepsShape(s, rs[0], success);
      var u := Publish(s, rs[0], success).0;
      LoadingShrinks(s, [rs[0]], success, u);
      n := PublishAllDoes(u, rs[1..], success);
      n := n + 1;
      assert rs[..n][1..] == rs[1..][..n - 1];
      PublicationsJoin(s, rs[..n], success, u, PublishAll(s, rs, success).0);
    }
  }

  lemma RefusedPublication(s: Pool, r: Reservation, success: bool)
    requires Shape(s) && IsLoad(r) && !MatchesLoading(s, r)
    ensures Publish(s, r, success) == (s, Some(LogicError))
  {
    hide Shape;
  }

  /** In a reachable pool no two pages are being read into one frame. */
  lemma LoadsHaveOwnFrames(w: World)
    requires Reachable(w)
    ensures OneFrameEach(w.s.loading)
  {
    ReachableInv(w);
    hide Pinning, ListShape, DemandOrder, Counters;
  }

  // ---------- Release ----------

  /** How many pins of frame `f` the reservations in `rs` stand for. */
  function PinsOn(rs: seq<Reservation>, f: Frame): nat {
    if |rs| == 0 then 0
    else (if !rs[0].state.Bypass? && rs[0].frame == Some(f) then 1 else 0) + PinsOn(rs[1..], f)
  }

  /** `t` is `s` after the pins that `rs` stands for have been dropped. */
  ghost predicate Dropped(s: Pool, rs: seq<Reservation>, t: Pool) {
    && t == s.(pins := t.pins) && t.pins.Keys == s.pins.Keys
    && (forall f :: PinsOn(rs, f) > 0 ==> f in s.pins)
    && (forall f :: f in s.pins ==> t.pins[f] + PinsOn(rs, f) == s.pins[f])
  }

  predicate NoPinLeft(s: Pool, r: Reservation) {
    !r.state.Bypass? && r.frame.Some? && (r.frame.value !in s.pins || s.pins[r.frame.value] == 0)
  }

  /** The batch is refused at the first reservation whose frame has no pin left, after dropping those before. */
  lemma {:induction false} ReleaseAllDoes(s: Pool, rs: seq<Reservation>) returns (n: nat)
    ensures n <= |rs|
    ensures var (t, e) := ReleaseAll(s, rs);
      && Dropped(s, rs[..n], t)
      && (n == |rs| ==> e == None)
      && (n < |rs| ==> e == Some(LogicError) && NoPinLeft(t, rs[n]))
    decreases |rs|
  {
    hide Dropped, Release;
    n := 0;
    NothingDropped(s, rs[..0]);
    if |rs| > 0 {
      HeadReleased(s, rs[0]);
      if !NoPinLeft(s, rs[0]) {
        var u := Release(s, rs[0]).0;
        n := ReleaseAllDoes(u, rs[1..]);
        n := n + 1;
        assert rs[..n][1..] == rs[1..][..n - 1];
        DropsJoin(s, rs[..n], u, ReleaseAll(s, rs).0);
      }
    }
  }

  lemma NothingDropped(s: Pool, rs: seq<Reservation>)
    requires |rs| == 0
    ensures Dropped(s, rs, s)
  {
  }

  lemma HeadReleased(s: Pool, r: Reservation)
    ensures NoPinLeft(s, r) ==> Release(s, r) == (s, Some(LogicError))
    ensures !NoPinLeft(s, r) ==> Release(s, r).1 == None && Dropped(s, [r], Release(s, r).0)
  {
    assert [r][0] == r && [r][1..] == [];
    assert forall f :: PinsOn([r], f) == if !r.state.Bypass? && r.frame == Some(f) then 1 else 0;
  }

  lemma DropsJoin(s: Pool, rs: seq<Reservation>, u: Pool, t: Pool)
    requires |rs| > 0 && Dropped(s, [rs[0]], u) && Dropped(u, rs[1..], t)
    ensures Dropped(s, rs, t)
  {
    assert [rs[0]][0] == rs[0] && [rs[0]][1..] == [];
    assert forall f :: PinsOn(rs, f) == PinsOn([rs[0]], f) + PinsOn(rs[1..], f);
    hide PinsOn;
  }

  lemma {:induction false} PrefixPins(rs: seq<Reservation>, n: nat, f: Frame)
    requires n < |rs|
    ensures PinsOn(rs, f) >= PinsOn(rs[..n], f) + if !rs[n].state.Bypass? && rs[n].frame == Some(f) then 1 else 0
  {
    if n > 0 {
      assert rs[..n][1..] == rs[1..][..n - 1];
      PrefixPins(rs[1..], n - 1, f);
    }
  }

  ghost predicate Covers(s: Pool, rs: seq<Reservation>) {
    forall f :: PinsOn(rs, f) > 0 ==> f in s.pins && PinsOn(rs, f) <= s.pins[f]
  }

  /** A batch of releases goes through exactly when every frame carries the pins the batch stands for. */
  lemma ReleaseAllIff(s: Pool, rs: seq<Reservation>)
    ensures ReleaseAll(s, rs).1 == None <==> Covers(s, rs)
    ensures ReleaseAll(s, rs).1 == None ==> Dropped(s, rs, ReleaseAll(s, rs).0)
  {
    var n := ReleaseAllDoes(s, rs);
    if n < |rs| {
      var f := rs[n].frame.value;
      PrefixPins(rs, n, f);
      if f in s.pins {
        assert PinsOn(rs[..n], f) == s.pins[f];
      }
    } else {
      assert rs[..n] == rs;
    }
  }

  // ---------- Reservation ----------

  /** The run that makes `ops` in turn and gets `replies`. */
  ghost predicate Answers(w: World, ops: seq<Op>, replies: seq<Reply>, v: World)
    decreases |ops|
  {
    if |ops| == 0 then v == w && |replies| == 0
    else
      && |replies| > 0 && Shape(w.s) && Allowed(w, ops[0]) && replies[0] == Apply(w, ops[0]).1
      && Answers(Apply(w, ops[0]).0, ops[1..], replies[1..], v)
  }

  function ReserveOps(pages: seq<PageId>, access: Access, coalesced: bool): seq<Op> {
    seq(|pages|, i requires 0 <= i < |pages| => OpReserve(pages[i], access, true, i == 0 && coalesced))
  }

  function Granted(rs: seq<Reservation>): seq<Reply> {
    seq(|rs|, i requires 0 <= i < |rs| => Replied(Reserved(rs[i])))
  }

  /** How a batch ends, in the replies of its single calls: all are granted, or the last one is not. */
  ghost predicate EndsWith(b: Batch, all: seq<Reservation>, stop: seq<Reply>) {
    match b
    case BatchReserved(got) => got == all && stop == []
    case BatchBlocked(got) => got == all && stop == [Replied(Blocked)]
    case BatchThrew(e) => stop == [Replied(Threw(e))]
  }

  /**
    A batch is the run of its single reservations, page by page in the order given, up to the first
    that must wait or throws; when none does, there is one answer for each page.
   */
  lemma {:induction false} ReserveRestRuns(w: World, pages: seq<PageId>, access: Access, got: seq<Reservation>,
                                           coalesced: bool)
    returns (more: seq<Reservation>, stop: seq<Reply>, v: World)
    requires Shape(w.s) && |got| <= |pages|
    ensures var (t, b) := ReserveRest(w.s, pages, access, got, coalesced);
      && v.s == t && EndsWith(b, got + more, stop)
      && (b.BatchReserved? ==> |got| + |more| == |pages|)
    ensures |got| + |more| + |stop| <= |pages|
    ensures Answers(w, ReserveOps(pages[|got|..|got| + |more| + |stop|], access, coalesced), Granted(more) + stop, v)
    ensures forall i :: 0 <= i < |more| ==> more[i].page == pages[|got| + i] && more[i].access == access
    decreases |pages| - |got|
  {
    hide Shape, ReservePass, Apply, Answers, ReserveOps, Granted;
    if |got| == |pages| {
      more, stop, v := [], [], w;
      AnswersNone(w, pages[|got|..|got|], access, coalesced);
    } else {
      var (t, out) := ReservePass(w.s, pages[|got|], access, true, coalesced);
      ReservePassKeepsShape(w.s, pages[|got|], access, true, coalesced);
      ReserveApplied(w, pages[|got|], access, coalesced);
      var u := Apply(w, OpReserve(pages[|got|], access, true, coalesced)).0;
      if out.Reserved? {
        more, stop, v := ReserveRestRuns(u, pages, access, got + [out.reservation], false);
        AnswersFirst(w, pages[|got|..|got| + 1 + |more| + |stop|], access, coalesced, out.reservation, more, stop, u, v);
        assert got + ([out.reservation] + more) == got + [out.reservation] + more;
        more := [out.reservation] + more;
      } else {
        more, stop, v := [], [Replied(out)], u;
        AnswersLast(w, pages[|got|..|got| + 1], access, coalesced, Replied(out), u);
      }
    }
  }

  lemma AnswersNone(w: World, pages: seq<PageId>, access: Access, coalesced: bool)
    requires |pages| == 0
    ensures Answers(w, ReserveOps(pages, access, coalesced), Granted([]) + [], w)
  {
  }

  lemma AnswersLast(w: World, pages: seq<PageId>, access: Access, coalesced: bool, stop: Reply, u: World)
    requires Shape(w.s) && |pages| == 1 && Apply(w, OpReserve(pages[0], access, true, coalesced)) == (u, stop)
    ensures Answers(w, ReserveOps(pages, access, coalesced), Granted([]) + [stop], u)
  {
    hide Shape, Apply;
    assert ReserveOps(pages, access, coalesced) == [OpReserve(pages[0], access, true, coalesced)];
    assert Granted([]) + [stop] == [stop];
  }

  lemma ReserveApplied(w: World, page: PageId, access: Access, coalesced: bool)
    requires Shape(w.s)
    ensures var (u, reply) := Apply(w, OpReserve(page, access, true, coalesced));
      var (t, out) := ReservePass(w.s, page, access, true, coalesced);
      u.s == t && reply == Replied(out)
      && (out.Reserved? ==> out.reservation.page == page && out.reservation.access == access)
  {
    hide Shape, EvictFor, TouchDemanded, TouchPrefetched, MissHistory, HitHistory;
  }

  lemma AnswersFirst(w: World, pages: seq<PageId>, access: Access, coalesced: bool, r: Reservation,
                     more: seq<Reservation>, stop: seq<Reply>, u: World, v: World)
    requires Shape(w.s) && |pages| > 0
    requires Apply(w, OpReserve(pages[0], access, true, coalesced)) == (u, Replied(Reserved(r)))
    requires Answers(u, ReserveOps(pages[1..], access, false), Granted(more) + stop, v)
    ensures Answers(w, ReserveOps(pages, access, coalesced), Granted([r] + more) + stop, v)
  {
    hide Shape, Apply;
    var ops, replies := ReserveOps(pages, access, coalesced), Granted([r] + more) + stop;
    assert ops[1..] == ReserveOps(pages[1..], access, false);
    assert replies[1..] == Granted(more) + stop;
  }
}
