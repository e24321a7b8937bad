/**
  Any number of threads, each repeating reserve_many, publish_many and release_many on one
  page cache (src/io_lru_buffer_pool.cc). The threads interleave one page at a time, which
  allows every schedule the pool's mutex allows and more.
 */
module IoLruThreads {
  import opened Common
  import opened IoLruPool
  import opened IoLruInvariants

  /**
    `waiting` means that the thread sleeps on the condition variable until `batch[|got|]`
    is no longer being loaded. `next` is the position publish_many or release_many is at.
   */
  datatype Thread =
    | Idle
    | Reserving(batch: seq<PageId>, access: Access, waiting: bool, got: seq<Reservation>)
    | Publishing(got: seq<Reservation>, next: nat, success: bool)
    | Releasing(got: seq<Reservation>, next: nat, success: bool)

  /** `loader` records which thread, and which place in its batch, is loading each page. */
  datatype System = System(w: World, threads: seq<Thread>, loader: map<PageId, (int, int)>)

  datatype Action =
    | Start(batch: seq<PageId>, access: Access)
    | ReserveNext
    | FinishReserving(success: bool)
    | PublishNext
    | FinishPublishing
    | ReleaseNext
    | FinishReleasing

  function Got(th: Thread): seq<Reservation> {
    if th.Idle? then [] else th.got
  }

  /** The page the thread asks for next. */
  predicate Asks(th: Thread) {
    th.Reserving? && |th.got| < |th.batch|
  }

  function Awaited(th: Thread): PageId
    requires Asks(th)
  {
    th.batch[|th.got|]
  }

  predicate Stuck(s: Pool, th: Thread) {
    Asks(th) && th.waiting && Awaited(th) in s.loading
  }

  /** The thread's reservation `i` is a load that it has not yet published. */
  predicate Unpublished(th: Thread, i: int) {
    && 0 <= i < |Got(th)| && IsLoad(Got(th)[i])
    && (th.Reserving? || (th.Publishing? && i >= th.next))
  }

  /** The thread must still release reservation `i`; a load counts only once it is published. */
  predicate Owns(th: Thread, i: int)
    requires 0 <= i < |Got(th)|
  {
    var r := Got(th)[i];
    match th
    case Idle => false
    case Reserving(_, _, _, _) => r.state.Hit?
    case Publishing(_, next, success) => r.state.Hit? || (IsLoad(r) && success && i < next)
    case Releasing(_, next, success) => i >= next && (r.state.Hit? || (IsLoad(r) && success))
  }

  predicate Enabled(sys: System, t: nat, a: Action) {
    t < |sys.threads| &&
    var th := sys.threads[t];
    match a
    case Start(batch, _) =>
      && th.Idle? && (forall i, j :: 0 <= i < j < |batch| ==> batch[i] < batch[j])
      && forall i :: 0 <= i < |batch| ==> batch[i] < CHUNK_NO_LIMIT
    case ReserveNext => Asks(th) && !Stuck(sys.w.s, th)
    case FinishReserving(_) => th.Reserving? && |th.got| == |th.batch|
    case PublishNext => th.Publishing? && th.next < |th.got|
    case FinishPublishing => th.Publishing? && th.next == |th.got|
    case ReleaseNext => th.Releasing? && th.next < |th.got|
    case FinishReleasing => th.Releasing? && th.next == |th.got|
  }

  function Do(sys: System, t: nat, a: Action): System
    requires Shape(sys.w.s) && Enabled(sys, t, a)
  {
    var th := sys.threads[t];
    match a
    case Start(batch, access) => sys.(threads := sys.threads[t := Reserving(batch, access, false, [])])
    case ReserveNext =>
      var (w, reply) := Apply(sys.w, OpReserve(Awaited(th), th.access, true, th.waiting));
      if reply.Replied? && reply.outcome.Reserved? then
        var r := reply.outcome.reservation;
        var loader := if IsLoad(r) then sys.loader[Awaited(th) := (t, |th.got|)] else sys.loader;
        System(w, sys.threads[t := th.(waiting := false, got := th.got + [r])], loader)
      else System(w, sys.threads[t := th.(waiting := true)], sys.loader)
    case FinishReserving(success) => sys.(threads := sys.threads[t := Publishing(th.got, 0, success)])
    case PublishNext =>
      var r := th.got[th.next];
      var w := Apply(sys.w, OpPublish(r, th.success)).0;
      System(w, sys.threads[t := Publishing(th.got, th.next + 1, th.success)],
             if IsLoad(r) then sys.loader - {r.page} else sys.loader)
    case FinishPublishing => sys.(threads := sys.threads[t := Releasing(th.got, 0, th.success)])
    case ReleaseNext =>
      var r := th.got[th.next];
      var w := if Owns(th, th.next) then Apply(sys.w, OpRelease(r)).0 else sys.w;
      System(w, sys.threads[t := Releasing(th.got, th.next + 1, th.success)], sys.loader)
    case FinishReleasing => sys.(threads := sys.threads[t := Idle])
  }

  // ---------- What the threads hold between them ----------

  function HeldUpTo(th: Thread, n: nat): multiset<Reservation>
    requires n <= |Got(th)|
  {
    if n == 0 then multiset{}
    else HeldUpTo(th, n - 1) + if Owns(th, n - 1) then multiset{Got(th)[n - 1]} else multiset{}
  }

  function HeldBy(th: Thread): multiset<Reservation> {
    HeldUpTo(th, |Got(th)|)
  }

  function HeldByAll(threads: seq<Thread>): multiset<Reservation> {
    if |threads| == 0 then multiset{}
    else HeldByAll(threads[..|threads| - 1]) + HeldBy(threads[|threads| - 1])
  }

  lemma {:induction false} HeldSame(th: Thread, th': Thread, n: nat)
    requires n <= |Got(th)| && n <= |Got(th')|
    requires forall i :: 0 <= i < n ==> Got(th)[i] == Got(th')[i] && (Owns(th, i) <==> Owns(th', i))
    ensures HeldUpTo(th, n) == HeldUpTo(th', n)
  {
    if n > 0 {
      HeldSame(th, th', n - 1);
    }
  }

  lemma {:induction false} HeldGains(th: Thread, th': Thread, n: nat, k: nat)
    requires k < n <= |Got(th)| && n <= |Got(th')|
    requires forall i :: 0 <= i < n ==> Got(th)[i] == Got(th')[i]
    requires forall i :: 0 <= i < n && i != k ==> (Owns(th, i) <==> Owns(th', i))
    requires !Owns(th, k) && Owns(th', k)
    ensures HeldUpTo(th', n) == HeldUpTo(th, n) + multiset{Got(th)[k]}
  {
    if k == n - 1 {
      HeldSame(th, th', n - 1);
    } else {
      HeldGains(th, th', n - 1, k);
    }
  }

  lemma {:induction false} HeldByAllUpdate(threads: seq<Thread>, t: nat, th: Thread)
    requires t < |threads|
    ensures HeldBy(threads[t]) <= HeldByAll(threads)
    ensures HeldByAll(threads[t := th]) == HeldByAll(threads) - HeldBy(threads[t]) + HeldBy(th)
  {
    hide HeldBy;
    var n := |threads| - 1;
    var after := threads[t := th];
    if t == n {
      assert after[..n] == threads[..n];
    } else {
      assert after[..n] == threads[..n][t := th] && after[n] == threads[n] && threads[..n][t] == threads[t];
      HeldByAllUpdate(threads[..n], t, th);
      SwapUnder(HeldByAll(threads[..n]), HeldBy(threads[n]), HeldBy(threads[t]), HeldBy(th));
    }
  }

  lemma SwapUnder(all: multiset<Reservation>, last: multiset<Reservation>, old': multiset<Reservation>,
                  new': multiset<Reservation>)
    requires old' <= all
    ensures old' <= all + last && (all + last) - old' + new' == (all - old' + new') + last
  {
  }

  // ---------- The invariant of the whole system ----------

  /** A thread's reservations answer its batch page by page, in strictly increasing page order. */
  ghost predicate WellFormed(th: Thread) {
    && (forall i, j :: 0 <= i < j < |Got(th)| ==> Got(th)[i].page < Got(th)[j].page)
    && (forall i :: 0 <= i < |Got(th)| ==> Got(th)[i].frame.None? ==> Got(th)[i].state.Bypass?)
    && (th.Reserving? ==>
          && |th.got| <= |th.batch|
          && (forall i :: 0 <= i < |th.got| ==> th.got[i].page == th.batch[i])
          && (forall i, j :: 0 <= i < j < |th.batch| ==> th.batch[i] < th.batch[j])
          && (forall i :: 0 <= i < |th.batch| ==> th.batch[i] < CHUNK_NO_LIMIT))
    && (th.Publishing? || th.Releasing? ==> th.next <= |th.got|)
  }

  /** Every page in flight is the unpublished load of exactly one thread. */
  ghost predicate LoadsOwned(threads: seq<Thread>, loads: map<PageId, Reservation>, loader: map<PageId, (int, int)>) {
    && loader.Keys == loads.Keys
    && (forall p :: p in loader ==>
          && 0 <= loader[p].0 < |threads|
          && Unpublished(threads[loader[p].0], loader[p].1)
          && Got(threads[loader[p].0])[loader[p].1] == loads[p] && loads[p].page == p)
    && (forall t, i :: 0 <= t < |threads| && Unpublished(threads[t], i) ==>
          && Got(threads[t])[i].page in loader
          && loader[Got(threads[t])[i].page] == (t, i))
  }

  ghost predicate SysInv(sys: System) {
    && Inv(sys.w) && Shape(sys.w.s)
    && (forall t :: 0 <= t < |sys.threads| ==> WellFormed(sys.threads[t]))
    && LoadsOwned(sys.threads, sys.w.h.loads, sys.loader)
    && sys.w.h.held == HeldByAll(sys.threads)
  }

  // ---------- What each pool operation does to the loads and the held reservations ----------

  lemma HitEffect(w: World, page: PageId, access: Access, coalesced: bool)
    requires Inv(w) && Shape(w.s) && page in w.s.resident
    ensures var (t, out) := HitResident(w.s, page, access, coalesced);
      && out == Reserved(HitOf(w.s, page, access, coalesced))
      && HitHistory(w.h, page, access, out).loads == w.h.loads
      && HitHistory(w.h, page, access, out).held == w.h.held + multiset{out.reservation}
  {
    hide Inv, Shape, TouchDemanded, TouchPrefetched;
    HitKeepsInv(w, page, access, coalesced);
  }

  lemma MissEffect(w: World, page: PageId, access: Access, coalesced: bool)
    requires Inv(w) && Shape(w.s) && page !in w.s.resident && page !in w.s.loading && page < CHUNK_NO_LIMIT
    ensures var (t, out) := MissPage(w.s, page, access, coalesced);
      var h := MissHistory(w.s, w.h, page, access, out);
      && out.Reserved? && h.held == w.h.held && out.reservation.page == page
      && (out.reservation.state.Load? || out.reservation == BypassOf(page, coalesced, access))
      && (out.reservation.state.Load? ==> IsLoad(out.reservation) && h.loads == w.h.loads[page := out.reservation])
      && (!out.reservation.state.Load? ==> h.loads == w.h.loads)
  {
    hide Inv, Shape, MissPage, MissHistory, CountMiss, MissTakes, TakeHistory, TookFrame, CountRejection;
    CountingKeepsInv(w, access);
    if MissTakes(w.s, access) {
      TakingNeedsRoom(w.s, access);
      var t, frame, evicted := MissTakesFrame(w, page, access, coalesced);
      MissHistoryUnfolds(w.s, w.h, page, access, MissPage(w.s, page, access, coalesced).1);
      TookFrameKeepsReservations(CountMiss(w.s, access), w.h, t, TakeHistory(CountMiss(w.s, access), w.h, access), frame);
    } else {
      RejectedMissUnfolds(w.s, w.h, page, access, coalesced);
    }
  }

  lemma TookFrameKeepsReservations(s: Pool, h: History, t: Pool, h': History, frame: Frame)
    requires TookFrame(s, h, t, h', frame)
    ensures h'.loads == h.loads && h'.held == h.held
  {
  }

  /** How a reservation changes the books: nothing, one more held, or one more load in flight. */
  ghost predicate Books(h: History, h': History, r: Reservation) {
    && (IsLoad(r) ==> h'.loads == h.loads[r.page := r] && r.page !in h.loads && h'.held == h.held)
    && (r.state.Hit? ==> r.frame.Some? && h'.loads == h.loads && h'.held == h.held + multiset{r})
    && (r.state.Bypass? ==> h'.loads == h.loads && h'.held == h.held)
    && (r.frame.None? ==> r.state.Bypass?)
  }

  lemma LoadingAreLoads(w: World)
    requires Inv(w)
    ensures w.h.loads.Keys == w.s.loading.Keys
  {
  }

  lemma ReserveEffect(w: World, page: PageId, access: Access, coalesced: bool)
    requires Inv(w) && Shape(w.s) && page < CHUNK_NO_LIMIT
    ensures var (v, reply) := Apply(w, OpReserve(page, access, true, coalesced));
      && reply.Replied? && (reply.outcome.Reserved? || reply.outcome.Blocked?)
      && (reply.outcome.Blocked? <==> page !in w.s.resident && page in w.s.loading)
      && (reply.outcome.Blocked? ==> v.h == w.h)
      && (reply.outcome.Reserved? ==> reply.outcome.reservation.page == page && Books(w.h, v.h, reply.outcome.reservation))
  {
    hide Inv, Shape, HitResident, HitHistory, MissPage, MissHistory, CountCoalesced;
    LoadingAreLoads(w);
    if page in w.s.resident {
      HitEffect(w, page, access, coalesced);
    } else if page !in w.s.loading {
      MissEffect(w, page, access, coalesced);
    }
  }

  // ---------- The invariant survives every step ----------

  lemma HeldUnchanged(threads: seq<Thread>, t: nat, th: Thread)
    requires t < |threads| && HeldBy(th) == HeldBy(threads[t])
    ensures HeldByAll(threads[t := th]) == HeldByAll(threads)
  {
    hide HeldBy, HeldByAll;
    HeldByAllUpdate(threads, t, th);
  }

  lemma GainUnder(all: multiset<Reservation>, old': multiset<Reservation>, r: Reservation)
    requires old' <= all
    ensures all - old' + (old' + multiset{r}) == all + multiset{r}
  {
  }

  lemma HeldGained(threads: seq<Thread>, t: nat, th: Thread, r: Reservation)
    requires t < |threads| && HeldBy(th) == HeldBy(threads[t]) + multiset{r}
    ensures HeldByAll(threads[t := th]) == HeldByAll(threads) + multiset{r}
  {
    hide HeldBy, HeldByAll;
    HeldByAllUpdate(threads, t, th);
    GainUnder(HeldByAll(threads), HeldBy(threads[t]), r);
  }

  lemma HeldLost(threads: seq<Thread>, t: nat, th: Thread, r: Reservation)
    requires t < |threads| && HeldBy(threads[t]) == HeldBy(th) + multiset{r}
    ensures r in HeldByAll(threads) && HeldByAll(threads[t := th]) == HeldByAll(threads) - multiset{r}
  {
    hide HeldBy, HeldByAll;
    HeldByAllUpdate(threads, t, th);
  }

  /** A thread step that changes no unpublished load. */
  lemma LoadsUnchanged(threads: seq<Thread>, loads: map<PageId, Reservation>, loader: map<PageId, (int, int)>,
                       t: nat, th: Thread)
    requires t < |threads| && LoadsOwned(threads, loads, loader)
    requires forall i :: Unpublished(th, i) <==> Unpublished(threads[t], i)
    requires forall i :: Unpublished(th, i) ==> Got(th)[i] == Got(threads[t])[i]
    ensures LoadsOwned(threads[t := th], loads, loader)
  {
    hide Unpublished;
  }

  /** A thread step that adds one unpublished load for a page nobody was loading. */
  lemma LoadsGain(threads: seq<Thread>, loads: map<PageId, Reservation>, loader: map<PageId, (int, int)>,
                  t: nat, th: Thread, k: nat)
    requires t < |threads| && LoadsOwned(threads, loads, loader)
    requires Unpublished(th, k) && !Unpublished(threads[t], k) && Got(th)[k].page !in loads
    requires forall i :: i != k ==> (Unpublished(th, i) <==> Unpublished(threads[t], i))
    requires forall i :: i != k && Unpublished(th, i) ==> Got(th)[i] == Got(threads[t])[i]
    ensures var r := Got(th)[k];
      LoadsOwned(threads[t := th], loads[r.page := r], loader[r.page := (t, k)])
  {
    hide Unpublished;
  }

  /** A thread step that publishes one load. */
  lemma LoadsLose(threads: seq<Thread>, loads: map<PageId, Reservation>, loader: map<PageId, (int, int)>,
                  t: nat, th: Thread, k: nat)
    requires t < |threads| && LoadsOwned(threads, loads, loader)
    requires Unpublished(threads[t], k) && !Unpublished(th, k)
    requires forall i :: i != k ==> (Unpublished(th, i) <==> Unpublished(threads[t], i))
    requires forall i :: Unpublished(th, i) ==> Got(th)[i] == Got(threads[t])[i]
    ensures var p := Got(threads[t])[k].page;
      LoadsOwned(threads[t := th], loads - {p}, loader - {p})
  {
    hide Unpublished;
  }

  /** Steps of a thread that touch no lock: the pool stays as it is. */
  lemma LocalStepKeepsInv(sys: System, t: nat, th: Thread)
    requires SysInv(sys) && t < |sys.threads| && WellFormed(th)
    requires HeldBy(th) == HeldBy(sys.threads[t])
    requires forall i :: Unpublished(th, i) <==> Unpublished(sys.threads[t], i)
    requires forall i :: Unpublished(th, i) ==> Got(th)[i] == Got(sys.threads[t])[i]
    ensures SysInv(sys.(threads := sys.threads[t := th]))
  {
    hide Inv, Shape, WellFormed, HeldBy, HeldByAll, Unpublished, LoadsOwned;
    HeldUnchanged(sys.threads, t, th);
    LoadsUnchanged(sys.threads, sys.w.h.loads, sys.loader, t, th);
  }

  lemma MakeSysInv(sys: System)
    requires Inv(sys.w)
    requires forall t :: 0 <= t < |sys.threads| ==> WellFormed(sys.threads[t])
    requires LoadsOwned(sys.threads, sys.w.h.loads, sys.loader)
    requires sys.w.h.held == HeldByAll(sys.threads)
    ensures SysInv(sys)
  {
    hide Inv, Shape, WellFormed, LoadsOwned, HeldByAll;
    InvImpliesShape(sys.w);
  }

  lemma StartKeepsInv(sys: System, t: nat, batch: seq<PageId>, access: Access)
    requires SysInv(sys) && Enabled(sys, t, Start(batch, access))
    ensures SysInv(Do(sys, t, Start(batch, access)))
  {
    LocalStepKeepsInv(sys, t, Reserving(batch, access, false, []));
    hide SysInv;
  }

  lemma FinishReservingKeepsInv(sys: System, t: nat, success: bool)
    requires SysInv(sys) && Enabled(sys, t, FinishReserving(success))
    ensures SysInv(Do(sys, t, FinishReserving(success)))
  {
    hide Inv, Shape, LoadsOwned, HeldByAll;
    var th := sys.threads[t];
    var th' := Publishing(th.got, 0, success);
    HeldSame(th, th', |th.got|);
    LocalStepKeepsInv(sys, t, th');
  }

  lemma FinishPublishingKeepsInv(sys: System, t: nat)
    requires SysInv(sys) && Enabled(sys, t, FinishPublishing)
    ensures SysInv(Do(sys, t, FinishPublishing))
  {
    hide Inv, Shape, LoadsOwned, HeldByAll;
    var th := sys.threads[t];
    var th' := Releasing(th.got, 0, th.success);
    HeldSame(th, th', |th.got|);
    LocalStepKeepsInv(sys, t, th');
  }

  lemma {:induction false} NothingOwned(th: Thread, n: nat)
    requires n <= |Got(th)| && forall i :: 0 <= i < n ==> !Owns(th, i)
    ensures HeldUpTo(th, n) == multiset{}
  {
    if n > 0 {
      NothingOwned(th, n - 1);
    }
  }

  lemma FinishReleasingKeepsInv(sys: System, t: nat)
    requires SysInv(sys) && Enabled(sys, t, FinishReleasing)
    ensures SysInv(Do(sys, t, FinishReleasing))
  {
    hide Inv, Shape, LoadsOwned, HeldByAll;
    var th := sys.threads[t];
    NothingOwned(th, |th.got|);
    LocalStepKeepsInv(sys, t, Idle);
  }

  /** The pages a thread has answered stay in order when its next page is answered. */
  lemma AnsweredWellFormed(th: Thread, r: Reservation)
    requires WellFormed(th) && Asks(th) && r.page == Awaited(th) && (r.frame.None? ==> r.state.Bypass?)
    ensures WellFormed(th.(waiting := false, got := th.got + [r]))
  {
    var got := th.got + [r];
    forall i | 0 <= i < |got| ensures got[i].page == th.batch[i] && (got[i].frame.None? ==> got[i].state.Bypass?) {
      if i < |th.got| {
        assert got[i] == th.got[i] == Got(th)[i];
      }
    }
    assert Got(th.(waiting := false, got := got)) == got;
  }

  lemma AnsweredHeld(th: Thread, r: Reservation)
    requires Asks(th)
    ensures var th' := th.(waiting := false, got := th.got + [r]);
      HeldBy(th') == if r.state.Hit? then HeldBy(th) + multiset{r} else HeldBy(th)
  {
    var th' := th.(waiting := false, got := th.got + [r]);
    HeldSame(th, th', |th.got|);
  }

  lemma AnsweredLoads(sys: System, t: nat, r: Reservation, loads: map<PageId, Reservation>)
    requires t < |sys.threads| && Asks(sys.threads[t]) && LoadsOwned(sys.threads, sys.w.h.loads, sys.loader)
    requires if IsLoad(r) then loads == sys.w.h.loads[r.page := r] && r.page !in sys.w.h.loads
             else loads == sys.w.h.loads
    ensures var th := sys.threads[t];
      LoadsOwned(sys.threads[t := th.(waiting := false, got := th.got + [r])], loads,
                 if IsLoad(r) then sys.loader[r.page := (t, |th.got|)] else sys.loader)
  {
    hide LoadsOwned;
    var th := sys.threads[t];
    var th' := th.(waiting := false, got := th.got + [r]);
    if IsLoad(r) {
      LoadsGain(sys.threads, sys.w.h.loads, sys.loader, t, th', |th.got|);
    } else {
      LoadsUnchanged(sys.threads, sys.w.h.loads, sys.loader, t, th');
    }
  }

  lemma AnsweredKeepsInv(sys: System, t: nat, w: World, r: Reservation)
    requires SysInv(sys) && t < |sys.threads| && Asks(sys.threads[t])
    requires Inv(w) && r.page == Awaited(sys.threads[t]) && Books(sys.w.h, w.h, r)
    ensures var th := sys.threads[t];
      SysInv(System(w, sys.threads[t := th.(waiting := false, got := th.got + [r])],
                    if IsLoad(r) then sys.loader[r.page := (t, |th.got|)] else sys.loader))
  {
    hide Inv, Shape, WellFormed, LoadsOwned, HeldBy, HeldByAll;
    var th := sys.threads[t];
    var th' := th.(waiting := false, got := th.got + [r]);
    AnsweredWellFormed(th, r);
    AnsweredHeld(th, r);
    AnsweredLoads(sys, t, r, w.h.loads);
    if r.state.Hit? {
      HeldGained(sys.threads, t, th', r);
    } else {
      HeldUnchanged(sys.threads, t, th');
    }
    MakeSysInv(System(w, sys.threads[t := th'], if IsLoad(r) then sys.loader[r.page := (t, |th.got|)] else sys.loader));
  }

  lemma WaitingKeepsInv(sys: System, t: nat, w: World)
    requires SysInv(sys) && t < |sys.threads| && Asks(sys.threads[t]) && Inv(w) && w.h == sys.w.h
    ensures SysInv(System(w, sys.threads[t := sys.threads[t].(waiting := true)], sys.loader))
  {
    hide Inv, Shape, LoadsOwned, HeldByAll;
    var th := sys.threads[t];
    var th' := th.(waiting := true);
    HeldSame(th, th', |th.got|);
    HeldUnchanged(sys.threads, t, th');
    LoadsUnchanged(sys.threads, sys.w.h.loads, sys.loader, t, th');
    MakeSysInv(System(w, sys.threads[t := th'], sys.loader));
  }

  lemma ReserveNextKeepsInv(sys: System, t: nat)
    requires SysInv(sys) && Enabled(sys, t, ReserveNext)
    ensures SysInv(Do(sys, t, ReserveNext)) && !Throws(sys, t, ReserveNext)
  {
    hide Inv, Shape, LoadsOwned, HeldByAll, HeldBy, Apply, Books;
    var th := sys.threads[t];
    ReserveEffect(sys.w, Awaited(th), th.access, th.waiting);
    ReserveKeepsInv(sys.w, Awaited(th), th.access, true, th.waiting);
    var (w, reply) := Apply(sys.w, OpReserve(Awaited(th), th.access, true, th.waiting));
    if reply.outcome.Reserved? {
      AnsweredKeepsInv(sys, t, w, reply.outcome.reservation);
    } else {
      WaitingKeepsInv(sys, t, w);
    }
  }

  // ---------- Publishing and releasing ----------

  lemma PublishedHeld(th: Thread)
    requires th.Publishing? && th.next < |th.got|
    ensures var th' := Publishing(th.got, th.next + 1, th.success);
      var r := th.got[th.next];
      HeldBy(th') == if IsLoad(r) && th.success then HeldBy(th) + multiset{r} else HeldBy(th)
  {
    var th' := Publishing(th.got, th.next + 1, th.success);
    if IsLoad(th.got[th.next]) && th.success {
      HeldGains(th, th', |th.got|, th.next);
    } else {
      HeldSame(th, th', |th.got|);
    }
  }

  lemma PublishEffect(w: World, r: Reservation, success: bool)
    requires Inv(w) && Shape(w.s) && Allowed(w, OpPublish(r, success))
    ensures var v := Apply(w, OpPublish(r, success)).0;
      && (!IsLoad(r) ==> v == w)
      && (IsLoad(r) ==> v.h.loads == w.h.loads - {r.page})
      && v.h.held == if IsLoad(r) && success then w.h.held + multiset{r} else w.h.held
  {
    hide Inv, Shape, PublishLoaded, PublishFailed;
    PublishKeepsInv(w, r, success);
  }

  lemma PublishNextLoads(sys: System, t: nat)
    requires t < |sys.threads| && sys.threads[t].Publishing? && sys.threads[t].next < |sys.threads[t].got|
    requires LoadsOwned(sys.threads, sys.w.h.loads, sys.loader)
    ensures var th := sys.threads[t];
      var r := th.got[th.next];
      && (IsLoad(r) ==> r.page in sys.w.h.loads && sys.w.h.loads[r.page] == r)
      && LoadsOwned(sys.threads[t := Publishing(th.got, th.next + 1, th.success)],
                    if IsLoad(r) then sys.w.h.loads - {r.page} else sys.w.h.loads,
                    if IsLoad(r) then sys.loader - {r.page} else sys.loader)
  {
    var th := sys.threads[t];
    var th' := Publishing(th.got, th.next + 1, th.success);
    var r := th.got[th.next];
    if IsLoad(r) {
      assert Unpublished(th, th.next);
      LoadsLose(sys.threads, sys.w.h.loads, sys.loader, t, th', th.next);
    } else {
      LoadsUnchanged(sys.threads, sys.w.h.loads, sys.loader, t, th');
    }
  }

  lemma PublishNextKeepsInv(sys: System, t: nat)
    requires SysInv(sys) && Enabled(sys, t, PublishNext)
    ensures SysInv(Do(sys, t, PublishNext))
    ensures Apply(sys.w, OpPublish(sys.threads[t].got[sys.threads[t].next], sys.threads[t].success)).1 == Done
  {
    hide Inv, Shape, LoadsOwned, HeldByAll, HeldBy, Apply;
    var th := sys.threads[t];
    var th' := Publishing(th.got, th.next + 1, th.success);
    var r := th.got[th.next];
    PublishNextLoads(sys, t);
    PublishKeepsInv(sys.w, r, th.success);
    PublishEffect(sys.w, r, th.success);
    PublishedHeld(th);
    if IsLoad(r) && th.success {
      HeldGained(sys.threads, t, th', r);
    } else {
      HeldUnchanged(sys.threads, t, th');
    }
    assert Got(th') == Got(th) && WellFormed(th) && WellFormed(th');
    MakeSysInv(Do(sys, t, PublishNext));
  }

  lemma ReleasedHeld(th: Thread)
    requires th.Releasing? && th.next < |th.got|
    ensures var th' := Releasing(th.got, th.next + 1, th.success);
      HeldBy(th) == if Owns(th, th.next) then HeldBy(th') + multiset{th.got[th.next]} else HeldBy(th')
  {
    var th' := Releasing(th.got, th.next + 1, th.success);
    if Owns(th, th.next) {
      HeldGains(th', th, |th.got|, th.next);
    } else {
      HeldSame(th, th', |th.got|);
    }
  }

  lemma ReleaseEffect(w: World, r: Reservation)
    requires Inv(w) && Shape(w.s) && r in w.h.held && r.frame.Some? && !r.state.Bypass?
    ensures var v := Apply(w, OpRelease(r)).0;
      v.h == w.h.(held := w.h.held - multiset{r})
  {
    hide Inv, Shape;
    ReleaseKeepsInv(w, r);
  }

  lemma ReleaseNextKeepsInv(sys: System, t: nat)
    requires SysInv(sys) && Enabled(sys, t, ReleaseNext)
    ensures SysInv(Do(sys, t, ReleaseNext))
    ensures Owns(sys.threads[t], sys.threads[t].next) ==>
      Apply(sys.w, OpRelease(sys.threads[t].got[sys.threads[t].next])).1 == Done
  {
    hide Inv, Shape, LoadsOwned, HeldByAll, HeldBy, Apply;
    var th := sys.threads[t];
    var th' := Releasing(th.got, th.next + 1, th.success);
    var r := th.got[th.next];
    ReleasedHeld(th);
    LoadsUnchanged(sys.threads, sys.w.h.loads, sys.loader, t, th');
    if Owns(th, th.next) {
      HeldLost(sys.threads, t, th', r);
      ReleaseOpKeepsInv(sys.w, r);
      ReleaseEffect(sys.w, r);
    } else {
      HeldUnchanged(sys.threads, t, th');
    }
    MakeSysInv(Do(sys, t, ReleaseNext));
  }

  /** The pool call that the step makes throws. */
  predicate Throws(sys: System, t: nat, a: Action)
    requires Shape(sys.w.s) && Enabled(sys, t, a)
  {
    var th := sys.threads[t];
    match a
    case ReserveNext =>
      var reply := Apply(sys.w, OpReserve(Awaited(th), th.access, true, th.waiting)).1;
      !reply.Replied? || reply.outcome.Threw?
    case PublishNext => Apply(sys.w, OpPublish(th.got[th.next], th.success)).1 != Done
    case ReleaseNext => Owns(th, th.next) && Apply(sys.w, OpRelease(th.got[th.next])).1 != Done
    case _ => false
  }

  /** Every step keeps the invariant of the system, and no call of the pool throws. */
  lemma StepKeepsInv(sys: System, t: nat, a: Action)
    requires SysInv(sys) && Enabled(sys, t, a)
    ensures SysInv(Do(sys, t, a)) && !Throws(sys, t, a)
  {
    hide SysInv, Do, Apply;
    SysInvShape(sys);
    match a
    case Start(batch, access) => StartKeepsInv(sys, t, batch, access);
    case ReserveNext => ReserveNextKeepsInv(sys, t);
    case FinishReserving(success) => FinishReservingKeepsInv(sys, t, success);
    case PublishNext => PublishNextKeepsInv(sys, t);
    case FinishPublishing => FinishPublishingKeepsInv(sys, t);
    case ReleaseNext => ReleaseNextKeepsInv(sys, t);
    case FinishReleasing => FinishReleasingKeepsInv(sys, t);
  }

  lemma SysInvShape(sys: System)
    requires SysInv(sys)
    ensures Shape(sys.w.s) && Inv(sys.w)
  {
    hide Inv, Shape, LoadsOwned, HeldByAll;
  }

  // ---------- Runs of the system ----------

  function StartSystem(capacity: nat, n: nat): System {
    System(Initial(capacity, 0), seq(n, _ => Idle), map[])
  }

  ghost predicate SysRun(sys: System, schedule: seq<(nat, Action)>, after: System)
    decreases |schedule|
  {
    if |schedule| == 0 then after == sys
    else
      && Shape(sys.w.s) && Enabled(sys, schedule[0].0, schedule[0].1)
      && SysRun(Do(sys, schedule[0].0, schedule[0].1), schedule[1..], after)
  }

  ghost predicate SysReachable(sys: System) {
    exists capacity, n, schedule :: SysRun(StartSystem(capacity, n), schedule, sys)
  }

  lemma {:induction false} SysRunKeepsInv(sys: System, schedule: seq<(nat, Action)>, after: System)
    requires SysInv(sys) && SysRun(sys, schedule, after)
    ensures SysInv(after)
    decreases |schedule|
  {
    hide SysInv, Do;
    if |schedule| != 0 {
      StepKeepsInv(sys, schedule[0].0, schedule[0].1);
      SysRunKeepsInv(Do(sys, schedule[0].0, schedule[0].1), schedule[1..], after);
    }
  }

  lemma {:induction false} IdleHoldNothing(n: nat)
    ensures HeldByAll(seq(n, _ => Idle)) == multiset{}
  {
    if n > 0 {
      IdleHoldNothing(n - 1);
      assert seq(n, _ => Idle)[..n - 1] == seq(n - 1, _ => Idle);
    }
  }

  lemma SysReachableInv(sys: System)
    requires SysReachable(sys)
    ensures SysInv(sys)
  {
    var capacity, n, schedule :| SysRun(StartSystem(capacity, n), schedule, sys);
    StartSystemInv(capacity, n);
    SysRunKeepsInv(StartSystem(capacity, n), schedule, sys);
  }

  lemma StartSystemInv(capacity: nat, n: nat)
    ensures SysInv(StartSystem(capacity, n))
  {
    hide Inv, Shape, HeldByAll;
    InitialInv(capacity, 0);
    IdleHoldNothing(n);
    MakeSysInv(StartSystem(capacity, n));
  }

  lemma {:induction false} SysRunExtends(sys: System, schedule: seq<(nat, Action)>, mid: System, t: nat, a: Action)
    requires SysRun(sys, schedule, mid) && Shape(mid.w.s) && Enabled(mid, t, a)
    ensures SysRun(sys, schedule + [(t, a)], Do(mid, t, a))
    decreases |schedule|
  {
    hide Do, Enabled, Shape;
    if |schedule| != 0 {
      assert (schedule + [(t, a)])[1..] == schedule[1..] + [(t, a)];
      SysRunExtends(Do(sys, schedule[0].0, schedule[0].1), schedule[1..], mid, t, a);
    } else {
      assert ([(t, a)])[1..] == [];
    }
  }

  lemma StepReaches(sys: System, t: nat, a: Action)
    requires SysReachable(sys) && Shape(sys.w.s) && Enabled(sys, t, a)
    ensures SysReachable(Do(sys, t, a)) && Shape(Do(sys, t, a).w.s)
  {
    hide Do, Enabled, Shape, SysRun, SysInv;
    SysReachableInv(sys);
    StepKeepsInv(sys, t, a);
    SysInvShape(Do(sys, t, a));
    var capacity, n, schedule :| SysRun(StartSystem(capacity, n), schedule, sys);
    SysRunExtends(StartSystem(capacity, n), schedule, sys, t, a);
  }

  // ---------- No deadlock ----------

  /** Thread `t` sleeps until a page that thread `u` has yet to publish is published. */
  ghost predicate WaitsOn(sys: System, t: int, u: int) {
    && 0 <= t < |sys.threads| && 0 <= u < |sys.threads|
    && Stuck(sys.w.s, sys.threads[t])
    && exists i :: Unpublished(sys.threads[u], i) && Got(sys.threads[u])[i].page == Awaited(sys.threads[t])
  }

  /** Every sleeping thread waits on some thread's in-flight page, so no wake-up can be missed for good. */
  lemma StuckWaitsOnSomeone(sys: System, t: nat) returns (u: int)
    requires SysReachable(sys) && t < |sys.threads| && Stuck(sys.w.s, sys.threads[t])
    ensures WaitsOn(sys, t, u)
  {
    hide Inv, Shape, HeldByAll;
    SysReachableInv(sys);
    LoadingAreLoads(sys.w);
    var p := Awaited(sys.threads[t]);
    assert p in sys.w.h.loads;
    u := sys.loader[p].0;
    assert Unpublished(sys.threads[u], sys.loader[p].1);
  }

  /** Along a wait chain the awaited page ids strictly increase. */
  lemma WaitsIncrease(sys: System, t: int, u: int)
    requires SysReachable(sys) && WaitsOn(sys, t, u) && Stuck(sys.w.s, sys.threads[u])
    ensures Awaited(sys.threads[t]) < Awaited(sys.threads[u])
  {
    hide Inv, Shape, HeldByAll, LoadsOwned;
    SysReachableInv(sys);
    assert WellFormed(sys.threads[u]);
  }

  lemma FirstLoad(page: PageId)
    requires page < CHUNK_NO_LIMIT
    ensures var w := Initial(1, 0);
      && Shape(w.s)
      && var (v, reply) := Apply(w, OpReserve(page, Demand, true, false));
        && reply == Replied(Reserved(Reservation(Load, page, Some(0), false, false, Demand, false)))
        && v.s.loading == map[page := 0] && v.s.resident == map[]
  {
    hide Shape, MissHistory, CountMiss, MissPage, Initial;
    OneFrame();
    var s := Initial(1, 0).s;
    FreeMissUnfolds(s, page, Demand, false);
  }

  lemma OneFrame()
    ensures var s := Initial(1, 0).s;
      Shape(s) && s.capacity == 1 && s.free == [0] && s.loading == map[] && s.resident == map[] && 0 in s.pins
  {
    hide Inv;
    InitialInv(1, 0);
    InvImpliesShape(Initial(1, 0));
    assert FrameSeq(0, 1)[0] in FramesOf(0, 1);
  }

  lemma StartReaches(capacity: nat, n: nat)
    ensures SysReachable(StartSystem(capacity, n)) && Shape(StartSystem(capacity, n).w.s)
  {
    hide SysInv, Shape, StartSystem, Inv;
    StartSystemInv(capacity, n);
    SysInvShape(StartSystem(capacity, n));
    assert SysRun(StartSystem(capacity, n), [], StartSystem(capacity, n));
  }

  /** Waiting does happen: two threads ask for one page, the first loads it and the second sleeps. */
  lemma WaitingHappens() returns (sys: System)
    ensures SysReachable(sys) && WaitsOn(sys, 1, 0)
  {
    hide SysReachable, Shape, Inv, Apply;
    var start := StartSystem(1, 2);
    StartReaches(1, 2);
    StepReaches(start, 0, Start([5], Demand));
    var a := Do(start, 0, Start([5], Demand));
    FirstLoad(5);
    StepReaches(a, 0, ReserveNext);
    var b := Do(a, 0, ReserveNext);
    assert b.threads[0].got == [Reservation(Load, 5, Some(0), false, false, Demand, false)];
    StepReaches(b, 1, Start([5], Demand));
    var c := Do(b, 1, Start([5], Demand));
    StepReaches(c, 1, ReserveNext);
    sys := Do(c, 1, ReserveNext);
    WorldOf(c);
    ReserveEffect(c.w, 5, Demand, false);
    BlockedKeepsLoading(c.w, 5, Demand);
    assert Unpublished(sys.threads[0], 0);
  }

  lemma WorldOf(sys: System)
    requires SysReachable(sys)
    ensures Inv(sys.w) && Shape(sys.w.s)
  {
    hide SysInv, SysReachable;
    SysReachableInv(sys);
    SysInvShape(sys);
  }

  lemma BlockedKeepsLoading(w: World, page: PageId, access: Access)
    requires Shape(w.s) && page !in w.s.resident && page in w.s.loading
    ensures Apply(w, OpReserve(page, access, true, false)).0.s.loading == w.s.loading
  {
    hide Shape;
  }

  ghost predicate WaitChain(sys: System, chain: seq<int>) {
    |chain| > 0 && forall i :: 0 <= i < |chain| - 1 ==> WaitsOn(sys, chain[i], chain[i + 1])
  }

  lemma {:induction false} ChainIncreases(sys: System, chain: seq<int>)
    requires SysReachable(sys) && WaitChain(sys, chain) && |chain| > 1
    requires 0 <= chain[|chain| - 1] < |sys.threads| && Stuck(sys.w.s, sys.threads[chain[|chain| - 1]])
    ensures 0 <= chain[0] < |sys.threads| && Asks(sys.threads[chain[0]])
    ensures Awaited(sys.threads[chain[0]]) < Awaited(sys.threads[chain[|chain| - 1]])
    decreases |chain|
  {
    var n := |chain| - 1;
    assert WaitsOn(sys, chain[n - 1], chain[n]);
    hide SysReachable;
    WaitsIncrease(sys, chain[n - 1], chain[n]);
    if n > 1 {
      ChainIncreases(sys, chain[..n]);
    }
  }

  /** No schedule leads to threads waiting on each other in a circle. */
  lemma NoWaitCycle(sys: System, chain: seq<int>)
    requires SysReachable(sys) && WaitChain(sys, chain) && |chain| > 1
    ensures chain[0] != chain[|chain| - 1]
  {
    if chain[0] == chain[|chain| - 1] {
      assert WaitsOn(sys, chain[0], chain[1]);
      ChainIncreases(sys, chain);
    }
  }

  predicate Busy(sys: System, t: int) {
    0 <= t < |sys.threads| && !sys.threads[t].Idle?
  }

  /** Whenever some thread is in the middle of a round, some such thread can take its next step. */
  lemma {:induction false} SomeoneCanStep(sys: System, t: nat) returns (u: nat, a: Action)
    requires SysReachable(sys) && Busy(sys, t)
    ensures Busy(sys, u) && Enabled(sys, u, a)
    decreases if Stuck(sys.w.s, sys.threads[t]) then 1 + CHUNK_NO_LIMIT - Awaited(sys.threads[t]) else 0
  {
    hide Inv, Shape, HeldByAll, LoadsOwned;
    SysReachableInv(sys);
    var th := sys.threads[t];
    assert WellFormed(th);
    if Stuck(sys.w.s, th) {
      var v := StuckWaitsOnSomeone(sys, t);
      if Stuck(sys.w.s, sys.threads[v]) {
        WaitsIncrease(sys, t, v);
      }
      u, a := SomeoneCanStep(sys, v);
    } else {
      u := t;
      a := match th
           case Reserving(_, _, _, _) => if Asks(th) then ReserveNext else FinishReserving(true)
           case Publishing(_, next, _) => if next < |th.got| then PublishNext else FinishPublishing
           case Releasing(_, next, _) => if next < |th.got| then ReleaseNext else FinishReleasing;
    }
  }
}
