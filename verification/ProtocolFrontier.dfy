/**
 Who owns an outstanding slot, and why the durable frontier never falls: the watermark read after each
 commit is never below the one before, in every run whose first live slot is the last of the backfill
 or a later one, in which no live slot is resolved inside a claim, and in which releases in two halves
 are left alone: no watermark is read at or above a range taken out, and none goes back onto a claim.
 */
module ProtocolFrontier {
  import opened Slots
  import opened Gaps
  import opened GapTheorems
  import opened GapSafety
  import opened Fetchers
  import opened Protocol
  import opened ProtocolRuns
  import opened ProtocolSafety

  /** Where the part of a claim begins that a worker still has to itself. */
  function OwnFrom(worker: Worker): int
    requires worker.Busy?
  {
    if worker.half && worker.todo != [] then worker.todo[0].End() + 1 else worker.next
  }

  ghost predicate Owns(workers: seq<Worker>, w: int, x: int) {
    0 <= w < |workers| && workers[w].Busy? && OwnFrom(workers[w]) <= x <= workers[w].to
  }

  /** Recovered slots on their way to being committed: the one in hand, then the queue. */
  function Pending(s: State): seq<Slot> {
    (if (s.stage.Handling? || s.stage.Stored?) && !s.stage.live then [s.stage.slot] else []) + s.recovered
  }

  /** A slot a fetcher still has to work is claimed, and is nobody else's. */
  ghost predicate WorkersExclusive(workers: seq<Worker>, gaps: seq<Range>) {
    && (forall w, x | Owns(workers, w, x) :: Holds(gaps, true, x))
    && (forall v, w, x | Owns(workers, v, x) && Owns(workers, w, x) :: v == w)
  }

  /** A fetched slot stays claimed until it is committed, once, and no fetcher works it meanwhile. */
  ghost predicate PendingExclusive(p: seq<Slot>, workers: seq<Worker>, gaps: seq<Range>) {
    && (forall i | 0 <= i < |p| :: Holds(gaps, true, p[i]))
    && (forall i, w | 0 <= i < |p| :: !Owns(workers, w, p[i]))
    && (forall i, j | 0 <= i < j < |p| :: p[i] != p[j])
  }

  /** The frontier already persisted or computed is still below everything outstanding. */
  ghost predicate FrontierHolds(s: State) {
    && Rank(s.lastIndexed) < Lowest(s.gaps) && Rank(s.lastIndexed) <= Rank(s.highest)
    && forall w, x | TakenOut(s.workers, w, x) :: Rank(s.lastIndexed) < x
  }

  /** The ranges are sorted and disjoint, and the live slots have reached the top of the backfill. */
  ghost predicate Tidy(s: State) {
    WellFormed(s.gaps) && (s.lastSeen != NONE ==> s.edge <= s.lastSeen)
  }

  ghost predicate Orderly(s: State) {
    s.up ==>
      && Tidy(s) && FrontierHolds(s)
      && WorkersExclusive(s.workers, s.gaps) && PendingExclusive(Pending(s), s.workers, s.gaps)
  }

  /** A run's first live slot is not below the last backfilled one: it is tip - 1 or later. */
  ghost predicate FirstLiveAtTip(s: State, e: Event) {
    e.TakeLive? && s.live != [] && s.lastSeen == NONE ==> s.live[0] >= s.edge
  }

  /** No live slot is resolved inside a claim. */
  ghost predicate SparesClaims(s: State, e: Event) {
    e.ResolveStored? && s.stage.Stored? && s.stage.live ==> !Holds(s.gaps, true, s.stage.slot)
  }

  /** A range taken out for a release goes back where nothing has been claimed in between. */
  ghost predicate ReturnsClear(s: State, e: Event) {
    e.Act? && e.worker < |s.workers| ==>
      var worker := s.workers[e.worker];
      worker.Busy? && worker.half && worker.todo != [] ==>
        MissesClaimed(s.gaps, worker.todo[0].Start(), worker.todo[0].End())
  }

  /** Neither readings nor claims come between the halves of a release where they would do harm. */
  ghost predicate SparesReleases(s: State, e: Event) {
    ReadsClear(s, e) && ReturnsClear(s, e)
  }

  ghost function SparingReleases(): (State, Event) -> bool {
    (s: State, e: Event) => SparesReleases(s, e)
  }

  ghost predicate Respects(s: State, e: Event) {
    FirstLiveAtTip(s, e) && SparesClaims(s, e) && SparesReleases(s, e)
  }

  /** The condition on a run under which claims keep their owners and the frontier does not fall. */
  ghost function Respectful(): (State, Event) -> bool {
    (s: State, e: Event) => Respects(s, e)
  }

  // ---------------------------------------------------------------- gap-set facts

  lemma ResolveLowest(s: seq<Range>, from: Slot, to: Slot)
    requires WellFormed(s)
    ensures Lowest(s) <= Lowest(Resolve(s, from, to))
  {
    var t := Resolve(s, from, to);
    ResolveWellFormed(s, from, to);
    if t != [] {
      LowestIsLeast(t, 0);
      ResolveHolds(s, from, to, false, Lowest(t));
      ResolveHolds(s, from, to, true, Lowest(t));
      LowestIsLeast(s, Lowest(t));
    }
  }

  /** Committing a slot never lowers the watermark there would be without it. */
  lemma CommitRaisesWatermark(s: seq<Range>, slot: Slot, highest: Slot)
    requires WellFormed(s) && slot < NONE && highest != NONE
    ensures Rank(Watermark(s, highest)) <= Rank(Watermark(Resolve(s, slot, slot), RaiseHighest(highest, slot)))
  {
    ResolveLowest(s, slot, slot);
    WatermarkMonotone(s, Resolve(s, slot, slot), highest, RaiseHighest(highest, slot));
  }

  /** Working a slot one owns, or giving back what was taken out, leaves everything outstanding above `mark`. */
  lemma ActOnLowest(s: seq<Range>, a: Action, half: bool, max: nat, mark: int)
    requires WellFormed(s) && a.Start() <= a.End() < NONE && mark < Lowest(s)
    requires if half then a.Released? && mark < a.Start() else Held(s, a.Start())
    ensures mark < Lowest(ActOn(s, a, half, max))
  {
    LowestIsLeast(s, a.Start());
    if half {
      InsertLowest(s, a.from, a.to, max);
    } else if !a.Published? {
      ResolveLowest(s, a.from, a.to);
      ResolveWellFormed(s, a.from, a.to);
      if a.Released? { InsertLowest(Resolve(s, a.from, a.to), a.from, a.to, max); }
    }
  }

  lemma ObserveGapClaims(gaps: seq<Range>, seen: Slot, slot: Slot, max: nat, x: int)
    requires WellFormed(gaps) && slot < NONE
    ensures Holds(ObserveGap(gaps, seen, slot, max), true, x) <==> Holds(gaps, true, x)
    ensures seen != NONE && slot > seen ==>
              Lowest(ObserveGap(gaps, seen, slot, max)) >= (if Lowest(gaps) <= seen then Lowest(gaps) else seen + 1)
  {
    if seen != NONE && slot > seen + 1 {
      InsertHolds(gaps, seen + 1, slot - 1, max, true, x);
      InsertLowest(gaps, seen + 1, slot - 1, max);
    }
  }

  lemma ObserveGapTidy(gaps: seq<Range>, seen: Slot, slot: Slot, max: nat)
    requires slot < NONE && WellFormed(gaps) && (seen != NONE ==> Below(gaps, seen + 1))
    ensures WellFormed(ObserveGap(gaps, seen, slot, max))
    ensures seen != NONE && slot > seen ==> Below(ObserveGap(gaps, seen, slot, max), slot)
  {
    if seen != NONE && slot > seen + 1 {
      forall r | r in gaps ensures r.Misses(seen + 1, slot - 1) {
        var i :| 0 <= i < |gaps| && gaps[i] == r;
      }
      forall r | r in gaps ensures r.to < slot {
        var i :| 0 <= i < |gaps| && gaps[i] == r;
      }
      InsertWellFormed(gaps, seen + 1, slot - 1, max, slot);
    }
  }

  lemma ActOnTidy(s: seq<Range>, a: Action, half: bool, max: nat)
    requires WellFormed(s) && a.Start() <= a.End() < NONE
    requires half ==> MissesClaimed(s, a.Start(), a.End())
    ensures WellFormed(ActOn(s, a, half, max))
  {
    if half {
      forall r | r in s ensures r.to < NONE {}
      InsertWellFormed(s, a.Start(), a.End(), max, NONE);
    } else {
      PerformFrees(s, a, max, 0);
    }
  }

  // ---------------------------------------------------------------- one lemma per step

  lemma TakeLiveOrderly(c: Config, s: State)
    requires c.Valid() && Safe(s) && Enabled(c, s, TakeLive) && Orderly(s) && FirstLiveAtTip(s, TakeLive)
    ensures Orderly(TakeLiveSlot(c, s))
  {
    var t := TakeLiveSlot(c, s);
    var slot := s.live[0];
    forall x ensures Holds(t.gaps, true, x) <==> Holds(s.gaps, true, x) {
      ObserveGapClaims(s.gaps, s.lastSeen, slot, c.maxRanges, x);
    }
    ObserveGapTidy(s.gaps, s.lastSeen, slot, c.maxRanges);
    ObserveGapClaims(s.gaps, s.lastSeen, slot, c.maxRanges, 0);
    hide WellFormed(), Holds(), Below(), ObserveGap();
    assert Pending(t) == Pending(s);
  }

  lemma ResolveStoredOrderly(c: Config, s: State)
    requires c.Valid() && Safe(s) && Enabled(c, s, ResolveStored) && Orderly(s) && SparesClaims(s, ResolveStored)
    ensures Orderly(Apply(c, s, ResolveStored))
  {
    var t := Apply(c, s, ResolveStored);
    var slot := s.stage.slot;
    ResolveLowest(s.gaps, slot, slot);
    ResolveWellFormed(s.gaps, slot, slot);
    forall x ensures Holds(t.gaps, true, x) <==> Holds(s.gaps, true, x) && x != slot {
      ResolveHolds(s.gaps, slot, slot, true, x);
    }
    hide WellFormed(), Holds(), Resolve();
    var p := Pending(s);
    if !s.stage.live {
      assert p[0] == slot && Pending(t) == p[1..];
    }
  }

  lemma ClaimClaims(gaps: seq<Range>, span: Slot)
    requires WellFormed(gaps)
    ensures var (t, g) := Claim(gaps, span);
            && WellFormed(t) && Lowest(t) == Lowest(gaps)
            && (forall x :: Holds(t, true, x) <==> Holds(gaps, true, x) || InGrant(g, x))
            && (forall x :: InGrant(g, x) ==> !Holds(gaps, true, x))
  {
    var width := if span == 0 then 1 else span;
    var (t, g) := Claim(gaps, span);
    ClaimWellFormed(gaps, width);
    forall x ensures Holds(t, true, x) <==> Holds(gaps, true, x) || InGrant(g, x)
             ensures InGrant(g, x) ==> !Holds(gaps, true, x) {
      ClaimHolds(gaps, width, x);
      if InGrant(g, x) { OneOwner(gaps, x); }
    }
  }

  lemma ClaimOrderly(c: Config, s: State, w: nat, span: Slot, o: Oracle)
    requires c.Valid() && Safe(s) && Enabled(c, s, ClaimWork(w, span, o)) && Orderly(s)
    ensures Orderly(ClaimBy(s, w, span, o, c.rule))
  {
    var t := ClaimBy(s, w, span, o, c.rule);
    var g := Claim(s.gaps, span).1;
    ClaimClaims(s.gaps, span);
    if g.Granted? {
      hide WellFormed(), Holds(), Claim(), Work(), Safe(), Unservable(), Forfeits();
      forall v, x ensures Owns(t.workers, v, x) <==> if v == w then InGrant(g, x) else Owns(s.workers, v, x) {}
      forall v, x | TakenOut(t.workers, v, x) ensures TakenOut(s.workers, v, x) {}
      hide Owns(), TakenOut();
      assert Pending(t) == Pending(s);
    }
  }

  lemma ActOwns(c: Config, s: State, w: nat, v: int, x: int)
    requires c.Valid() && Safe(s) && Enabled(c, s, Act(w))
    ensures Owns(ActBy(c, s, w).workers, v, x) ==> Owns(s.workers, v, x) && (v == w ==> !s.workers[w].todo[0].Covers(x))
  {
    assert WorkerOk(s.workers[w], Horizon(s), s.unservable + s.forfeited);
  }

  lemma ActClaims(c: Config, s: State, w: nat, x: int)
    requires c.Valid() && Safe(s) && Enabled(c, s, Act(w)) && Orderly(s)
    ensures var a := s.workers[w].todo[0];
            Holds(ActBy(c, s, w).gaps, true, x) <==>
            Holds(s.gaps, true, x) && (s.workers[w].half || a.Published? || !a.Covers(x))
  {
    assert WorkerOk(s.workers[w], Horizon(s), s.unservable + s.forfeited);
    var a := s.workers[w].todo[0];
    if s.workers[w].half {
      InsertHolds(s.gaps, a.Start(), a.End(), c.maxRanges, true, x);
    } else {
      PerformClaims(s.gaps, a, c.maxRanges, x);
    }
  }

  lemma ActWorkersExclusive(c: Config, s: State, w: nat)
    requires c.Valid() && Safe(s) && Enabled(c, s, Act(w)) && Orderly(s)
    ensures WorkersExclusive(ActBy(c, s, w).workers, ActBy(c, s, w).gaps)
  {
    var t := ActBy(c, s, w);
    var a := s.workers[w].todo[0];
    assert WorkerOk(s.workers[w], Horizon(s), s.unservable + s.forfeited);
    forall x | a.Covers(x) && !s.workers[w].half ensures Owns(s.workers, w, x) {}
    forall v, x | Owns(t.workers, v, x) ensures Owns(s.workers, v, x) && Holds(t.gaps, true, x) {
      ActOwns(c, s, w, v, x);
      ActClaims(c, s, w, x);
    }
  }

  lemma ActPendingSlot(c: Config, s: State, w: nat, x: Slot, v: int)
    requires c.Valid() && Safe(s) && Enabled(c, s, Act(w)) && Orderly(s)
    requires x in Pending(s) || s.workers[w].todo[0] == Published(x)
    ensures var t := ActBy(c, s, w); Holds(t.gaps, true, x) && !Owns(t.workers, v, x)
  {
    var a := s.workers[w].todo[0];
    assert WorkerOk(s.workers[w], Horizon(s), s.unservable + s.forfeited);
    ActClaims(c, s, w, x);
    ActOwns(c, s, w, v, x);
    if a.Covers(x) && !s.workers[w].half { assert Owns(s.workers, w, x); }
  }

  lemma PendingGrows(p: seq<Slot>, more: seq<Slot>, q: seq<Slot>, workers: seq<Worker>, gaps: seq<Range>)
    requires |more| <= 1 && q == p + more
    requires forall i, j | 0 <= i < j < |p| :: p[i] != p[j]
    requires forall x | x in more :: x !in p
    requires forall x | x in p || x in more :: Holds(gaps, true, x)
    requires forall x, v | x in p || x in more :: !Owns(workers, v, x)
    ensures PendingExclusive(q, workers, gaps)
  {
    forall i | 0 <= i < |q| ensures if i < |p| then q[i] in p else q[i] in more {
      if i < |p| { assert q[i] == p[i]; } else { assert q[i] == more[i - |p|]; }
    }
  }

  lemma ActPublishesNew(c: Config, s: State, w: nat, x: Slot)
    requires c.Valid() && Safe(s) && Enabled(c, s, Act(w)) && Orderly(s)
    requires s.workers[w].todo[0] == Published(x)
    ensures x !in Pending(s)
  {
    assert WorkerOk(s.workers[w], Horizon(s), s.unservable + s.forfeited);
    assert Owns(s.workers, w, x);
  }

  lemma ActPendingExclusive(c: Config, s: State, w: nat)
    requires c.Valid() && Safe(s) && Enabled(c, s, Act(w)) && Orderly(s)
    ensures var t := ActBy(c, s, w); PendingExclusive(Pending(t), t.workers, t.gaps)
  {
    var t := ActBy(c, s, w);
    var a := s.workers[w].todo[0];
    var p, more := Pending(s), if a.Published? then [a.slot] else [];
    hide Safe(), Perform(), WorkersExclusive(), Tidy(), FrontierHolds(), Owns(), Holds();
    if a.Published? { ActPublishesNew(c, s, w, a.slot); }
    forall x | x in p || x in more ensures Holds(t.gaps, true, x) {
      ActPendingSlot(c, s, w, x, 0);
    }
    forall x, v | x in p || x in more ensures !Owns(t.workers, v, x) {
      ActPendingSlot(c, s, w, x, v);
    }
    PendingGrows(p, more, Pending(t), t.workers, t.gaps);
  }

  lemma ActFrontier(c: Config, s: State, w: nat)
    requires c.Valid() && Safe(s) && Enabled(c, s, Act(w)) && Orderly(s)
    ensures FrontierHolds(ActBy(c, s, w))
  {
    var t := ActBy(c, s, w);
    var worker := s.workers[w];
    var a := worker.todo[0];
    assert WorkerOk(worker, Horizon(s), s.unservable + s.forfeited);
    if worker.half {
      assert TakenOut(s.workers, w, a.Start());
    } else {
      assert Owns(s.workers, w, a.Start());
    }
    ActOnLowest(s.gaps, a, worker.half, c.maxRanges, Rank(s.lastIndexed));
    forall v, x | TakenOut(t.workers, v, x) ensures TakenOut(s.workers, v, x) {}
  }

  lemma ActOrderly(c: Config, s: State, w: nat)
    requires c.Valid() && Safe(s) && Enabled(c, s, Act(w)) && Orderly(s) && ReturnsClear(s, Act(w))
    ensures Orderly(ActBy(c, s, w))
  {
    var a := s.workers[w].todo[0];
    assert WorkerOk(s.workers[w], Horizon(s), s.unservable + s.forfeited);
    ActOnTidy(s.gaps, a, s.workers[w].half, c.maxRanges);
    ActFrontier(c, s, w);
    ActWorkersExclusive(c, s, w);
    ActPendingExclusive(c, s, w);
  }

  lemma HalfReleaseClaims(c: Config, s: State, w: nat, v: int, x: int)
    requires c.Valid() && Safe(s) && Enabled(c, s, HalfRelease(w)) && Orderly(s)
    ensures var t, a := HalfReleaseBy(s, w), s.workers[w].todo[0];
            && (Holds(t.gaps, true, x) <==> Holds(s.gaps, true, x) && !a.Covers(x))
            && (a.Covers(x) ==> Owns(s.workers, w, x))
            && (Owns(t.workers, v, x) ==> Owns(s.workers, v, x) && (v == w ==> !a.Covers(x)))
  {
    var a := s.workers[w].todo[0];
    assert WorkerOk(s.workers[w], Horizon(s), s.unservable + s.forfeited);
    ResolveHolds(s.gaps, a.from, a.to, true, x);
  }

  lemma HalfReleaseFrontier(c: Config, s: State, w: nat)
    requires c.Valid() && Safe(s) && Enabled(c, s, HalfRelease(w)) && Orderly(s)
    ensures FrontierHolds(HalfReleaseBy(s, w))
  {
    var t, a := HalfReleaseBy(s, w), s.workers[w].todo[0];
    ResolveLowest(s.gaps, a.from, a.to);
    forall v, x | TakenOut(t.workers, v, x) ensures Rank(s.lastIndexed) < x {
      HalfReleaseClaims(c, s, w, v, x);
      if v == w {
        LowestIsLeast(s.gaps, x);
      } else {
        assert TakenOut(s.workers, v, x);
      }
    }
  }

  lemma HalfReleaseOrderly(c: Config, s: State, w: nat)
    requires c.Valid() && Safe(s) && Enabled(c, s, HalfRelease(w)) && Orderly(s)
    ensures Orderly(HalfReleaseBy(s, w))
  {
    var t, a := HalfReleaseBy(s, w), s.workers[w].todo[0];
    HalfReleaseFrontier(c, s, w);
    ResolveWellFormed(s.gaps, a.from, a.to);
    assert Tidy(t) && Pending(t) == Pending(s);
    hide Tidy(), FrontierHolds(), Safe(), Resolve(), Owns(), Holds(), Pending();
    forall x
      ensures Holds(t.gaps, true, x) <==> Holds(s.gaps, true, x) && !(a.Covers(x) && Owns(s.workers, w, x))
    {
      HalfReleaseClaims(c, s, w, w, x);
    }
    forall v, x | Owns(t.workers, v, x) ensures Owns(s.workers, v, x) && (v == w ==> !a.Covers(x)) {
      HalfReleaseClaims(c, s, w, v, x);
    }
    assert WorkersExclusive(t.workers, t.gaps);
    assert PendingExclusive(Pending(t), t.workers, t.gaps);
  }

  lemma UpdateOrderly(c: Config, s: State)
    requires c.Valid() && Safe(s) && Enabled(c, s, UpdateWatermark) && Orderly(s)
    ensures ReadsClear(s, UpdateWatermark) ==> Orderly(Apply(c, s, UpdateWatermark))
    ensures Rank(s.lastIndexed) <= Rank(Apply(c, s, UpdateWatermark).lastIndexed)
  {
    LowestIsLeast(s.gaps, 0);
    assert Pending(Apply(c, s, UpdateWatermark)) == Pending(s);
  }

  lemma StepOrderly(c: Config, s: State, e: Event)
    requires c.Valid() && Safe(s) && Enabled(c, s, e) && Orderly(s) && Respects(s, e)
    ensures Orderly(Apply(c, s, e))
  {
    match e
    case Start(tip, recover) => StartOrderly(c, s, tip, recover);
    case TakeLive => TakeLiveOrderly(c, s);
    case TakeRecovered => assert Pending(Apply(c, s, e)) == Pending(s);
    case Handle(ok) => HandleOrderly(c, s, ok);
    case ResolveStored => ResolveStoredOrderly(c, s);
    case UpdateWatermark => UpdateOrderly(c, s);
    case ClaimWork(w, span, o) => ClaimOrderly(c, s, w, span, o);
    case Act(w) => ActOrderly(c, s, w);
    case PublishLive(_) => assert Pending(Apply(c, s, e)) == Pending(s);
    case Save =>
    case HalfRelease(w) => HalfReleaseOrderly(c, s, w);
    case Crash =>
  }

  lemma StartOrderly(c: Config, s: State, tip: Slot, recover: bool)
    requires c.Valid() && Safe(s) && Enabled(c, s, Start(tip, recover))
    ensures Orderly(StartRun(c, s, tip, recover))
  {
    var t := StartRun(c, s, tip, recover);
    if t.floor <= t.edge {
      InsertAlone(t.floor, t.edge, c.maxRanges);
    }
  }

  lemma HandleOrderly(c: Config, s: State, ok: bool)
    requires c.Valid() && Safe(s) && Enabled(c, s, Handle(ok)) && Orderly(s)
    ensures Orderly(Apply(c, s, Handle(ok)))
  {
    var t := Apply(c, s, Handle(ok));
    var p := Pending(s);
    hide WellFormed(), Holds(), Owns();
    if ok || s.stage.live {
      assert Pending(t) == p;
    } else {
      assert Pending(t) == p[1..];
    }
  }

  // ---------------------------------------------------------------- every run

  lemma {:induction false} RunOrderly(c: Config, s: State, events: seq<Event>)
    requires c.Valid() && Safe(s) && Orderly(s) && IsRun(c, s, events)
    requires Along(c, s, events, Respectful())
    ensures Safe(RunFrom(c, s, events)) && Orderly(RunFrom(c, s, events))
    decreases |events|
  {
    if events != [] {
      StepSafe(c, s, events[0]);
      StepOrderly(c, s, events[0]);
      RunOrderly(c, Apply(c, s, events[0]), events[1..]);
    }
  }

  /** The watermark about to be computed is below the one there is. */
  ghost predicate Falls(c: Config, s: State)
    requires c.Valid()
  {
    Enabled(c, s, UpdateWatermark) && Rank(Apply(c, s, UpdateWatermark).lastIndexed) < Rank(s.lastIndexed)
  }

  /** Releases in one piece meet the condition on releases. */
  lemma {:induction false} WholeReleasesSpare(c: Config, s: State, events: seq<Event>)
    requires c.Valid() && IsRun(c, s, events) && NoneTakenOut(s) && Along(c, s, events, WholeReleases())
    ensures Along(c, s, events, SparingReleases())
    decreases |events|
  {
    if events != [] { WholeReleasesSpare(c, Apply(c, s, events[0]), events[1..]); }
  }

  lemma OrderlyNeverFalls(c: Config, s: State)
    requires c.Valid() && Safe(s) && Orderly(s)
    ensures !Falls(c, s)
  {
    if Enabled(c, s, UpdateWatermark) { UpdateOrderly(c, s); }
  }

  /**
   The frontier never falls: at any point of any run, however many fetchers are releasing and
   however often the gap set is coarsened, the watermark computed after a commit is at or above
   the one before it, as long as each run's first live slot is the last backfilled one or later, no
   live slot is resolved inside a claim, and readings and claims spare what is being released.
   */
  lemma FrontierNeverFalls(c: Config, s: State, events: seq<Event>)
    requires c.Valid() && Initial(s) && IsRun(c, s, events)
    requires Along(c, s, events, Respectful())
    ensures !Falls(c, RunFrom(c, s, events))
  {
    RunOrderly(c, s, events);
    OrderlyNeverFalls(c, RunFrom(c, s, events));
  }

  /** Nothing durable is ahead of the frontier. */
  ghost predicate SavedBehind(s: State) {
    s.up ==> Rank(s.saved) <= Rank(s.lastIndexed)
  }

  lemma StepSavedRises(c: Config, s: State, e: Event)
    requires c.Valid() && Safe(s) && Orderly(s) && SavedBehind(s) && Enabled(c, s, e)
    ensures SavedBehind(Apply(c, s, e)) && Rank(s.saved) <= Rank(Apply(c, s, e).saved)
  {
    if e.UpdateWatermark? { UpdateOrderly(c, s); }
    hide Safe(), Orderly();
  }

  lemma {:induction false} RunSavedRises(c: Config, s: State, events: seq<Event>)
    requires c.Valid() && Safe(s) && Orderly(s) && SavedBehind(s) && IsRun(c, s, events)
    requires Along(c, s, events, Respectful())
    ensures SavedBehind(RunFrom(c, s, events)) && Rank(s.saved) <= Rank(RunFrom(c, s, events).saved)
    decreases |events|
  {
    if events != [] {
      var e := events[0];
      StepSafe(c, s, e);
      StepOrderly(c, s, e);
      StepSavedRises(c, s, e);
      RunSavedRises(c, Apply(c, s, e), events[1..]);
    }
  }

  /**
   So the resume point never goes back: across any number of saves, crashes and restarts, what is saved is
   at or above what was saved before.
   */
  lemma ResumePointNeverFalls(c: Config, s: State, before: seq<Event>, after: seq<Event>)
    requires c.Valid() && Initial(s) && IsRun(c, s, before) && IsRun(c, RunFrom(c, s, before), after)
    requires Along(c, s, before, Respectful()) && Along(c, RunFrom(c, s, before), after, Respectful())
    ensures Rank(RunFrom(c, s, before).saved) <= Rank(RunFrom(c, RunFrom(c, s, before), after).saved)
  {
    RunOrderly(c, s, before);
    RunSavedRises(c, s, before);
    RunSavedRises(c, RunFrom(c, s, before), after);
  }

  /**
   No slot is worked twice at once: in every run so restricted a slot some fetcher still has to work is claimed,
   belongs to that fetcher alone, and is not also waiting to be committed.
   */
  lemma NoSlotHasTwoOwners(c: Config, s: State, events: seq<Event>, v: int, w: int, x: int)
    requires c.Valid() && Initial(s) && IsRun(c, s, events)
    requires Along(c, s, events, Respectful())
    ensures var t := RunFrom(c, s, events);
            t.up && Owns(t.workers, v, x) ==>
              && Holds(t.gaps, true, x) && (Owns(t.workers, w, x) ==> v == w)
              && (forall i | 0 <= i < |t.recovered| :: t.recovered[i] != x)
  {
    RunOrderly(c, s, events);
    var t := RunFrom(c, s, events);
    if t.up && Owns(t.workers, v, x) {
      var p := Pending(t);
      forall i | 0 <= i < |t.recovered| ensures t.recovered[i] != x {
        assert p[|p| - |t.recovered| + i] == t.recovered[i];
      }
    }
  }
}
