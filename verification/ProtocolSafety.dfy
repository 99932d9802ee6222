/**
 Crash-safe no-loss: in every interleaving of the pipeline's steps, with a crash anywhere, no promised
 slot below the resume point is lost, but for those a stopped fetcher gave up unfetched. Nothing is
 asked of the live slots: they may repeat, fall back, or start inside the backfill. The one thing asked
 is of a release in two halves: a watermark read in between is to lie below the range taken out.
 */
module ProtocolSafety {
  import opened Slots
  import opened Gaps
  import opened GapSafety
  import opened Fetchers
  import opened Protocol
  import opened ProtocolRuns

  // ---------------------------------------------------------------- the invariant

  /** The slot was committed, or a fetcher gave up on it. */
  ghost predicate Done(s: State, x: int) {
    x in s.committed || x in s.reported
  }

  ghost predicate InFlight(s: State, x: int) {
    (s.stage.Handling? || s.stage.Halted?) && s.stage.slot == x
  }

  /** Slot `x` is in the range worker `w` is releasing: resolved, and not inserted yet. */
  ghost predicate TakenOut(workers: seq<Worker>, w: int, x: int) {
    0 <= w < |workers| && workers[w].Busy? && workers[w].half && workers[w].todo != [] && workers[w].todo[0].Covers(x)
  }

  ghost predicate BetweenHalves(workers: seq<Worker>, x: int) {
    exists w :: TakenOut(workers, w, x)
  }

  /** Nothing at or above `base` has been stored or given up yet. */
  ghost predicate Unspent(s: State, base: int) {
    forall x | x >= base :: x !in s.committed && x !in s.unservable && x !in s.forfeited
  }

  /** Everything promised at or below `mark` is done. */
  ghost predicate Trusted(s: State, mark: Slot) {
    forall x | x in s.owed && x <= Rank(mark) :: Done(s, x)
  }

  /** Every promised slot is done, outstanding, being handled, or between the halves of a release. */
  ghost predicate Accounted(s: State) {
    forall x | x in s.owed ::
      x <= Horizon(s) && (Done(s, x) || Meets(s.gaps, x) || InFlight(s, x) || BetweenHalves(s.workers, x))
  }

  ghost predicate Bounded(s: State) {
    && -1 <= s.edge && s.floor - 1 <= s.edge && Horizon(s) < NONE
    && Rank(s.saved) <= Horizon(s) && Rank(s.lastIndexed) <= Horizon(s) && Rank(s.highest) <= Horizon(s)
    && (!s.stage.Waiting? && !s.stage.Resolving? ==> s.stage.slot <= Horizon(s))
    && (s.stage.Stored? ==> s.stage.slot as int in s.committed)
    && (s.stage.Stored? || s.stage == Resolving ==> s.highest != NONE)
    && (forall i | 0 <= i < |s.recovered| :: s.recovered[i] <= Horizon(s))
    && (forall i | 0 <= i < |s.live| :: s.floor <= s.live[i] < NONE)
    && (s.lastSeen != NONE ==> s.floor <= s.lastSeen)
  }

  ghost predicate GivesUpOnly(todo: seq<Action>, slots: iset<int>) {
    forall a, x | a in todo && a.Resolved? && a.Covers(x) :: x in slots
  }

  ghost predicate WorkerOk(worker: Worker, bound: int, slots: iset<int>) {
    worker.Busy? ==>
      && worker.todo != [] && 0 <= worker.next && Tiles(worker.todo, worker.next, worker.to) && worker.to <= bound
      && GivesUpOnly(worker.todo, slots) && (worker.half ==> worker.todo[0].Released?)
  }

  ghost predicate WorkersOk(s: State) {
    forall w | 0 <= w < |s.workers| :: WorkerOk(s.workers[w], Horizon(s), s.unservable + s.forfeited)
  }

  /** The backfill is promised, and so is everything from the first live slot to the last. */
  ghost predicate Promised(s: State) {
    && (forall x | s.floor <= x <= s.edge :: x in s.owed)
    && (s.lastSeen != NONE ==> forall x | s.firstSeen <= x <= s.lastSeen :: x in s.owed)
  }

  /** What holds of the running pipeline. */
  ghost predicate Running(s: State) {
    && Below(s.gaps, Horizon(s) + 1)
    && Bounded(s)
    && Accounted(s)
    && WorkersOk(s)
    && Trusted(s, s.lastIndexed)
    && Promised(s)
  }

  ghost predicate Safe(s: State) {
    && Trusted(s, s.saved)
    && s.reported <= s.unservable + s.forfeited
    && (s.up ==> Running(s))
  }

  // ---------------------------------------------------------------- one lemma per step

  lemma StartSafe(c: Config, s: State, tip: Slot, recover: bool)
    requires c.Valid() && Safe(s) && Enabled(c, s, Start(tip, recover))
    ensures Safe(StartRun(c, s, tip, recover))
  {
    var t := StartRun(c, s, tip, recover);
    if t.floor <= t.edge {
      InsertMeets([], t.floor, t.edge, c.maxRanges, t.edge + 1, 0);
      forall x | t.floor <= x <= t.edge ensures Meets(t.gaps, x) {
        InsertMeets([], t.floor, t.edge, c.maxRanges, t.edge + 1, x);
      }
    }
  }

  lemma ObserveGapMeets(gaps: seq<Range>, seen: Slot, slot: Slot, max: nat, bound: int)
    requires Below(gaps, bound) && slot < NONE && slot <= bound
    ensures Below(ObserveGap(gaps, seen, slot, max), bound)
    ensures forall x :: Meets(gaps, x) || (seen != NONE && seen < x < slot) ==>
                          Meets(ObserveGap(gaps, seen, slot, max), x)
  {
    if seen != NONE && slot > seen + 1 {
      InsertMeets(gaps, seen + 1, slot - 1, max, bound, 0);
      forall x ensures Meets(gaps, x) || seen < x < slot ==> Meets(ObserveGap(gaps, seen, slot, max), x) {
        InsertMeets(gaps, seen + 1, slot - 1, max, bound, x);
      }
    }
  }

  lemma TakeLiveSafe(c: Config, s: State)
    requires c.Valid() && Safe(s) && Enabled(c, s, TakeLive)
    ensures Safe(TakeLiveSlot(c, s))
  {
    var t := TakeLiveSlot(c, s);
    ObserveGapMeets(s.gaps, s.lastSeen, s.live[0], c.maxRanges, Horizon(t) + 1);
    hide Meets(), Below(), ObserveGap();
    assert Bounded(t);
    forall x | x in t.owed && x !in s.owed ensures x > Horizon(s) {}
    assert Accounted(t);
    assert Promised(t);
  }

  lemma PublishSafe(c: Config, s: State, slot: Slot)
    requires c.Valid() && Safe(s) && Enabled(c, s, PublishLive(slot))
    ensures Safe(Apply(c, s, PublishLive(slot)))
  {
  }

  lemma HandleSafe(c: Config, s: State, ok: bool)
    requires c.Valid() && Safe(s) && Enabled(c, s, Handle(ok))
    ensures Safe(Apply(c, s, Handle(ok)))
  {
  }

  lemma ResolveSafe(c: Config, s: State)
    requires c.Valid() && Safe(s) && Enabled(c, s, ResolveStored)
    ensures Safe(Apply(c, s, ResolveStored))
  {
    var slot := s.stage.slot;
    var t := Apply(c, s, ResolveStored);
    ResolveMeets(s.gaps, slot, slot, Horizon(s) + 1, 0);
    forall x ensures Meets(s.gaps, x) && x != slot ==> Meets(t.gaps, x) {
      ResolveMeets(s.gaps, slot, slot, Horizon(s) + 1, x);
    }
  }

  /** A reading keeps the promise exactly when no slot still to be done is between halves at or below it. */
  lemma UpdateSafeIff(c: Config, s: State)
    requires c.Valid() && Safe(s) && Enabled(c, s, UpdateWatermark)
    ensures Safe(Apply(c, s, UpdateWatermark)) <==>
            var reading := Rank(Watermark(s.gaps, s.highest));
            forall x | BetweenHalves(s.workers, x) && x in s.owed && x <= reading :: Done(s, x)
  {
    var t := Apply(c, s, UpdateWatermark);
    forall x | x in s.owed && x <= Rank(t.lastIndexed) && !BetweenHalves(s.workers, x) ensures Done(s, x) {
      if Meets(s.gaps, x) { MeetsIsHeld(s.gaps, x); }
    }
    assert Trusted(t, t.lastIndexed) <==>
           forall x | BetweenHalves(s.workers, x) && x in s.owed && x <= Rank(t.lastIndexed) :: Done(s, x);
  }

  /** A watermark is read below every range that is between the halves of its release. */
  ghost predicate ReadsClear(s: State, e: Event) {
    e.UpdateWatermark? ==> forall w, x | TakenOut(s.workers, w, x) :: Rank(Watermark(s.gaps, s.highest)) < x
  }

  ghost function ReadingsClear(): (State, Event) -> bool {
    (s: State, e: Event) => ReadsClear(s, e)
  }

  lemma UpdateSafe(c: Config, s: State)
    requires c.Valid() && Safe(s) && Enabled(c, s, UpdateWatermark) && ReadsClear(s, UpdateWatermark)
    ensures Safe(Apply(c, s, UpdateWatermark))
  {
    UpdateSafeIff(c, s);
  }

  lemma ClaimGaps(gaps: seq<Range>, span: Slot, bound: int)
    requires Below(gaps, bound)
    ensures Below(Claim(gaps, span).0, bound)
    ensures forall x :: Meets(gaps, x) ==> Meets(Claim(gaps, span).0, x)
    ensures var g := Claim(gaps, span).1; g.Granted? ==> g.from <= g.to < NONE && g.to < bound
  {
    var width := if span == 0 then 1 else span;
    ClaimMeets(gaps, width, bound, 0);
    forall x ensures Meets(gaps, x) ==> Meets(Claim(gaps, span).0, x) {
      ClaimMeets(gaps, width, bound, x);
    }
  }

  /** A worker that moves on leaves the others' releases where they are. */
  lemma WorkerMovesOn(workers: seq<Worker>, w: nat, next: Worker, x: int)
    requires w < |workers|
    ensures BetweenHalves(workers, x) ==> BetweenHalves(workers[w := next], x) || TakenOut(workers, w, x)
  {
    if BetweenHalves(workers, x) {
      var v :| TakenOut(workers, v, x);
      if v != w { assert TakenOut(workers[w := next], v, x); }
    }
  }

  lemma ClaimSafe(c: Config, s: State, w: nat, span: Slot, o: Oracle)
    requires c.Valid() && Safe(s) && Enabled(c, s, ClaimWork(w, span, o))
    ensures Safe(ClaimBy(s, w, span, o, c.rule))
  {
    ClaimGaps(s.gaps, span, Horizon(s) + 1);
    var g := Claim(s.gaps, span).1;
    if g.Granted? {
      ClaimedWorkerOk(c, s, w, span, o);
      forall x | BetweenHalves(s.workers, x) ensures BetweenHalves(ClaimBy(s, w, span, o, c.rule).workers, x) {
        WorkerMovesOn(s.workers, w, ClaimBy(s, w, span, o, c.rule).workers[w], x);
      }
    }
    hide Meets(), Below(), Claim(), BetweenHalves(), Work();
  }

  lemma ClaimedWorkerOk(c: Config, s: State, w: nat, span: Slot, o: Oracle)
    requires c.Valid() && Safe(s) && Enabled(c, s, ClaimWork(w, span, o))
    requires Claim(s.gaps, span).1.Granted?
    ensures WorkersOk(ClaimBy(s, w, span, o, c.rule))
  {
    var t := ClaimBy(s, w, span, o, c.rule);
    var g := Claim(s.gaps, span).1;
    ClaimGaps(s.gaps, span, Horizon(s) + 1);
    WorkTiles(c.rule, o, g.from, g.to);
    var todo := Work(c.rule, o, g.from, g.to);
    TilesStartAt(todo, g.from, g.to);
    forall a, x | a in todo && a.Resolved? && a.Covers(x) ensures x in t.unservable + t.forfeited {
      assert GivenUp(todo, x) && Within(g.from, x, g.to);
    }
    assert todo != [];
  }

  lemma ActGaps(gaps: seq<Range>, a: Action, half: bool, max: nat, bound: int)
    requires Below(gaps, bound) && a.Start() <= a.End() < NONE && a.End() < bound && (half ==> a.Released?)
    ensures Below(ActOn(gaps, a, half, max), bound)
    ensures forall x | Meets(gaps, x) && !(a.Resolved? && a.Covers(x)) :: Meets(ActOn(gaps, a, half, max), x)
    ensures half ==> forall x | a.Covers(x) :: Meets(ActOn(gaps, a, half, max), x)
  {
    match a
    case Published(_) =>
    case Resolved(from, to) =>
      ResolveMeets(gaps, from, to, bound, 0);
      forall x | Meets(gaps, x) && !a.Covers(x) ensures Meets(ActOn(gaps, a, half, max), x) {
        ResolveMeets(gaps, from, to, bound, x);
      }
    case Released(from, to) =>
      if half {
        InsertMeets(gaps, from, to, max, bound, 0);
      } else {
        ReleaseMeets(gaps, from, to, max, bound, 0);
      }
      forall x | Meets(gaps, x) || (half && a.Covers(x)) ensures Meets(ActOn(gaps, a, half, max), x) {
        if half {
          InsertMeets(gaps, from, to, max, bound, x);
        } else {
          ReleaseMeets(gaps, from, to, max, bound, x);
        }
      }
  }

  /** What is left of a worker's list is still in order. */
  lemma NextWorkOk(worker: Worker, bound: int, slots: iset<int>)
    requires worker.Busy? && WorkerOk(worker, bound, slots)
    ensures WorkerOk(NextWork(worker), bound, slots)
    ensures worker.todo[0].Start() <= worker.todo[0].End() <= worker.to
    ensures worker.todo[0].Resolved? ==> forall x | worker.todo[0].Covers(x) :: x in slots
  {
    assert worker.todo[0] in worker.todo;
    assert forall a | a in worker.todo[1..] :: a in worker.todo;
  }

  lemma ActSafe(c: Config, s: State, w: nat)
    requires c.Valid() && Safe(s) && Enabled(c, s, Act(w))
    ensures Safe(ActBy(c, s, w))
  {
    var t := ActBy(c, s, w);
    var worker := s.workers[w];
    var a := worker.todo[0];
    assert WorkerOk(worker, Horizon(s), s.unservable + s.forfeited);
    NextWorkOk(worker, Horizon(s), s.unservable + s.forfeited);
    ActGaps(s.gaps, a, worker.half, c.maxRanges, Horizon(s) + 1);
    forall x | BetweenHalves(s.workers, x) ensures BetweenHalves(t.workers, x) || Meets(t.gaps, x) {
      WorkerMovesOn(s.workers, w, NextWork(worker), x);
    }
    hide Meets(), Below(), ActOn(), NextWork(), WorkerOk(), BetweenHalves();
  }

  lemma HalfReleaseSafe(c: Config, s: State, w: nat)
    requires c.Valid() && Safe(s) && Enabled(c, s, HalfRelease(w))
    ensures Safe(HalfReleaseBy(s, w))
  {
    var t := HalfReleaseBy(s, w);
    var a := s.workers[w].todo[0];
    assert WorkerOk(s.workers[w], Horizon(s), s.unservable + s.forfeited);
    ResolveMeets(s.gaps, a.from, a.to, Horizon(s) + 1, 0);
    forall x | Meets(s.gaps, x) || BetweenHalves(s.workers, x) ensures Meets(t.gaps, x) || BetweenHalves(t.workers, x) {
      ResolveMeets(s.gaps, a.from, a.to, Horizon(s) + 1, x);
      WorkerMovesOn(s.workers, w, t.workers[w], x);
      assert a.Covers(x) ==> TakenOut(t.workers, w, x);
    }
    hide Meets(), Below(), Resolve(), BetweenHalves(), Tiles(), GivesUpOnly();
  }

  // ---------------------------------------------------------------- every run

  /** Every step keeps the promise, whatever the live slots and the endpoint do, but a reading inside a release. */
  lemma StepSafe(c: Config, s: State, e: Event)
    requires c.Valid() && Safe(s) && Enabled(c, s, e) && ReadsClear(s, e)
    ensures Safe(Apply(c, s, e))
  {
    match e
    case Start(tip, recover) => StartSafe(c, s, tip, recover);
    case TakeLive => TakeLiveSafe(c, s);
    case ResolveStored => ResolveSafe(c, s);
    case UpdateWatermark => UpdateSafe(c, s);
    case ClaimWork(w, span, o) => ClaimSafe(c, s, w, span, o);
    case Act(w) => ActSafe(c, s, w);
    case PublishLive(slot) => PublishSafe(c, s, slot);
    case Handle(ok) => HandleSafe(c, s, ok);
    case TakeRecovered =>
    case Save =>
    case HalfRelease(w) => HalfReleaseSafe(c, s, w);
    case Crash =>
  }

  lemma {:induction false} RunSafe(c: Config, s: State, events: seq<Event>)
    requires c.Valid() && Safe(s) && IsRun(c, s, events) && Along(c, s, events, ReadingsClear())
    ensures Safe(RunFrom(c, s, events))
    decreases |events|
  {
    if events != [] {
      StepSafe(c, s, events[0]);
      RunSafe(c, Apply(c, s, events[0]), events[1..]);
    }
  }

  /** A promised slot below the resume point that was neither committed nor without anything to serve. */
  ghost predicate Lost(c: Config, s: State, x: int) {
    && x in s.owed && s.saved != NONE && x < ResumeSlot(s.saved, c.startSlot)
    && x !in s.committed && x !in s.unservable
  }

  /**
   Crash-safe no-loss. At every moment of every run, whatever has crashed, restarted or been stopped, a
   slot is lost only if a stopped fetcher gave it up unfetched, even when the saved value is stale; and
   while the pipeline is up every promised slot is done, outstanding in the gap set, being handled, or
   between the halves of a release.
   */
  lemma NoPromisedSlotIsLost(c: Config, s: State, events: seq<Event>, x: int)
    requires c.Valid() && Initial(s) && IsRun(c, s, events) && Along(c, s, events, ReadingsClear())
    ensures var t := RunFrom(c, s, events);
            && (Lost(c, t, x) ==> x in t.forfeited)
            && (t.up && x in t.owed ==>
                  || x in t.committed || x in t.unservable || x in t.forfeited
                  || Held(t.gaps, x) || InFlight(t, x) || BetweenHalves(t.workers, x))
  {
    RunSafe(c, s, events);
    var t := RunFrom(c, s, events);
    if t.up && Meets(t.gaps, x) { MeetsIsHeld(t.gaps, x); }
  }

  /** A live slot the ring dropped is no exception: it lies between two consumed ones. */
  lemma DroppedSlotsAreRecovered(c: Config, s: State, events: seq<Event>, x: int)
    requires c.Valid() && Initial(s) && IsRun(c, s, events) && Along(c, s, events, ReadingsClear())
    ensures var t := RunFrom(c, s, events);
            t.up && t.lastSeen != NONE && t.firstSeen <= x <= t.lastSeen ==>
              || x in t.committed || x in t.unservable || x in t.forfeited
              || Held(t.gaps, x) || InFlight(t, x) || BetweenHalves(t.workers, x)
  {
    RunSafe(c, s, events);
    NoPromisedSlotIsLost(c, s, events, x);
  }

  // ---------------------------------------------------------------- releases in one piece

  ghost function WholeReleases(): (State, Event) -> bool {
    (s: State, e: Event) => !e.HalfRelease?
  }

  ghost predicate NoneTakenOut(s: State) {
    s.up ==> forall w | 0 <= w < |s.workers| && s.workers[w].Busy? :: !s.workers[w].half
  }

  /** Where nothing comes between the halves of a release, every reading is clear. */
  lemma {:induction false} WholeReleasesAreClear(c: Config, s: State, events: seq<Event>)
    requires c.Valid() && IsRun(c, s, events) && NoneTakenOut(s) && Along(c, s, events, WholeReleases())
    ensures Along(c, s, events, ReadingsClear()) && NoneTakenOut(RunFrom(c, s, events))
    decreases |events|
  {
    if events != [] {
      WholeReleasesAreClear(c, Apply(c, s, events[0]), events[1..]);
    }
  }

  lemma PlainIsClear(c: Config, s: State, events: seq<Event>, o: Opening, rising: bool)
    requires c.Valid() && IsRun(c, s, events) && !s.up && Along(c, s, events, Plainly(o))
    ensures Along(c, s, events, Opened(o, rising)) && Along(c, s, events, ReadingsClear())
  {
    AlongBoth(c, s, events, Plainly(o), Plainly(o), Opened(o, rising));
    AlongBoth(c, s, events, Plainly(o), Plainly(o), WholeReleases());
    WholeReleasesAreClear(c, s, events);
  }

  /** So then a promised slot is done, outstanding or in hand, and lost only if it was forfeited. */
  lemma WholeReleasesLoseNothing(c: Config, s: State, events: seq<Event>, x: int)
    requires c.Valid() && Initial(s) && IsRun(c, s, events) && Along(c, s, events, WholeReleases())
    ensures var t := RunFrom(c, s, events);
            && (Lost(c, t, x) ==> x in t.forfeited)
            && (t.up && x in t.owed ==>
                  x in t.committed || x in t.unservable || x in t.forfeited || Held(t.gaps, x) || InFlight(t, x))
  {
    WholeReleasesAreClear(c, s, events);
    NoPromisedSlotIsLost(c, s, events, x);
  }

  // ---------------------------------------------------------------- what is promised

  /** The promise has no hole from `base` up. */
  ghost predicate Seamless(s: State, base: nat) {
    forall x | base <= x <= (if s.up then Horizon(s) else Rank(s.saved)) :: x in s.owed
  }

  /** A run resumes no higher than `base`, or where one was saved, and its first live slot joins on to its backfill. */
  ghost predicate JoinsOn(c: Config, s: State, e: Event, base: nat) {
    && (e.Start? && s.saved == NONE ==> c.startSlot <= base)
    && (e.TakeLive? && s.live != [] && s.lastSeen == NONE ==> s.live[0] <= base || s.live[0] <= s.edge + 1)
  }

  ghost function Joining(c: Config, base: nat): (State, Event) -> bool {
    (s: State, e: Event) => JoinsOn(c, s, e, base)
  }

  lemma StepSeamless(c: Config, s: State, e: Event, base: nat)
    requires c.Valid() && Safe(s) && Enabled(c, s, e)
    requires Seamless(s, base) && JoinsOn(c, s, e, base)
    ensures Seamless(Apply(c, s, e), base)
  {
    hide Meets(), Below(), Trusted(), Accounted(), WorkersOk();
    var t := Apply(c, s, e);
    if e.Start? {
      assert forall x | base <= x <= Horizon(t) :: x <= Rank(s.saved) || Within(t.floor, x, t.edge);
    }
  }

  lemma {:induction false} RunSeamless(c: Config, s: State, events: seq<Event>, base: nat)
    requires c.Valid() && Safe(s) && IsRun(c, s, events) && Seamless(s, base)
    requires Along(c, s, events, ReadingsClear()) && Along(c, s, events, Joining(c, base))
    ensures Safe(RunFrom(c, s, events)) && Seamless(RunFrom(c, s, events), base)
    decreases |events|
  {
    if events != [] {
      StepSafe(c, s, events[0]);
      StepSeamless(c, s, events[0], base);
      RunSeamless(c, Apply(c, s, events[0]), events[1..], base);
    }
  }

  /** Nobody has this slot: it is below the resume point, and was neither stored nor given up. */
  ghost predicate Missed(c: Config, s: State, base: nat, x: int) {
    && s.saved != NONE && base <= x < ResumeSlot(s.saved, c.startSlot)
    && x !in s.committed && x !in s.unservable && x !in s.forfeited
  }

  lemma SeamlessMissesNothing(c: Config, s: State, base: nat, x: int)
    requires Safe(s) && Seamless(s, base)
    ensures !Missed(c, s, base, x)
  {
    if s.saved != NONE && base <= x <= s.saved {
      assert x in s.owed;
    }
  }

  /**
   So nothing at all is missed from `base` to the resume point, across any number of crashes, when
   every run's first live slot joins on to its backfill.
   */
  lemma NothingBelowTheResumePointIsLost(c: Config, s: State, events: seq<Event>, base: nat, x: int)
    requires c.Valid() && Initial(s) && IsRun(c, s, events)
    requires Along(c, s, events, ReadingsClear()) && Along(c, s, events, Joining(c, base))
    ensures !Missed(c, RunFrom(c, s, events), base, x)
  {
    RunSeamless(c, s, events, base);
    SeamlessMissesNothing(c, RunFrom(c, s, events), base, x);
  }

  /** Taking a first live slot keeps the promise without a hole exactly when it joins on. */
  lemma FirstLiveJoinsOnIff(c: Config, s: State, base: nat)
    requires c.Valid() && Safe(s) && Enabled(c, s, TakeLive) && s.lastSeen == NONE
    requires Seamless(s, base)
    ensures Seamless(TakeLiveSlot(c, s), base) <==> JoinsOn(c, s, TakeLive, base)
  {
    var t := TakeLiveSlot(c, s);
    var x := if base <= s.edge then s.edge + 1 else base;
    if !JoinsOn(c, s, TakeLive, base) {
      assert x !in t.owed;
    }
  }
}
