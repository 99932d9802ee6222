/**
 When the frontier can fall. Live slots that are always above everything before them never lower it.
 Live slots that rise from a first one on lower it exactly when that first one is in the backfill; if
 besides they are never resolved inside a claim, exactly when it is below the backfill's last slot. And
 a single reading at or above a range that is between the halves of its release is enough.
 */
module ProtocolFalls {
  import opened Slots
  import opened Gaps
  import opened GapTheorems
  import opened GapSafety
  import opened Fetchers
  import opened Protocol
  import opened ProtocolRuns
  import opened ProtocolSafety
  import opened ProtocolLosses
  import opened ProtocolFrontier

  // ---------------------------------------------------------------- rising above everything

  /** A live slot is above everything the run is responsible for so far. */
  ghost predicate RisesAbove(s: State, e: Event) {
    e.TakeLive? && s.live != [] ==> s.live[0] > Horizon(s)
  }

  ghost function RisingAbove(): (State, Event) -> bool {
    (s: State, e: Event) => RisesAbove(s, e)
  }

  /** A live slot in hand lies above everything outstanding, and above every claim. */
  ghost predicate LiveOnTop(s: State) {
    s.up && (s.stage.Handling? || s.stage.Stored?) && s.stage.live ==>
      && Below(s.gaps, s.stage.slot)
      && forall w | 0 <= w < |s.workers| && s.workers[w].Busy? :: s.workers[w].to < s.stage.slot
  }

  lemma TakeLiveOnTop(c: Config, s: State)
    requires c.Valid() && Safe(s) && Orderly(s) && Enabled(c, s, TakeLive) && RisesAbove(s, TakeLive)
    ensures LiveOnTop(TakeLiveSlot(c, s))
  {
    ObserveGapTidy(s.gaps, s.lastSeen, s.live[0], c.maxRanges);
    forall w | 0 <= w < |s.workers| && s.workers[w].Busy? ensures s.workers[w].to < s.live[0] {
      assert WorkerOk(s.workers[w], Horizon(s), s.unservable + s.forfeited);
    }
  }

  lemma ActOnTop(c: Config, s: State, w: nat)
    requires c.Valid() && Safe(s) && LiveOnTop(s) && Enabled(c, s, Act(w))
    ensures LiveOnTop(ActBy(c, s, w))
  {
    var a := s.workers[w].todo[0];
    assert WorkerOk(s.workers[w], Horizon(s), s.unservable + s.forfeited);
    if (s.stage.Handling? || s.stage.Stored?) && s.stage.live {
      ActGaps(s.gaps, a, s.workers[w].half, c.maxRanges, s.stage.slot);
    }
  }

  lemma StepOnTop(c: Config, s: State, e: Event)
    requires c.Valid() && Safe(s) && Orderly(s) && LiveOnTop(s) && Enabled(c, s, e) && RisesAbove(s, e)
    ensures LiveOnTop(Apply(c, s, e))
  {
    match e
    case TakeLive => TakeLiveOnTop(c, s);
    case ClaimWork(w, span, _) =>
      if (s.stage.Handling? || s.stage.Stored?) && s.stage.live { ClaimGaps(s.gaps, span, s.stage.slot); }
    case Act(w) => ActOnTop(c, s, w);
    case HalfRelease(w) =>
      if (s.stage.Handling? || s.stage.Stored?) && s.stage.live {
        ResolveMeets(s.gaps, s.workers[w].todo[0].from, s.workers[w].todo[0].to, s.stage.slot, 0);
      }
    case Start(_, _) =>
    case PublishLive(_) =>
    case TakeRecovered =>
    case Handle(_) =>
    case ResolveStored =>
    case UpdateWatermark =>
    case Save =>
    case Crash =>
  }

  lemma OnTopSpares(s: State, e: Event)
    requires LiveOnTop(s)
    ensures s.up ==> SparesClaims(s, e)
  {
  }

  /** Live slots that rise above everything leave every claim alone, across any number of restarts. */
  lemma {:induction false} RisingIsRespectful(c: Config, s: State, events: seq<Event>)
    requires c.Valid() && Safe(s) && Orderly(s) && LiveOnTop(s) && IsRun(c, s, events)
    requires Along(c, s, events, RisingAbove()) && Along(c, s, events, SparingReleases())
    ensures Along(c, s, events, Respectful())
    decreases |events|
  {
    if events != [] {
      var e := events[0];
      OnTopSpares(s, e);
      StepSafe(c, s, e);
      StepOrderly(c, s, e);
      StepOnTop(c, s, e);
      RisingIsRespectful(c, Apply(c, s, e), events[1..]);
    }
  }

  /** So they never lower the frontier, however often the pipeline crashes, saves and resumes. */
  lemma RisingNeverFalls(c: Config, s: State, events: seq<Event>)
    requires c.Valid() && !s.up && Safe(s) && IsRun(c, s, events)
    requires Along(c, s, events, RisingAbove()) && Along(c, s, events, SparingReleases())
    ensures !Falls(c, RunFrom(c, s, events))
  {
    RisingIsRespectful(c, s, events);
    RunOrderly(c, s, events);
    OrderlyNeverFalls(c, RunFrom(c, s, events));
  }

  // ---------------------------------------------------------------- the first live slot in the backfill

  ghost predicate FallsBy(c: Config, s: State, o: Opening, events: seq<Event>) {
    && c.Valid() && IsRun(c, s, events) && Along(c, s, events, Opened(o, true))
    && Along(c, s, events, SparingReleases()) && Falls(c, RunFrom(c, s, events))
  }

  /** Live slots that rise from above the backfill are above everything. */
  lemma {:induction false} OpenedAbove(c: Config, s: State, events: seq<Event>, o: Opening)
    requires c.Valid() && IsRun(c, s, events) && Along(c, s, events, Opened(o, true)) && o.first > o.Edge(c)
    requires s.up ==> s.edge == o.Edge(c) && (s.lastSeen != NONE ==> s.lastSeen >= s.edge)
    ensures Along(c, s, events, RisingAbove())
    decreases |events|
  {
    if events != [] { OpenedAbove(c, Apply(c, s, events[0]), events[1..], o); }
  }

  /** A worker about to give back the upper part of its claim, which is all that is outstanding. */
  ghost predicate AboutToRelease(s: State, x: Slot, to: Slot) {
    && s.up && s.stage == Waiting && s.live == [] && s.lastSeen == NONE && (s.highest == NONE || s.highest < x)
    && s.floor <= x <= to < NONE
    && |s.workers| > 0 && s.workers[0] == Busy([Released(x, to)], x, to, false) && s.gaps == [Range(x, to, true)]
  }

  function SkippedThenReleased(from: Slot, x: Slot, to: Slot): seq<Action> {
    (if from < x then [Resolved(from, x - 1)] else []) + [Released(x, to)]
  }

  lemma OneErrorWork(rule: StopRule, o: Oracle, from: Slot, x: Slot, to: Slot)
    requires from <= x <= to < NONE && o == Oracle(Listed([x]), o.fetched, o.accepted, o.stopping)
    requires o.fetched(0) == Error && !o.stopping(0)
    ensures Work(rule, o, from, to) == SkippedThenReleased(from, x, to)
  {
    assert [x][0] == x;
  }

  /** A worker that has claimed the whole backfill. */
  ghost predicate JustClaimed(s: State, todo: seq<Action>, from: Slot, to: Slot) {
    && s.up && s.stage == Waiting && s.live == [] && s.recovered == [] && s.lastSeen == NONE
    && s.floor == from <= to < NONE && (s.highest == NONE || s.highest < from)
    && |s.workers| > 0 && s.workers[0] == Busy(todo, from, to, false) && s.gaps == [Range(from, to, true)]
  }

  lemma BackfillWithError(c: Config, s: State, o: Opening, x: Slot) returns (events: seq<Event>)
    requires c.Valid() && !s.up && o.saved == s.saved && |s.workers| > 0 && o.tip < NONE
    requires ResumeSlot(s.saved, c.startSlot) <= x <= o.Edge(c) < NONE
    ensures IsRun(c, s, events) && Along(c, s, events, Plainly(o))
    ensures var from, to := ResumeSlot(s.saved, c.startSlot), o.Edge(c);
            JustClaimed(RunFrom(c, s, events), SkippedThenReleased(from, x, to), from, to)
  {
    var from, to: Slot := ResumeSlot(s.saved, c.startSlot), o.Edge(c);
    var answers := Oracle(Listed([x]), _ => Error, _ => true, _ => false);
    OneErrorWork(c.rule, answers, from, x, to);
    hide Work();
    events := BackfillClaimed(c, s, o.tip, o.recover, answers, Plainly(o));
  }

  lemma SkippedResolved(c: Config, s: State, from: Slot, x: Slot, to: Slot, p: (State, Event) -> bool)
    returns (events: seq<Event>)
    requires c.Valid() && from <= x <= to < NONE && Lenient(p)
    requires JustClaimed(s, SkippedThenReleased(from, x, to), from, to)
    ensures IsRun(c, s, events) && Along(c, s, events, p) && AboutToRelease(RunFrom(c, s, events), x, to)
  {
    if from < x {
      assert SkippedThenReleased(from, x, to) == [Resolved(from, x - 1), Released(x, to)];
      ResolveAlone(Range(from, to, true), from, x - 1);
      RunOne(c, s, Act(0), p);
      events := [Act(0)];
    } else {
      assert SkippedThenReleased(from, x, to) == [Released(x, to)];
      events := [];
    }
  }

  /** Its slot arrives live and is committed; then it gives the rest of the claim back, that slot too. */
  lemma ReleasedAfterCommit(c: Config, s: State, x: Slot, to: Slot, p: (State, Event) -> bool)
    returns (events: seq<Event>)
    requires c.Valid() && AboutToRelease(s, x, to) && Receivable(c, s, x)
    requires Lenient(p) && p(s.(live := [x]), TakeLive) && forall t :: p(t, ResolveStored)
    ensures IsRun(c, s, events) && Along(c, s, events, p)
    ensures FrontierAbove(RunFrom(c, s, events), x, to, x) && RunFrom(c, s, events).floor == s.floor
  {
    var index := SlotIndexed(c, s, x, p);
    var u := RunFrom(c, s, index);
    ResolveAlone(Range(x, to, true), x, x);
    assert u.gaps == if x == to then [] else [Range(x + 1, to, true)];
    if x < to { ResolveAlone(Range(x + 1, to, true), x, to); } else { ResolveAlone(Range(x, to, true), x, to); }
    InsertAlone(x, to, c.maxRanges);
    RunOne(c, u, Act(0), p);
    RunConcat(c, s, index, [Act(0)], p);
    events := index + [Act(0)];
  }

  /** A slot is outstanding that the frontier has already passed. */
  ghost predicate FrontierAbove(s: State, lo: Slot, hi: Slot, seen: Slot) {
    && s.up && s.stage == Waiting && s.live == [] && s.gaps == [Range(lo, hi, false)] && lo <= hi < NONE
    && s.lastSeen == s.highest == seen && lo <= seen < NONE && lo <= Rank(s.lastIndexed)
  }

  ghost predicate AboutToFall(s: State, lo: Slot) {
    && s.up && s.stage.Handling? && s.gaps != [] && s.gaps[0].from == lo && s.gaps[0].Real() && s.stage.slot > lo
    && |s.gaps| == 1 && lo <= Rank(s.lastIndexed)
  }

  /** Whatever is committed above a slot that is outstanding below the frontier lowers it. */
  lemma CommitLowers(c: Config, s: State, lo: Slot, p: (State, Event) -> bool) returns (events: seq<Event>)
    requires c.Valid() && AboutToFall(s, lo) && Lenient(p) && p(StoreSlot(s), ResolveStored)
    ensures UpdateWatermark !in events
    ensures IsRun(c, s, events) && Along(c, s, events, p) && Falls(c, RunFrom(c, s, events))
  {
    var slot := s.stage.slot;
    var u := Apply(c, s, Handle(true));
    assert u == StoreSlot(s);
    RunOne(c, u, ResolveStored, p);
    RunCons(c, s, Handle(true), [ResolveStored], p);
    events := [Handle(true)] + [ResolveStored];
    ResolveAlone(s.gaps[0], slot, slot);
    assert s.gaps == [s.gaps[0]];
    assert RunFrom(c, s, events).gaps[0].from == lo;
  }

  /** A live slot is taken, and its commit lowers the frontier. */
  lemma ArrivalLowers(c: Config, s: State, lo: Slot, slot: Slot, p: (State, Event) -> bool) returns (events: seq<Event>)
    requires c.Valid() && s.up && s.stage == Waiting && s.live == [] && Receivable(c, s, slot)
    requires var u := TakeLiveSlot(c, s.(live := [slot]));
             AboutToFall(u, lo) && Lenient(p) && p(s.(live := [slot]), TakeLive) && p(StoreSlot(u), ResolveStored)
    ensures UpdateWatermark !in events
    ensures IsRun(c, s, events) && Along(c, s, events, p) && Falls(c, RunFrom(c, s, events))
  {
    var arrive := SlotArrives(c, s, slot, p);
    var fall := CommitLowers(c, TakeLiveSlot(c, s.(live := [slot])), lo, p);
    hide *;
    events := RunThen(c, s, arrive, fall, p);
  }

  /** The next live slot, committed, finds the frontier lower than it was. */
  lemma NextSlotLowers(c: Config, s: State, lo: Slot, hi: Slot, seen: Slot, p: (State, Event) -> bool)
    returns (events: seq<Event>)
    requires c.Valid() && FrontierAbove(s, lo, hi, seen) && seen < NONE - 1 && Receivable(c, s, seen + 1)
    requires Lenient(p) && p(s.(live := [seen + 1]), TakeLive) && forall t :: p(t, ResolveStored)
    ensures UpdateWatermark !in events
    ensures IsRun(c, s, events) && Along(c, s, events, p) && Falls(c, RunFrom(c, s, events))
  {
    events := ArrivalLowers(c, s, lo, seen + 1, p);
  }

  lemma BackfilledSlotFalls(c: Config, s: State, o: Opening) returns (events: seq<Event>)
    requires c.Valid() && !s.up && |s.workers| > 0 && o.saved == s.saved && o.tip < NONE
    requires ResumeSlot(s.saved, c.startSlot) <= o.first < NONE - 1 && (c.endSlot == 0 || o.first < c.endSlot)
    requires o.first <= o.Edge(c)
    ensures FallsBy(c, s, o, events)
  {
    var from, x, to: Slot := ResumeSlot(s.saved, c.startSlot), o.first, o.Edge(c);
    var p := Plainly(o);
    var claim := BackfillWithError(c, s, o, x);
    var t := RunFrom(c, s, claim);
    hide Along(), IsRun(), RunFrom(), Lenient(), EdgeOf();
    var skip := SkippedResolved(c, t, from, x, to, p);
    var u := RunFrom(c, t, skip);
    var release := ReleasedAfterCommit(c, u, x, to, p);
    var v := RunFrom(c, u, release);
    var fall := NextSlotLowers(c, v, x, to, x, p);
    RunConcat(c, u, release, fall, p);
    RunConcat(c, t, skip, release + fall, p);
    RunConcat(c, s, claim, skip + (release + fall), p);
    events := claim + (skip + (release + fall));
    PlainSpares(c, s, events, o);
  }

  lemma PlainSpares(c: Config, s: State, events: seq<Event>, o: Opening)
    requires c.Valid() && IsRun(c, s, events) && !s.up && Along(c, s, events, Plainly(o))
    ensures Along(c, s, events, Opened(o, true)) && Along(c, s, events, SparingReleases())
  {
    AlongBoth(c, s, events, Plainly(o), Plainly(o), Opened(o, true));
    AlongBoth(c, s, events, Plainly(o), Plainly(o), WholeReleases());
    WholeReleasesSpare(c, s, events);
  }

  /**
   Where live slots rise from the first one on, and the end slot is not reached with it, the frontier can
   fall exactly when that first one is not above the backfill: a fetcher may then give it back after it
   was committed.
   */
  lemma FrontierCanFallIff(c: Config, s: State, o: Opening)
    requires c.Valid() && !s.up && Safe(s) && |s.workers| > 0 && o.saved == s.saved && o.tip < NONE
    requires ResumeSlot(s.saved, c.startSlot) <= o.first < NONE && (c.endSlot == 0 || o.first < c.endSlot)
    ensures (exists events :: FallsBy(c, s, o, events)) <==> o.first <= o.Edge(c)
  {
    if o.first <= o.Edge(c) {
      var events := BackfilledSlotFalls(c, s, o);
    } else {
      forall events ensures !FallsBy(c, s, o, events) {
        if FallsBy(c, s, o, events) {
          OpenedAbove(c, s, events, o);
          RisingNeverFalls(c, s, events);
        }
      }
    }
  }

  // ---------------------------------------------------------------- no live slot inside a claim

  ghost function SparingClaims(): (State, Event) -> bool {
    (s: State, e: Event) => SparesClaims(s, e)
  }

  ghost function PlainlySparing(o: Opening): (State, Event) -> bool {
    (s: State, e: Event) => Opens(s, e, o) && Rises(s, e) && !e.HalfRelease? && SparesClaims(s, e)
  }

  ghost predicate SparingFallsBy(c: Config, s: State, o: Opening, events: seq<Event>) {
    FallsBy(c, s, o, events) && Along(c, s, events, SparingClaims())
  }

  function SkippedThenPublished(from: Slot, to: Slot): seq<Action> {
    (if from < to then [Resolved(from, to - 1)] else []) + [Published(to)]
  }

  lemma OneFoundWork(rule: StopRule, o: Oracle, from: Slot, to: Slot)
    requires from <= to < NONE && o == Oracle(Listed([to]), o.fetched, o.accepted, o.stopping)
    requires o.fetched(0) == Found && o.accepted(0) && !o.stopping(0)
    ensures Work(rule, o, from, to) == SkippedThenPublished(from, to)
  {
    assert [to][0] == to && WorkFrom(rule, o, [to], 1, to + 1, to) == [];
  }

  /** Nothing is outstanding, and the frontier is at the top of the backfill before any live slot. */
  ghost predicate CaughtUp(s: State, top: Slot) {
    && s.up && s.stage == Waiting && s.live == [] && s.gaps == [] && s.lastSeen == NONE
    && s.highest == s.lastIndexed == top < NONE && s.floor <= top
  }

  lemma TopFetched(c: Config, s: State, to: Slot, p: (State, Event) -> bool) returns (events: seq<Event>)
    requires c.Valid() && c.recoveredDepth > 0 && AtWork(s, [Published(to)], to, to) && s.floor <= to && Lenient(p)
    ensures IsRun(c, s, events) && Along(c, s, events, p)
    ensures CaughtUp(RunFrom(c, s, events), to) && RunFrom(c, s, events).floor == s.floor
  {
    var take := BlockReceived(c, s, [Published(to)], to, to, p);
    var commit := SlotCommits(c, Received(s, [Published(to)], to, to), p);
    RunConcat(c, s, take, commit, p);
    events := take + commit;
    ResolveAlone(Range(to, to, true), to, to);
  }

  lemma BackfillCaughtUp(c: Config, s: State, o: Opening) returns (events: seq<Event>)
    requires c.Valid() && c.recoveredDepth > 0 && !s.up && o.saved == s.saved && |s.workers| > 0 && o.tip < NONE
    requires ResumeSlot(s.saved, c.startSlot) <= o.Edge(c) < NONE
    ensures IsRun(c, s, events) && Along(c, s, events, PlainlySparing(o))
    ensures CaughtUp(RunFrom(c, s, events), o.Edge(c))
    ensures RunFrom(c, s, events).floor == ResumeSlot(s.saved, c.startSlot)
  {
    var from, to: Slot := ResumeSlot(s.saved, c.startSlot), o.Edge(c);
    var p := PlainlySparing(o);
    var answers := Oracle(Listed([to]), _ => Found, _ => true, _ => false);
    OneFoundWork(c.rule, answers, from, to);
    hide Work();
    var claim := BackfillClaimed(c, s, o.tip, o.recover, answers, p);
    var t := RunFrom(c, s, claim);
    events := FetchedToTheTop(c, t, from, to, p);
    RunConcat(c, s, claim, events, p);
    events := claim + events;
  }

  lemma FetchedToTheTop(c: Config, s: State, from: Slot, to: Slot, p: (State, Event) -> bool)
    returns (events: seq<Event>)
    requires c.Valid() && c.recoveredDepth > 0 && Lenient(p) && JustClaimed(s, SkippedThenPublished(from, to), from, to)
    ensures IsRun(c, s, events) && Along(c, s, events, p)
    ensures CaughtUp(RunFrom(c, s, events), to) && RunFrom(c, s, events).floor == s.floor
  {
    if from < to {
      var todo := SkippedThenPublished(from, to);
      assert todo == [Resolved(from, to - 1), Published(to)] && todo[1..] == [Published(to)];
      assert Tiles([Published(to)], to, to);
      var skip := ActResolved(c, s, todo, from, to, p);
      var top := TopFetched(c, RunFrom(c, s, skip), to, p);
      RunConcat(c, s, skip, top, p);
      events := skip + top;
    } else {
      assert SkippedThenPublished(from, to) == [Published(to)];
      events := TopFetched(c, s, to, p);
    }
  }

  /** A live slot below the frontier, and then one that leaves a hole above it. */
  lemma HoleBelowFrontierFalls(c: Config, s: State, o: Opening, top: Slot) returns (events: seq<Event>)
    requires c.Valid() && CaughtUp(s, top) && s.floor <= o.first < top
    requires o.first < NONE - 2 && (c.endSlot == 0 || o.first + 1 < c.endSlot)
    ensures IsRun(c, s, events) && Along(c, s, events, PlainlySparing(o)) && Falls(c, RunFrom(c, s, events))
  {
    var x, p := o.first, PlainlySparing(o);
    var index := LowSlotIndexed(c, s, o, top);
    var t := RunFrom(c, s, index);
    hide Along(), IsRun(), RunFrom(), Lenient(), CaughtUp();
    var fall := HoleAfterFalls(c, t, o, top);
    RunConcat(c, s, index, fall, p);
    events := index + fall;
  }

  ghost predicate BelowFrontier(s: State, x: Slot, top: Slot) {
    && s.up && s.stage == Waiting && s.live == [] && s.gaps == [] && s.lastSeen == x < top
    && s.lastIndexed == top < NONE && s.floor <= x
  }

  lemma LowSlotIndexed(c: Config, s: State, o: Opening, top: Slot) returns (events: seq<Event>)
    requires c.Valid() && CaughtUp(s, top) && s.floor <= o.first < top && (c.endSlot == 0 || o.first <= c.endSlot)
    ensures IsRun(c, s, events) && Along(c, s, events, PlainlySparing(o))
    ensures BelowFrontier(RunFrom(c, s, events), o.first, top)
  {
    ResolveAlone(Range(0, 0, false), o.first, o.first);
    events := SlotIndexed(c, s, o.first, PlainlySparing(o));
  }

  lemma HoleAfterFalls(c: Config, s: State, o: Opening, top: Slot) returns (events: seq<Event>)
    requires c.Valid() && BelowFrontier(s, o.first, top)
    requires o.first < NONE - 2 && (c.endSlot == 0 || o.first + 1 < c.endSlot)
    ensures IsRun(c, s, events) && Along(c, s, events, PlainlySparing(o)) && Falls(c, RunFrom(c, s, events))
  {
    var x := o.first;
    InsertAlone(x + 1, x + 1, c.maxRanges);
    HoldsOne(Range(x + 1, x + 1, false), true, x + 2);
    events := ArrivalLowers(c, s, x + 1, x + 2, PlainlySparing(o));
  }

  lemma SlotBelowTheTopFalls(c: Config, s: State, o: Opening) returns (events: seq<Event>)
    requires c.Valid() && c.recoveredDepth > 0 && !s.up && |s.workers| > 0 && o.saved == s.saved && o.tip < NONE
    requires ResumeSlot(s.saved, c.startSlot) <= o.first < NONE - 2 && (c.endSlot == 0 || o.first + 1 < c.endSlot)
    requires o.first < o.Edge(c)
    ensures SparingFallsBy(c, s, o, events)
  {
    var p := PlainlySparing(o);
    var begin := BackfillCaughtUp(c, s, o);
    var fall := HoleBelowFrontierFalls(c, RunFrom(c, s, begin), o, o.Edge(c));
    RunConcat(c, s, begin, fall, p);
    events := begin + fall;
    AlongBoth(c, s, events, p, p, SparingClaims());
    AlongBoth(c, s, events, p, p, Plainly(o));
    PlainSpares(c, s, events, o);
  }

  lemma {:induction false} OpenedAtTip(c: Config, s: State, events: seq<Event>, o: Opening)
    requires c.Valid() && IsRun(c, s, events) && Along(c, s, events, Opened(o, true)) && o.first >= o.Edge(c)
    requires Along(c, s, events, SparingClaims()) && Along(c, s, events, SparingReleases())
    requires s.up ==> s.edge == o.Edge(c)
    ensures Along(c, s, events, Respectful())
    decreases |events|
  {
    if events != [] { OpenedAtTip(c, Apply(c, s, events[0]), events[1..], o); }
  }

  /**
   Where besides no live slot is resolved inside a claim, it can fall exactly when the first live slot is
   below the last slot of the backfill: where `FirstLiveAtTip` fails.
   */
  lemma SparingCanFallIff(c: Config, s: State, o: Opening)
    requires c.Valid() && c.recoveredDepth > 0 && !s.up && Safe(s) && |s.workers| > 0
    requires o.saved == s.saved && o.tip < NONE
    requires ResumeSlot(s.saved, c.startSlot) <= o.first < NONE && (c.endSlot == 0 || o.first + 1 < c.endSlot)
    ensures (exists events :: SparingFallsBy(c, s, o, events)) <==> o.first < o.Edge(c)
  {
    if o.first < o.Edge(c) {
      var events := SlotBelowTheTopFalls(c, s, o);
    } else {
      forall events ensures !SparingFallsBy(c, s, o, events) {
        if SparingFallsBy(c, s, o, events) {
          OpenedAtTip(c, s, events, o);
          RunOrderly(c, s, events);
          OrderlyNeverFalls(c, RunFrom(c, s, events));
        }
      }
    }
  }

  // ---------------------------------------------------------------- a reading inside a release

  ghost function OpenedReturning(o: Opening): (State, Event) -> bool {
    (s: State, e: Event) => Opens(s, e, o) && Rises(s, e) && ReturnsClear(s, e)
  }

  ghost function OpenedSparing(o: Opening): (State, Event) -> bool {
    (s: State, e: Event) => Opens(s, e, o) && Rises(s, e) && SparesReleases(s, e)
  }

  /** Everything else in order, at most `n` readings were not clear of a release. */
  ghost predicate ReadingFallsBy(c: Config, s: State, o: Opening, n: nat, events: seq<Event>) {
    && c.Valid() && IsRun(c, s, events) && Along(c, s, events, OpenedReturning(o))
    && Breaches(c, s, events, ReadingsClear()) <= n && Falls(c, RunFrom(c, s, events))
  }

  /** The watermark is read in between, the range goes back, and the next slot lowers the frontier. */
  lemma ReadInBetween(c: Config, s: State, o: Opening, from: Slot, to: Slot) returns (events: seq<Event>)
    requires c.Valid() && HalfGivenBack(s, from, to)
    requires to < o.first < NONE - 1 && (c.endSlot == 0 || o.first < c.endSlot)
    ensures IsRun(c, s, events) && Along(c, s, events, OpenedReturning(o)) && Falls(c, RunFrom(c, s, events))
    ensures Breaches(c, s, events, ReadingsClear()) <= 1
  {
    var x, p := o.first, OpenedReturning(o);
    var begin := ReadThenReturned(c, s, o, from, to);
    var u := RunFrom(c, s, begin);
    assert u.lastSeen == x;
    hide Along(), IsRun(), RunFrom(), Lenient(), Falls(), HalfGivenBack();
    var fall := NextSlotLowers(c, u, from, to, x, p);
    RunConcat(c, s, begin, fall, p);
    events := begin + fall;
    ReadOnce(c, s, events, 4);
  }

  lemma ReadThenReturned(c: Config, s: State, o: Opening, from: Slot, to: Slot) returns (events: seq<Event>)
    requires c.Valid() && HalfGivenBack(s, from, to)
    requires to < o.first < NONE - 1 && (c.endSlot == 0 || o.first < c.endSlot)
    ensures events == [PublishLive(o.first), TakeLive, Handle(true), ResolveStored, UpdateWatermark, Act(0)]
    ensures IsRun(c, s, events) && Along(c, s, events, OpenedReturning(o))
    ensures FrontierAbove(RunFrom(c, s, events), from, to, o.first) && RunFrom(c, s, events).floor == from
  {
    var x, p := o.first, OpenedReturning(o);
    var index := SlotIndexed(c, s, x, p);
    var t := RunFrom(c, s, index);
    ResolveAlone(Range(from, to, false), x, x);
    assert t.gaps == [];
    InsertAlone(from, to, c.maxRanges);
    assert FrontierAbove(Apply(c, t, Act(0)), from, to, x);
    hide FrontierAbove(), HalfGivenBack();
    RunOne(c, t, Act(0), p);
    RunConcat(c, s, index, [Act(0)], p);
    events := index + [Act(0)];
  }

  lemma OneReadingFalls(c: Config, s: State, o: Opening) returns (events: seq<Event>)
    requires c.Valid() && !s.up && |s.workers| > 0 && o.saved == s.saved && o.tip < NONE
    requires ResumeSlot(s.saved, c.startSlot) <= o.Edge(c) < o.first < NONE - 1
    requires c.endSlot == 0 || o.first < c.endSlot
    ensures ReadingFallsBy(c, s, o, 1, events)
  {
    var p := OpenedReturning(o);
    var both := OpenedSparing(o);
    var half := HalfReleased(c, s, o.tip, o.recover, both);
    AlongBoth(c, s, half, both, both, p);
    AlongBoth(c, s, half, both, both, ReadingsClear());
    NoBreachIff(c, s, half, ReadingsClear());
    var fall := ReadInBetween(c, RunFrom(c, s, half), o, ResumeSlot(s.saved, c.startSlot), o.Edge(c));
    RunConcat(c, s, half, fall, p);
    BreachesConcat(c, s, half, fall, ReadingsClear());
    events := half + fall;
  }

  /**
   Where live slots rise from above the backfill, and what is taken out goes back clear of claims, the
   frontier can fall exactly when some reading is not clear of a range being released: one is enough.
   */
  lemma ReadingCanFallIff(c: Config, s: State, o: Opening, n: nat)
    requires c.Valid() && !s.up && Safe(s) && |s.workers| > 0 && o.saved == s.saved && o.tip < NONE
    requires ResumeSlot(s.saved, c.startSlot) <= o.Edge(c) < o.first < NONE - 1
    requires c.endSlot == 0 || o.first < c.endSlot
    ensures (exists events :: ReadingFallsBy(c, s, o, n, events)) <==> n > 0
  {
    var p := OpenedReturning(o);
    if n > 0 {
      var events := OneReadingFalls(c, s, o);
      assert ReadingFallsBy(c, s, o, n, events);
    } else {
      forall events ensures !ReadingFallsBy(c, s, o, n, events) {
        if ReadingFallsBy(c, s, o, n, events) {
          NoBreachIff(c, s, events, ReadingsClear());
          AlongBoth(c, s, events, p, p, Opened(o, true));
          AlongBoth(c, s, events, p, ReadingsClear(), SparingReleases());
          OpenedAbove(c, s, events, o);
          RisingNeverFalls(c, s, events);
        }
      }
    }
  }
}
