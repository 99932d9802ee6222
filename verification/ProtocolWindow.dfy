/**
 What no run does, whatever its schedule: index past a configured end slot, or hold more in a ring than
 its depth.
 */
module ProtocolWindow {
  import opened Slots
  import opened Gaps
  import opened GapSafety
  import opened Fetchers
  import opened Protocol
  import opened ProtocolRuns
  import opened ProtocolSafety

  /** Every action is on real slots below `bound`. */
  ghost predicate WorkBelow(worker: Worker, bound: int) {
    worker.Busy? ==>
      && (forall a | a in worker.todo :: a.Start() <= a.End() < NONE && a.End() < bound)
      && (worker.half && worker.todo != [] ==> worker.todo[0].Released?)
  }

  /** Everything a run still has to do with is a real slot below `bound`. */
  ghost predicate AllBelow(s: State, bound: int) {
    && Below(s.gaps, bound)
    && (forall i | 0 <= i < |s.live| :: s.live[i] < NONE && s.live[i] < bound)
    && (forall i | 0 <= i < |s.recovered| :: s.recovered[i] < bound)
    && (forall w | 0 <= w < |s.workers| :: WorkBelow(s.workers[w], bound))
    && (!s.stage.Waiting? && !s.stage.Resolving? ==> s.stage.slot < bound)
  }

  ghost predicate RingsFit(c: Config, s: State) {
    |s.live| <= c.liveDepth && |s.recovered| <= c.recoveredDepth
  }

  /** The end slot bounds the running pipeline, and the depths its rings. */
  ghost predicate InWindow(c: Config, s: State) {
    s.up ==> RingsFit(c, s) && (c.endSlot != 0 ==> AllBelow(s, c.endSlot + 1))
  }

  lemma StartInWindow(c: Config, s: State, tip: Slot, recover: bool)
    requires c.Valid() && Enabled(c, s, Start(tip, recover))
    ensures InWindow(c, StartRun(c, s, tip, recover))
  {
    var t := StartRun(c, s, tip, recover);
    if c.endSlot != 0 && t.floor <= t.edge {
      InsertMeets([], t.floor, t.edge, c.maxRanges, c.endSlot + 1, 0);
    }
  }

  lemma TakeLiveBelow(c: Config, s: State, bound: int)
    requires c.Valid() && Enabled(c, s, TakeLive) && AllBelow(s, bound)
    ensures AllBelow(TakeLiveSlot(c, s), bound)
  {
    ObserveGapMeets(s.gaps, s.lastSeen, s.live[0], c.maxRanges, bound);
    hide Below(), ObserveGap();
  }

  lemma ClaimBelow(c: Config, s: State, w: nat, span: Slot, o: Oracle, bound: int)
    requires c.Valid() && Enabled(c, s, ClaimWork(w, span, o)) && AllBelow(s, bound)
    ensures AllBelow(ClaimBy(s, w, span, o, c.rule), bound)
  {
    ClaimGaps(s.gaps, span, bound);
    var g := Claim(s.gaps, span).1;
    if g.Granted? {
      WorkTiles(c.rule, o, g.from, g.to);
      TilesStartAt(Work(c.rule, o, g.from, g.to), g.from, g.to);
    }
    hide Below(), Claim(), Work();
  }

  lemma ActBelow(c: Config, s: State, w: nat, bound: int)
    requires c.Valid() && Enabled(c, s, Act(w)) && AllBelow(s, bound)
    ensures AllBelow(ActBy(c, s, w), bound)
  {
    var worker := s.workers[w];
    assert WorkBelow(worker, bound) && worker.todo[0] in worker.todo;
    ActGaps(s.gaps, worker.todo[0], worker.half, c.maxRanges, bound);
    assert forall a | a in worker.todo[1..] :: a in worker.todo;
    hide Below(), ActOn();
  }

  lemma HalfReleaseBelow(c: Config, s: State, w: nat, bound: int)
    requires c.Valid() && Enabled(c, s, HalfRelease(w)) && AllBelow(s, bound)
    ensures AllBelow(HalfReleaseBy(s, w), bound)
  {
    assert WorkBelow(s.workers[w], bound);
    ResolveMeets(s.gaps, s.workers[w].todo[0].from, s.workers[w].todo[0].to, bound, 0);
  }

  lemma StepInWindow(c: Config, s: State, e: Event)
    requires c.Valid() && Enabled(c, s, e) && InWindow(c, s)
    ensures InWindow(c, Apply(c, s, e))
  {
    var bound := c.endSlot + 1;
    if e.Start? {
      StartInWindow(c, s, e.tip, e.recover);
    } else if c.endSlot != 0 {
      match e
      case TakeLive => TakeLiveBelow(c, s, bound);
      case ResolveStored => ResolveMeets(s.gaps, s.stage.slot, s.stage.slot, bound, 0);
      case ClaimWork(w, span, o) => ClaimBelow(c, s, w, span, o, bound);
      case Act(w) => ActBelow(c, s, w, bound);
      case HalfRelease(w) => HalfReleaseBelow(c, s, w, bound);
      case PublishLive(_) =>
      case TakeRecovered =>
      case Handle(_) =>
      case UpdateWatermark =>
      case Save =>
      case Crash =>
    }
  }

  /**
   In every run, whatever fails, crashes or interleaves: nothing past the end slot is ever indexed, and no
   ring ever holds more than its depth.
   */
  lemma {:induction false} NothingPastTheEnd(c: Config, s: State, events: seq<Event>, x: int)
    requires c.Valid() && InWindow(c, s) && IsRun(c, s, events)
    ensures var t := RunFrom(c, s, events);
            && InWindow(c, t)
            && (c.endSlot != 0 && x in t.committed && x !in s.committed ==> x <= c.endSlot)
    decreases |events|
  {
    if events != [] {
      StepInWindow(c, s, events[0]);
      NothingPastTheEnd(c, Apply(c, s, events[0]), events[1..], x);
    }
  }
}
