/**
 When a slot is lost: exactly when a run's first live slot leaves a hole above its backfill, when a stop
 reaches a fetcher before a block of its claim, or when a watermark is read at or above a range that is
 between the halves of its release. Runs begin at any safe moment the pipeline is down.
 */
module ProtocolLosses {
  import opened Slots
  import opened Gaps
  import opened GapSafety
  import opened Fetchers
  import opened Protocol
  import opened ProtocolRuns
  import opened ProtocolSafety

  // ---------------------------------------------------------------- a hole above the backfill

  lemma {:induction false} OpeningJoins(
    c: Config, s: State, events: seq<Event>, o: Opening, rising: bool, base: nat)
    requires c.Valid() && IsRun(c, s, events) && Along(c, s, events, Opened(o, rising))
    requires ResumeSlot(o.saved, c.startSlot) <= base && (o.first <= base || o.first <= o.Edge(c) + 1)
    requires s.up ==> s.edge == o.Edge(c)
    ensures Along(c, s, events, Joining(c, base))
    decreases |events|
  {
    if events != [] {
      OpeningJoins(c, Apply(c, s, events[0]), events[1..], o, rising, base);
    }
  }

  ghost function Gone(): Oracle {
    Oracle(NotRetained, _ => Found, _ => true, _ => false)
  }

  /** A run with nothing to recover, or whose one worker finds its backfill no longer retained. */
  ghost predicate Drained(c: Config, s: State, u: State, edge: int) {
    && u.up && u.stage == Waiting && u.live == [] && u.gaps == [] && u.lastSeen == NONE && u.highest == s.saved
    && u.floor == ResumeSlot(s.saved, c.startSlot) && u.edge == edge && u.committed == s.committed
    && (forall x | x in u.unservable || x in u.forfeited :: x in s.unservable || x in s.forfeited || x <= edge)
  }

  lemma BackfillDrained(c: Config, s: State, tip: Slot, recover: bool, p: (State, Event) -> bool)
    returns (events: seq<Event>)
    requires c.Valid() && !s.up && |s.workers| > 0 && tip < NONE
    requires var t := StartRun(c, s, tip, recover); t.floor <= t.edge < NONE
    ensures IsRun(c, s, events) && Drained(c, s, RunFrom(c, s, events), EdgeOf(c, s.saved, tip, recover))
    ensures Lenient(p) && p(s, Start(tip, recover)) && (forall t, w, span, o :: p(t, ClaimWork(w, span, o))) ==>
              Along(c, s, events, p)
  {
    var t := StartRun(c, s, tip, recover);
    var claim := BackfillClaimed(c, s, tip, recover, Gone(), p);
    var v := RunFrom(c, s, claim);
    ResolveAlone(Range(t.floor, t.edge, true), t.floor, t.edge);
    assert Apply(c, v, Act(0)).gaps == [];
    RunOne(c, v, Act(0), p);
    RunConcat(c, s, claim, [Act(0)], p);
    events := claim + [Act(0)];
  }

  lemma NothingToDrain(c: Config, s: State, tip: Slot, recover: bool, p: (State, Event) -> bool)
    returns (events: seq<Event>)
    requires c.Valid() && !s.up && tip < NONE
    requires var t := StartRun(c, s, tip, recover); t.floor > t.edge
    ensures IsRun(c, s, events) && Drained(c, s, RunFrom(c, s, events), EdgeOf(c, s.saved, tip, recover))
    ensures p(s, Start(tip, recover)) ==> Along(c, s, events, p)
  {
    RunOne(c, s, Start(tip, recover), p);
    events := [Start(tip, recover)];
  }

  ghost predicate MissesBy(c: Config, s: State, o: Opening, rising: bool, base: nat, events: seq<Event>, x: int) {
    && c.Valid() && IsRun(c, s, events) && Along(c, s, events, Opened(o, rising))
    && Along(c, s, events, ReadingsClear()) && Missed(c, RunFrom(c, s, events), base, x)
  }

  lemma BackfillOver(c: Config, s: State, o: Opening) returns (events: seq<Event>)
    requires c.Valid() && !s.up && |s.workers| > 0 && o.saved == s.saved && o.tip < NONE
    ensures IsRun(c, s, events) && Along(c, s, events, Plainly(o)) && Drained(c, s, RunFrom(c, s, events), o.Edge(c))
  {
    var t := StartRun(c, s, o.tip, o.recover);
    assert t.edge < NONE;
    hide StartRun(), RunFrom(), IsRun(), Along(), Drained();
    if t.floor <= t.edge {
      events := BackfillDrained(c, s, o.tip, o.recover, Plainly(o));
    } else {
      events := NothingToDrain(c, s, o.tip, o.recover, Plainly(o));
    }
  }

  lemma DrainedMisses(c: Config, s: State, u: State, t: State, o: Opening, base: nat)
    requires Drained(c, s, u, o.Edge(c)) && Unspent(s, base) && base < o.first < NONE && o.first > o.Edge(c) + 1
    requires t.saved == o.first && t.committed == u.committed + iset{o.first as int}
    requires t.unservable == u.unservable && t.forfeited == u.forfeited
    ensures Missed(c, t, base, if base <= o.Edge(c) then o.Edge(c) + 1 else base)
  {
  }

  /** The slot above such a backfill is never recorded, once the first live slot is a later one. */
  lemma HoleIsMissed(c: Config, s: State, o: Opening, rising: bool, base: nat) returns (events: seq<Event>)
    requires c.Valid() && !s.up && |s.workers| > 0 && o.saved == s.saved && o.tip < NONE
    requires ResumeSlot(s.saved, c.startSlot) <= base && Unspent(s, base)
    requires base < o.first < NONE && (c.endSlot == 0 || o.first <= c.endSlot) && o.first > o.Edge(c) + 1
    ensures MissesBy(c, s, o, rising, base, events, if base <= o.Edge(c) then o.Edge(c) + 1 else base)
  {
    var p := Plainly(o);
    var begin := BackfillOver(c, s, o);
    var u := RunFrom(c, s, begin);
    hide StartRun(), RunFrom(), IsRun(), Along(), EdgeOf(), Unspent(), Missed();
    var index := FirstSlotSaved(c, u, o.first, p);
    DrainedMisses(c, s, u, RunFrom(c, u, index), o, base);
    RunConcat(c, s, begin, index, p);
    events := begin + index;
    PlainIsClear(c, s, events, o, rising);
  }

  /** Joined on, no run misses anything. */
  lemma JoinedMissesNothing(c: Config, s: State, o: Opening, rising: bool, base: nat, events: seq<Event>, x: int)
    requires c.Valid() && !s.up && Safe(s) && o.saved == s.saved && ResumeSlot(s.saved, c.startSlot) <= base
    requires o.first <= base || o.first <= o.Edge(c) + 1
    ensures !MissesBy(c, s, o, rising, base, events, x)
  {
    if MissesBy(c, s, o, rising, base, events, x) {
      OpeningJoins(c, s, events, o, rising, base);
      RunSeamless(c, s, events, base);
      SeamlessMissesNothing(c, RunFrom(c, s, events), base, x);
    }
  }

  /**
   Some run misses a slot at or above `base` exactly when its first live slot is above `base` and leaves
   a hole above the backfill; whether it is the first run or a resumed one, and whether later live slots
   rise, makes no difference.
   */
  lemma OneRunCanMissIff(c: Config, s: State, o: Opening, rising: bool, base: nat)
    requires c.Valid() && !s.up && Safe(s) && |s.workers| > 0 && o.saved == s.saved && o.tip < NONE
    requires ResumeSlot(s.saved, c.startSlot) <= base && Unspent(s, base)
    requires o.first < NONE && (c.endSlot == 0 || o.first <= c.endSlot)
    ensures (exists events, x :: MissesBy(c, s, o, rising, base, events, x))
       <==> o.first > base && o.first > o.Edge(c) + 1
  {
    if o.first > base && o.first > o.Edge(c) + 1 {
      var events := HoleIsMissed(c, s, o, rising, base);
    } else {
      forall events, x ensures !MissesBy(c, s, o, rising, base, events, x) {
        JoinedMissesNothing(c, s, o, rising, base, events, x);
      }
    }
  }

  // ---------------------------------------------------------------- a stop before a block

  /** No claim but this one is stopped early. */
  ghost predicate StopsHere(s: State, e: Event, o: Oracle, from: Slot, to: Slot) {
    e.ClaimWork? ==>
      var g := Claim(s.gaps, e.span).1;
      g.Granted? && StoppedEarly(e.oracle, g.from, g.to) ==> e.oracle == o && g == Granted(from, to)
  }

  ghost function StopsOnly(o: Oracle, from: Slot, to: Slot): (State, Event) -> bool {
    (s: State, e: Event) => StopsHere(s, e, o, from, to)
  }

  ghost function PlainlyStopping(o: Oracle, from: Slot, to: Slot): (State, Event) -> bool {
    (s: State, e: Event) => StopsHere(s, e, o, from, to) && !e.HalfRelease?
  }

  /** Where this claim is not stopped early either, nothing more is forfeited. */
  lemma {:induction false} NothingForfeited(c: Config, s: State, events: seq<Event>, o: Oracle, from: Slot, to: Slot)
    requires c.Valid() && IsRun(c, s, events) && Along(c, s, events, StopsOnly(o, from, to))
    requires from <= to < NONE && !StoppedEarly(o, from, to)
    ensures RunFrom(c, s, events).forfeited == s.forfeited
    decreases |events|
  {
    if events != [] {
      var e := events[0];
      if e.ClaimWork? { ClaimForfeits(c, s, e.worker, e.span, e.oracle); }
      NothingForfeited(c, Apply(c, s, e), events[1..], o, from, to);
    }
  }

  /** A claim adds to what is forfeited exactly when it is stopped early. */
  lemma ClaimForfeits(c: Config, s: State, w: nat, span: Slot, o: Oracle)
    requires c.Valid() && Assumed(c, s, ClaimWork(w, span, o))
    ensures var g := Claim(s.gaps, span).1;
            g.Granted? ==>
              && g.from <= g.to < NONE
              && (!StoppedEarly(o, g.from, g.to) ==> ClaimBy(s, w, span, o, c.rule).forfeited == s.forfeited)
              && (StoppedEarly(o, g.from, g.to) && c.rule == AsCoded ==>
                    exists x :: x in ClaimBy(s, w, span, o, c.rule).forfeited && g.from <= x <= g.to
                                && Forfeits(AsCoded, o, g.from, g.to, x))
    ensures !Claim(s.gaps, span).1.Granted? ==> ClaimBy(s, w, span, o, c.rule) == s
  {
    ClaimGaps(s.gaps, span, NONE);
    var g := Claim(s.gaps, span).1;
    if g.Granted? {
      ForfeitsIff(o, g.from, g.to);
      if StoppedEarly(o, g.from, g.to) {
        var x :| Forfeits(AsCoded, o, g.from, g.to, x);
        WorkTiles(AsCoded, o, g.from, g.to);
        TilesStartAt(Work(AsCoded, o, g.from, g.to), g.from, g.to);
        assert Within(g.from, x, g.to);
      } else {
        assert c.rule == AsCoded || c.rule == AsDocumented;
        forall x ensures !Forfeits(c.rule, o, g.from, g.to, x) {
          assert !Forfeits(AsCoded, o, g.from, g.to, x) && !Forfeits(AsDocumented, o, g.from, g.to, x);
        }
        assert ClaimBy(s, w, span, o, c.rule).forfeited == s.forfeited;
      }
    }
  }

  /** So with no claim stopped early nothing is ever lost but what already was forfeited. */
  lemma NoEarlyStopNoLoss(c: Config, s: State, events: seq<Event>, o: Oracle, from: Slot, to: Slot, x: int)
    requires c.Valid() && Safe(s) && IsRun(c, s, events) && Along(c, s, events, ReadingsClear())
    requires from <= to < NONE && !StoppedEarly(o, from, to) && Along(c, s, events, StopsOnly(o, from, to))
    ensures Lost(c, RunFrom(c, s, events), x) ==> x in s.forfeited
  {
    NothingForfeited(c, s, events, o, from, to);
    RunSafe(c, s, events);
  }

  /** The worker has nothing to give back, and its claim is all there is to do. */
  ghost predicate AtWork(s: State, todo: seq<Action>, next: Slot, to: Slot) {
    && s.up && s.stage == Waiting && s.live == [] && s.recovered == [] && s.lastSeen == NONE
    && |s.workers| > 0 && s.workers[0] == Busy(todo, next, to, false) && s.gaps == [Range(next, to, true)]
    && todo != [] && Tiles(todo, next, to) && to < NONE && (forall a | a in todo :: !a.Released?)
    && (s.highest == NONE || s.highest <= to)
  }

  /** What such work leaves alone. */
  ghost predicate Undisturbed(s: State, t: State, to: Slot) {
    && t.up && t.stage == Waiting && t.live == [] && t.recovered == [] && t.lastSeen == NONE
    && t.floor == s.floor && t.edge == s.edge && t.owed == s.owed && t.saved == s.saved
    && t.unservable == s.unservable && t.forfeited == s.forfeited && (t.highest == NONE || t.highest <= to)
  }

  lemma ActResolved(c: Config, s: State, todo: seq<Action>, next: Slot, to: Slot, p: (State, Event) -> bool)
    returns (events: seq<Event>)
    requires c.Valid() && AtWork(s, todo, next, to) && todo[0].Resolved?
    ensures IsRun(c, s, events) && (Lenient(p) ==> Along(c, s, events, p))
    ensures var t := RunFrom(c, s, events);
            && Undisturbed(s, t, to) && t.committed == s.committed
            && if todo[0].to == to then t.gaps == [] && |todo| == 1 else AtWork(t, todo[1..], todo[0].to + 1, to)
  {
    var a := todo[0];
    ResolveAlone(Range(next, to, true), a.from, a.to);
    assert Tiles(todo[1..], a.End() + 1, to);
    RunOne(c, s, Act(0), p);
    events := [Act(0)];
    assert forall b | b in todo[1..] :: b in todo;
  }

  /** The block is handed on, and the processor takes it. */
  ghost function Received(s: State, todo: seq<Action>, next: Slot, to: Slot): State
    requires AtWork(s, todo, next, to)
  {
    s.(stage := Handling(next, false),
       workers := s.workers[0 := NextWork(s.workers[0])])
  }

  lemma BlockReceived(c: Config, s: State, todo: seq<Action>, next: Slot, to: Slot, p: (State, Event) -> bool)
    returns (events: seq<Event>)
    requires c.Valid() && c.recoveredDepth > 0 && AtWork(s, todo, next, to) && todo[0].Published?
    ensures IsRun(c, s, events) && (Lenient(p) ==> Along(c, s, events, p))
    ensures RunFrom(c, s, events) == Received(s, todo, next, to)
  {
    var s1 := Apply(c, s, Act(0));
    assert s1.recovered == [next];
    RunOne(c, s1, TakeRecovered, p);
    RunCons(c, s, Act(0), [TakeRecovered], p);
    events := [Act(0)] + [TakeRecovered];
  }

  lemma ActPublished(c: Config, s: State, todo: seq<Action>, next: Slot, to: Slot, p: (State, Event) -> bool)
    returns (events: seq<Event>)
    requires c.Valid() && c.recoveredDepth > 0 && AtWork(s, todo, next, to) && todo[0].Published?
    ensures IsRun(c, s, events) && (Lenient(p) ==> Along(c, s, events, p))
    ensures var t := RunFrom(c, s, events);
            && Undisturbed(s, t, to) && t.committed == s.committed + iset{next as int}
            && if next == to then t.gaps == [] && |todo| == 1 else AtWork(t, todo[1..], next + 1, to)
  {
    var take := BlockReceived(c, s, todo, next, to, p);
    var u := Received(s, todo, next, to);
    var commit := SlotCommits(c, u, p);
    RunConcat(c, s, take, commit, p);
    events := take + commit;
    hide Along(), IsRun(), RunFrom();
    ResolveAlone(Range(next, to, true), next, next);
    assert Tiles(todo[1..], next + 1, to);
    assert forall b | b in todo[1..] :: b in todo;
  }

  lemma HeadWorked(c: Config, s: State, todo: seq<Action>, next: Slot, to: Slot, p: (State, Event) -> bool)
    returns (events: seq<Event>)
    requires c.Valid() && c.recoveredDepth > 0 && AtWork(s, todo, next, to)
    ensures IsRun(c, s, events) && (Lenient(p) ==> Along(c, s, events, p))
    ensures var t, a := RunFrom(c, s, events), todo[0];
            && Undisturbed(s, t, to) && next <= a.End() <= to
            && t.committed == s.committed + (if a.Published? then iset{a.slot as int} else iset{})
            && if a.End() == to then t.gaps == [] && |todo| == 1 else AtWork(t, todo[1..], a.End() + 1, to)
  {
    assert todo[0] in todo;
    if todo[0].Resolved? {
      events := ActResolved(c, s, todo, next, to, p);
    } else {
      events := ActPublished(c, s, todo, next, to, p);
    }
  }

  /** All of the claim worked, and what was fetched committed. */
  lemma {:induction false} ClaimWorked(
    c: Config, s: State, todo: seq<Action>, next: Slot, to: Slot, p: (State, Event) -> bool)
    returns (events: seq<Event>)
    requires c.Valid() && c.recoveredDepth > 0 && AtWork(s, todo, next, to)
    ensures IsRun(c, s, events) && (Lenient(p) ==> Along(c, s, events, p))
    ensures var t := RunFrom(c, s, events);
            && Undisturbed(s, t, to) && t.gaps == []
            && forall x :: x in t.committed <==> x in s.committed || HandedOn(todo, x)
    decreases |todo|
  {
    var a := todo[0];
    var head := HeadWorked(c, s, todo, next, to, p);
    var u := RunFrom(c, s, head);
    assert todo == [a] + todo[1..];
    assert forall x :: HandedOn(todo, x) <==> (a.Published? && a.slot == x) || HandedOn(todo[1..], x);
    if a.End() == to {
      events := head;
    } else {
      var rest := ClaimWorked(c, u, todo[1..], a.End() + 1, to, p);
      RunConcat(c, s, head, rest, p);
      events := head + rest;
    }
  }

  ghost predicate LosesBy(c: Config, s: State, o: Oracle, from: Slot, to: Slot, events: seq<Event>, x: int) {
    && c.Valid() && IsRun(c, s, events) && Along(c, s, events, StopsOnly(o, from, to))
    && Along(c, s, events, ReadingsClear()) && Lost(c, RunFrom(c, s, events), x) && x !in s.forfeited
  }

  /** A slot given up was not handed on. */
  lemma GivenUpIsNotHandedOn(actions: seq<Action>, from: int, to: int, x: int)
    requires Tiles(actions, from, to) && GivenUp(actions, x)
    ensures from <= x <= to && !HandedOn(actions, x)
  {
    TilesStartAt(actions, from, to);
    var k := EachSlotOnce(actions, from, to, x);
  }

  lemma WorkedAndSaved(c: Config, s: State, todo: seq<Action>, from: Slot, to: Slot, p: (State, Event) -> bool)
    returns (events: seq<Event>)
    requires c.Valid() && c.recoveredDepth > 0 && (c.endSlot == 0 || to < c.endSlot) && to < NONE - 1
    requires AtWork(s, todo, from, to) && s.floor <= to
    ensures IsRun(c, s, events)
    ensures Lenient(p) && (forall t :: p(t, TakeLive) && p(t, ResolveStored)) ==> Along(c, s, events, p)
    ensures var t := RunFrom(c, s, events);
            && t.saved == to + 1 && t.owed >= s.owed && t.unservable == s.unservable
            && forall x :: x in t.committed <==> x in s.committed || HandedOn(todo, x) || x == to as int + 1
  {
    var work := ClaimWorked(c, s, todo, from, to, p);
    var index := FirstSlotSaved(c, RunFrom(c, s, work), to + 1, p);
    hide Along(), IsRun();
    RunConcat(c, s, work, index, p);
    events := work + index;
  }

  lemma SkipGaps(floor: Slot, from: Slot, to: Slot)
    requires floor < from <= to < NONE
    ensures var rest := Range(from, to, false);
            var split := [Range(floor, from - 1, true), rest];
            && Claim([Range(floor, to, false)], from - floor) == (split, Granted(floor, from - 1))
            && Resolve(split, floor, from - 1) == [rest]
  {
    var r, rest := Range(floor, to, false), Range(from, to, false);
    var split := [Range(floor, from - 1, true), rest];
    assert ClaimRange(r, from - floor) == (split, Granted(floor, from - 1));
    assert [r][1..] == [] && split + [] == split;
    ResolveAlone(rest, floor, from - 1);
    assert split[1..] == [rest] && [] + [rest] == [rest];
  }

  lemma LowerPartClaimed(c: Config, s: State, floor: Slot, from: Slot, to: Slot)
    requires c.Valid() && s.up && |s.workers| > 0 && s.workers[0] == Idle
    requires floor < from <= to < NONE && s.gaps == [Range(floor, to, false)]
    ensures var e := ClaimWork(0, from - floor, Gone());
            && Assumed(c, s, e)
            && var t := Apply(c, s, e);
            && t == s.(gaps := [Range(floor, from - 1, true), Range(from, to, false)],
                       workers := s.workers[0 := Busy([Resolved(floor, from - 1)], floor, from - 1, false)],
                       unservable := t.unservable, forfeited := t.forfeited)
            && (forall x :: x in t.unservable <==> x in s.unservable || floor <= x < from)
            && (forall x :: x in t.forfeited <==> x in s.forfeited)
  {
    SkipGaps(floor, from, to);
    hide Claim();
  }

  /** The lower part of a backfill is claimed, and turns out to be no longer retained. */
  lemma LowerPartSkipped(c: Config, s: State, floor: Slot, from: Slot, to: Slot, p: (State, Event) -> bool)
    returns (events: seq<Event>)
    requires c.Valid() && s.up && |s.workers| > 0 && s.workers[0] == Idle
    requires floor < from <= to < NONE && s.gaps == [Range(floor, to, false)]
    requires Lenient(p) && forall e: Event | e.ClaimWork? && e.oracle.blocks == NotRetained :: p(s, e)
    ensures IsRun(c, s, events) && Along(c, s, events, p)
    ensures var u := RunFrom(c, s, events);
            && u == s.(gaps := [Range(from, to, false)],
                       unservable := u.unservable, forfeited := u.forfeited, reported := u.reported)
            && (forall x :: x in u.unservable <==> x in s.unservable || floor <= x < from)
            && (forall x :: x in u.forfeited <==> x in s.forfeited)
  {
    var e := ClaimWork(0, from - floor, Gone());
    LowerPartClaimed(c, s, floor, from, to);
    var t := Apply(c, s, e);
    SkipGaps(floor, from, to);
    hide Claim(), Resolve();
    assert s.workers[0 := t.workers[0]][0 := Idle] == s.workers;
    assert Apply(c, t, Act(0)).gaps == [Range(from, to, false)];
    hide Apply();
    RunOne(c, t, Act(0), p);
    RunCons(c, s, e, [Act(0)], p);
    events := [e] + [Act(0)];
  }

  /** A backfill of which everything below `from` is dealt with, and nothing of the rest claimed yet. */
  lemma UpperPartLeft(c: Config, s: State, from: Slot, to: Slot, p: (State, Event) -> bool) returns (events: seq<Event>)
    requires c.Valid() && !s.up && |s.workers| > 0 && from <= to < NONE - 1 && (c.endSlot == 0 || to < c.endSlot)
    requires 0 < ResumeSlot(s.saved, c.startSlot) <= from
    requires Lenient(p) && p(s, Start(to + 1, true))
    requires forall t, e: Event | e.ClaimWork? && e.oracle.blocks == NotRetained :: p(t, e)
    ensures IsRun(c, s, events) && Along(c, s, events, p)
    ensures var t, u := StartRun(c, s, to + 1, true), RunFrom(c, s, events);
            && u == t.(gaps := [Range(from, to, false)],
                       unservable := u.unservable, forfeited := u.forfeited, reported := u.reported)
            && (forall x :: x in u.unservable <==> x in s.unservable || t.floor <= x < from)
            && (forall x :: x in u.forfeited <==> x in s.forfeited)
  {
    var t := StartRun(c, s, to + 1, true);
    BackfillQueued(c, s, to + 1, true);
    RunOne(c, s, Start(to + 1, true), p);
    events := [Start(to + 1, true)];
    if t.floor < from {
      var skip := LowerPartSkipped(c, t, t.floor, from, to, p);
      hide *;
      events := RunThen(c, s, events, skip, p);
    }
  }

  lemma StoppedClaim(c: Config, s: State, o: Oracle, from: Slot, to: Slot) returns (events: seq<Event>)
    requires c.Valid() && c.rule == AsCoded && !s.up && |s.workers| > 0 && Unspent(s, from)
    requires from <= to < NONE - 1 && (c.endSlot == 0 || to < c.endSlot) && 0 < ResumeSlot(s.saved, c.startSlot) <= from
    requires StoppedEarly(o, from, to) && Ascending(o.blocks.slots)
    ensures IsRun(c, s, events) && Along(c, s, events, PlainlyStopping(o, from, to))
    ensures var u := RunFrom(c, s, events);
            && AtWork(u, Work(AsCoded, o, from, to), from, to) && u.floor <= from
            && (forall x | x >= from :: x !in u.committed)
            && forall x | from <= x <= to :: x in u.owed && (x in u.unservable <==> Unservable(o, from, to, x))
  {
    var p := PlainlyStopping(o, from, to);
    WorkTiles(AsCoded, o, from, to);
    StoppedWorkerKeepsAll(o, from, to);
    var begin := UpperPartLeft(c, s, from, to, p);
    var t := RunFrom(c, s, begin);
    hide Work(), IsRun();
    var claim := RangeClaimed(c, t, from, to, o, p);
    RunConcat(c, s, begin, claim, p);
    events := begin + claim;
    var u := RunFrom(c, s, events);
    assert u.workers[0] == Busy(Work(AsCoded, o, from, to), from, to, false);
    assert forall x | from <= x <= to :: Within(u.floor, x, to);
  }

  /** The claim of a whole backfill, or of its upper part, stopped early, in an otherwise ordinary run. */
  lemma StoppedClaimLoses(c: Config, s: State, o: Oracle, from: Slot, to: Slot) returns (events: seq<Event>, x: int)
    requires c.Valid() && c.rule == AsCoded && c.recoveredDepth > 0 && !s.up && |s.workers| > 0 && Unspent(s, from)
    requires from <= to < NONE - 1 && (c.endSlot == 0 || to < c.endSlot) && 0 < ResumeSlot(s.saved, c.startSlot) <= from
    requires StoppedEarly(o, from, to) && Ascending(o.blocks.slots)
    ensures IsRun(c, s, events) && Along(c, s, events, PlainlyStopping(o, from, to))
    ensures Lost(c, RunFrom(c, s, events), x) && x >= from
  {
    var p := PlainlyStopping(o, from, to);
    var claim := StoppedClaim(c, s, o, from, to);
    ForfeitsIff(o, from, to);
    x :| Forfeits(AsCoded, o, from, to, x);
    GivenUpIsNotHandedOn(Work(AsCoded, o, from, to), from, to, x);
    hide Work(), Along(), IsRun(), RunFrom(), StoppedEarly();
    var rest := WorkedAndSaved(c, RunFrom(c, s, claim), Work(AsCoded, o, from, to), from, to, p);
    RunConcat(c, s, claim, rest, p);
    events := claim + rest;
  }

  /** And so in a run that has nothing to resume from, once it has saved slot 0. */
  lemma EarlyStopLoses(c: Config, s: State, o: Oracle, from: Slot, to: Slot) returns (events: seq<Event>, x: int)
    requires c.Valid() && c.rule == AsCoded && c.recoveredDepth > 0 && !s.up && |s.workers| > 0 && Unspent(s, from)
    requires 0 < from <= to < NONE - 1 && (c.endSlot == 0 || to < c.endSlot) && ResumeSlot(s.saved, c.startSlot) <= from
    requires StoppedEarly(o, from, to) && Ascending(o.blocks.slots)
    ensures LosesBy(c, s, o, from, to, events, x)
  {
    var p := PlainlyStopping(o, from, to);
    if ResumeSlot(s.saved, c.startSlot) == 0 {
      var zero := ZeroSaved(c, s, p);
      var rest, y := StoppedClaimLoses(c, RunFrom(c, s, zero), o, from, to);
      RunConcat(c, s, zero, rest, p);
      events, x := zero + rest, y;
    } else {
      events, x := StoppedClaimLoses(c, s, o, from, to);
    }
    AlongBoth(c, s, events, p, p, StopsOnly(o, from, to));
    AlongBoth(c, s, events, p, p, WholeReleases());
    WholeReleasesAreClear(c, s, events);
  }

  /**
   A claim can lose a slot below the resume point exactly when it is stopped early: if it is, a run with
   no other such claim loses one, and if it is not, none does.
   */
  lemma ClaimCanLoseIff(c: Config, s: State, o: Oracle, from: Slot, to: Slot)
    requires c.Valid() && c.rule == AsCoded && c.recoveredDepth > 0
    requires !s.up && Safe(s) && |s.workers| > 0 && Unspent(s, from)
    requires 0 < from <= to < NONE - 1 && (c.endSlot == 0 || to < c.endSlot) && ResumeSlot(s.saved, c.startSlot) <= from
    requires o.blocks.Listed? ==> Ascending(o.blocks.slots)
    ensures (exists events, x :: LosesBy(c, s, o, from, to, events, x)) <==> StoppedEarly(o, from, to)
  {
    if StoppedEarly(o, from, to) {
      var events, x := EarlyStopLoses(c, s, o, from, to);
    } else {
      forall events, x ensures !LosesBy(c, s, o, from, to, events, x) {
        if LosesBy(c, s, o, from, to, events, x) {
          NoEarlyStopNoLoss(c, s, events, o, from, to, x);
        }
      }
    }
  }

  // ---------------------------------------------------------------- a reading inside a release

  /** After the crash a slot is lost that no stop gave up; at most `n` readings were not clear. */
  ghost predicate CrashLosesBy(c: Config, s: State, n: nat, events: seq<Event>, x: int) {
    && c.Valid() && IsRun(c, s, events) && Breaches(c, s, events, ReadingsClear()) <= n
    && var t := RunFrom(c, s, events); !t.up && Lost(c, t, x) && x !in t.forfeited
  }

  /** The one worker has claimed the backfill, and half released it: the gap set is empty. */
  ghost predicate HalfGivenBack(s: State, from: Slot, to: Slot) {
    && s.up && s.stage == Waiting && s.live == [] && s.gaps == [] && s.lastSeen == NONE
    && s.floor == from <= to < NONE && s.edge == to && (s.highest == NONE || s.highest < from)
    && |s.workers| > 0 && s.workers[0] == Busy([Released(from, to)], from, to, true)
  }

  lemma HalfReleased(c: Config, s: State, tip: Slot, recover: bool, p: (State, Event) -> bool)
    returns (events: seq<Event>)
    requires c.Valid() && !s.up && |s.workers| > 0 && tip < NONE
    requires ResumeSlot(s.saved, c.startSlot) <= EdgeOf(c, s.saved, tip, recover) < NONE
    ensures IsRun(c, s, events)
    ensures var u := RunFrom(c, s, events);
            && HalfGivenBack(u, ResumeSlot(s.saved, c.startSlot), EdgeOf(c, s.saved, tip, recover))
            && (forall x | u.floor <= x <= u.edge :: x in u.owed) && u.committed == s.committed
            && u.unservable == s.unservable && u.forfeited == s.forfeited
    ensures p(s, Start(tip, recover)) && (forall t, e: Event | e.ClaimWork? || e.HalfRelease? :: p(t, e)) ==>
              Along(c, s, events, p)
  {
    var t := StartRun(c, s, tip, recover);
    var o := Oracle(Failed, _ => Found, _ => true, _ => false);
    var claim := BackfillClaimed(c, s, tip, recover, o, p);
    var u := RunFrom(c, s, claim);
    assert u.workers[0] == Busy([Released(t.floor, t.edge)], t.floor, t.edge, false);
    ResolveAlone(Range(t.floor, t.edge, true), t.floor, t.edge);
    RunOne(c, u, HalfRelease(0), p);
    RunConcat(c, s, claim, [HalfRelease(0)], p);
    events := claim + [HalfRelease(0)];
    assert forall x :: !GivenUp([Released(t.floor, t.edge)], x);
    assert forall x | t.floor <= x <= t.edge :: Within(t.floor, x, t.edge);
  }

  /** Then one reading above it is saved; and the crash. */
  lemma SavedAndCrashed(c: Config, s: State, x: Slot) returns (events: seq<Event>)
    requires c.Valid() && x < NONE - 1 && (c.endSlot == 0 || x < c.endSlot) && HalfGivenBack(s, x, x)
    requires x as int in s.owed && Unspent(s, x)
    ensures IsRun(c, s, events) && Breaches(c, s, events, ReadingsClear()) <= 1
    ensures var t := RunFrom(c, s, events); !t.up && Lost(c, t, x) && x as int !in t.forfeited
  {
    var p := ReadingsClear();
    var index := FirstSlotSaved(c, s, x + 1, p);
    var t := RunFrom(c, s, index);
    assert t.up && Lost(c, t, x) && x as int !in t.forfeited;
    ReadOnce(c, s, index, 4);
    events := CrashAdded(c, s, index);
  }

  lemma CrashAdded(c: Config, s: State, before: seq<Event>) returns (events: seq<Event>)
    requires c.Valid() && IsRun(c, s, before) && RunFrom(c, s, before).up
    ensures IsRun(c, s, events) && RunFrom(c, s, events) == RunFrom(c, s, before).(up := false)
    ensures Breaches(c, s, events, ReadingsClear()) == Breaches(c, s, before, ReadingsClear())
  {
    var p, t := ReadingsClear(), RunFrom(c, s, before);
    RunOne(c, t, Crash, p);
    NoBreachIff(c, t, [Crash], p);
    RunConcat(c, s, before, [Crash], p);
    BreachesConcat(c, s, before, [Crash], p);
    events := before + [Crash];
  }

  lemma ReadOnce(c: Config, s: State, events: seq<Event>, k: nat)
    requires c.Valid() && IsRun(c, s, events) && k < |events|
    requires forall i | 0 <= i < |events| && i != k :: events[i] != UpdateWatermark
    ensures Breaches(c, s, events, ReadingsClear()) <= 1
  {
    hide IsRun(), Breaches();
    BreachesAtMost(c, s, events, ReadingsClear(), UpdateWatermark);
    assert events == events[..k] + [events[k]] + events[k + 1..];
    assert UpdateWatermark !in multiset(events[..k]) && UpdateWatermark !in multiset(events[k + 1..]);
  }

  /** A single reading at or above the range a worker is releasing, saved before the crash, loses a slot for good. */
  lemma OneReadingLoses(c: Config, s: State) returns (events: seq<Event>, x: int)
    requires c.Valid() && !s.up && |s.workers| > 0
    requires var f := ResumeSlot(s.saved, c.startSlot);
             0 < f < NONE - 1 && (c.endSlot == 0 || f < c.endSlot) && Unspent(s, f)
    ensures CrashLosesBy(c, s, 1, events, x)
  {
    var f := ResumeSlot(s.saved, c.startSlot);
    x := f;
    var p := ReadingsClear();
    var half := HalfReleased(c, s, f + 1, true, p);
    var crash := SavedAndCrashed(c, RunFrom(c, s, half), f);
    hide HalfGivenBack();
    RunConcat(c, s, half, crash, p);
    NoBreachIff(c, s, half, p);
    BreachesConcat(c, s, half, crash, p);
    events := half + crash;
  }

  /** And so in a run that has nothing to resume from, once it has saved slot 0. */
  lemma SplitReleaseLoses(c: Config, s: State) returns (events: seq<Event>, x: int)
    requires c.Valid() && !s.up && |s.workers| > 0
    requires var f := ResumeSlot(s.saved, c.startSlot);
             var g := if f == 0 then 1 else f;
             g < NONE - 1 && (c.endSlot == 0 || g < c.endSlot) && Unspent(s, f)
    ensures CrashLosesBy(c, s, 1, events, x)
  {
    if ResumeSlot(s.saved, c.startSlot) == 0 {
      var p := ReadingsClear();
      var zero := ZeroSaved(c, s, WholeReleases());
      WholeReleasesAreClear(c, s, zero);
      var rest, y := OneReadingLoses(c, RunFrom(c, s, zero));
      RunConcat(c, s, zero, rest, p);
      NoBreachIff(c, s, zero, p);
      BreachesConcat(c, s, zero, rest, p);
      events, x := zero + rest, y;
    } else {
      events, x := OneReadingLoses(c, s);
    }
  }

  /**
   Apart from early stops, a crash can lose a slot exactly when some reading is not clear of the ranges
   being released: with none no run does, and one is enough.
   */
  lemma CrashCanLoseIff(c: Config, s: State, n: nat)
    requires c.Valid() && !s.up && Safe(s) && |s.workers| > 0
    requires var f := ResumeSlot(s.saved, c.startSlot);
             var g := if f == 0 then 1 else f;
             g < NONE - 1 && (c.endSlot == 0 || g < c.endSlot) && Unspent(s, f)
    ensures (exists events, x :: CrashLosesBy(c, s, n, events, x)) <==> n > 0
  {
    if n == 0 {
      forall events, x ensures !CrashLosesBy(c, s, n, events, x) {
        if CrashLosesBy(c, s, n, events, x) {
          NoBreachIff(c, s, events, ReadingsClear());
          RunSafe(c, s, events);
        }
      }
    } else {
      var events, x := SplitReleaseLoses(c, s);
      assert CrashLosesBy(c, s, n, events, x);
    }
  }
}
