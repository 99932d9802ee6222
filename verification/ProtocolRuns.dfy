/** Runs put together from pieces, and conditions on every step of one. */
module ProtocolRuns {
  import opened Slots
  import opened Gaps
  import opened GapSafety
  import opened Fetchers
  import opened Protocol

  /** The condition `p` holds at every step of the run. */
  ghost predicate Along(c: Config, s: State, events: seq<Event>, p: (State, Event) -> bool)
    requires c.Valid() && IsRun(c, s, events)
    decreases |events|
  {
    events != [] ==> p(s, events[0]) && Along(c, Apply(c, s, events[0]), events[1..], p)
  }

  lemma RunCons(c: Config, s: State, e: Event, rest: seq<Event>, p: (State, Event) -> bool)
    requires c.Valid() && Assumed(c, s, e) && IsRun(c, Apply(c, s, e), rest)
    ensures IsRun(c, s, [e] + rest) && RunFrom(c, s, [e] + rest) == RunFrom(c, Apply(c, s, e), rest)
    ensures p(s, e) && Along(c, Apply(c, s, e), rest, p) ==> Along(c, s, [e] + rest, p)
  {
    assert ([e] + rest)[1..] == rest;
  }

  lemma {:induction false} RunConcat(c: Config, s: State, a: seq<Event>, b: seq<Event>, p: (State, Event) -> bool)
    requires c.Valid() && IsRun(c, s, a) && IsRun(c, RunFrom(c, s, a), b)
    ensures IsRun(c, s, a + b) && RunFrom(c, s, a + b) == RunFrom(c, RunFrom(c, s, a), b)
    ensures Along(c, s, a, p) && Along(c, RunFrom(c, s, a), b, p) ==> Along(c, s, a + b, p)
    decreases |a|
  {
    if a == [] {
      assert a + b == b;
    } else {
      RunConcat(c, Apply(c, s, a[0]), a[1..], b, p);
      RunCons(c, s, a[0], a[1..] + b, p);
      assert a + b == [a[0]] + (a[1..] + b);
    }
  }

  /** One run after another, both along `p`. */
  lemma RunThen(c: Config, s: State, a: seq<Event>, b: seq<Event>, p: (State, Event) -> bool)
    returns (events: seq<Event>)
    requires c.Valid() && IsRun(c, s, a) && IsRun(c, RunFrom(c, s, a), b)
    requires Along(c, s, a, p) && Along(c, RunFrom(c, s, a), b, p)
    ensures events == a + b
    ensures IsRun(c, s, events) && RunFrom(c, s, events) == RunFrom(c, RunFrom(c, s, a), b) && Along(c, s, events, p)
  {
    RunConcat(c, s, a, b, p);
    events := a + b;
  }

  /** A run of one step. */
  lemma RunOne(c: Config, s: State, e: Event, p: (State, Event) -> bool)
    requires c.Valid() && Assumed(c, s, e)
    ensures IsRun(c, s, [e]) && RunFrom(c, s, [e]) == Apply(c, s, e)
    ensures p(s, e) ==> Along(c, s, [e], p)
  {
    RunCons(c, s, e, [], p);
    assert [e] + [] == [e];
  }

  /** Two conditions that together imply a third do so along a run. */
  lemma {:induction false} AlongBoth(
    c: Config, s: State, events: seq<Event>,
    p: (State, Event) -> bool, q: (State, Event) -> bool, r: (State, Event) -> bool)
    requires c.Valid() && IsRun(c, s, events) && Along(c, s, events, p) && Along(c, s, events, q)
    requires forall s', e :: p(s', e) && q(s', e) ==> r(s', e)
    ensures Along(c, s, events, r)
    decreases |events|
  {
    if events != [] { AlongBoth(c, Apply(c, s, events[0]), events[1..], p, q, r); }
  }

  /** The number of steps at which `p` fails. */
  ghost function Breaches(c: Config, s: State, events: seq<Event>, p: (State, Event) -> bool): nat
    requires c.Valid() && IsRun(c, s, events)
    decreases |events|
  {
    if events == [] then 0
    else (if p(s, events[0]) then 0 else 1) + Breaches(c, Apply(c, s, events[0]), events[1..], p)
  }

  lemma {:induction false} BreachesConcat(c: Config, s: State, a: seq<Event>, b: seq<Event>, p: (State, Event) -> bool)
    requires c.Valid() && IsRun(c, s, a) && IsRun(c, RunFrom(c, s, a), b) && IsRun(c, s, a + b)
    ensures Breaches(c, s, a + b, p) == Breaches(c, s, a, p) + Breaches(c, RunFrom(c, s, a), b, p)
    decreases |a|
  {
    if a == [] {
      assert a + b == b;
    } else {
      assert (a + b)[1..] == a[1..] + b && (a + b)[0] == a[0];
      BreachesConcat(c, Apply(c, s, a[0]), a[1..], b, p);
    }
  }

  lemma {:induction false} NoBreachIff(c: Config, s: State, events: seq<Event>, p: (State, Event) -> bool)
    requires c.Valid() && IsRun(c, s, events)
    ensures Breaches(c, s, events, p) == 0 <==> Along(c, s, events, p)
    decreases |events|
  {
    if events != [] { NoBreachIff(c, Apply(c, s, events[0]), events[1..], p); }
  }

  /** A condition on one kind of step is broken no more often than that step is taken. */
  lemma {:induction false} BreachesAtMost(c: Config, s: State, events: seq<Event>, p: (State, Event) -> bool, e: Event)
    requires c.Valid() && IsRun(c, s, events)
    requires forall s', e' :: e' != e ==> p(s', e')
    ensures Breaches(c, s, events, p) <= multiset(events)[e]
    decreases |events|
  {
    if events != [] {
      BreachesAtMost(c, Apply(c, s, events[0]), events[1..], p, e);
      assert events == [events[0]] + events[1..];
    }
  }

  // ---------------------------------------------------------------- an entry from end to end

  /** The condition is only about starts, claims, live slots taken or resolved, and releases in two halves. */
  ghost predicate Lenient(p: (State, Event) -> bool) {
    forall s: State, e: Event :: !Particular(s, e) ==> p(s, e)
  }

  predicate Particular(s: State, e: Event) {
    || e.Start? || e.TakeLive? || e.ClaimWork? || e.HalfRelease?
    || (e.ResolveStored? && s.stage.Stored? && s.stage.live)
    || (e.Act? && e.worker < |s.workers| && s.workers[e.worker].Busy? && s.workers[e.worker].half)
  }

  ghost function StoreSlot(s: State): State
    requires s.stage.Handling?
  {
    s.(committed := s.committed + iset{s.stage.slot as int}, highest := RaiseHighest(s.highest, s.stage.slot),
       stage := Stored(s.stage.slot, s.stage.live))
  }

  ghost function CommitSlot(s: State, slot: Slot): State {
    var gaps := Resolve(s.gaps, slot, slot);
    var highest := RaiseHighest(s.highest, slot);
    s.(committed := s.committed + iset{slot as int}, highest := highest, gaps := gaps,
       lastIndexed := Watermark(gaps, highest), stage := Waiting)
  }

  /** The processor commits the slot it is handling. */
  lemma SlotCommits(c: Config, s: State, p: (State, Event) -> bool) returns (events: seq<Event>)
    requires c.Valid() && s.up && s.stage.Handling?
    ensures events == [Handle(true), ResolveStored, UpdateWatermark]
    ensures IsRun(c, s, events) && RunFrom(c, s, events) == CommitSlot(s, s.stage.slot)
    ensures Lenient(p) && (s.stage.live ==> p(StoreSlot(s), ResolveStored)) ==> Along(c, s, events, p)
  {
    var s1 := Apply(c, s, Handle(true));
    assert s1 == StoreSlot(s);
    var s2 := Apply(c, s1, ResolveStored);
    RunOne(c, s2, UpdateWatermark, p);
    RunCons(c, s1, ResolveStored, [UpdateWatermark], p);
    RunCons(c, s, Handle(true), [ResolveStored] + [UpdateWatermark], p);
    events := [Handle(true)] + ([ResolveStored] + [UpdateWatermark]);
  }

  /** Live slots the receive thread lets through. */
  ghost predicate Receivable(c: Config, s: State, slot: Slot) {
    slot < NONE && !(s.floor != 0 && slot < s.floor) && !(c.endSlot != 0 && slot > c.endSlot)
  }

  /** A live slot arrives on an idle pipeline and reaches the processor. */
  lemma SlotArrives(c: Config, s: State, slot: Slot, p: (State, Event) -> bool) returns (events: seq<Event>)
    requires c.Valid() && s.up && s.stage == Waiting && s.live == [] && Receivable(c, s, slot)
    ensures events == [PublishLive(slot), TakeLive]
    ensures IsRun(c, s, events) && RunFrom(c, s, events) == TakeLiveSlot(c, s.(live := [slot]))
    ensures Lenient(p) && p(s.(live := [slot]), TakeLive) ==> Along(c, s, events, p)
  {
    var s1 := Apply(c, s, PublishLive(slot));
    assert s1 == s.(live := [slot]);
    RunOne(c, s1, TakeLive, p);
    RunCons(c, s, PublishLive(slot), [TakeLive], p);
    events := [PublishLive(slot)] + [TakeLive];
  }

  ghost function IndexSlot(c: Config, s: State, slot: Slot): State {
    CommitSlot(TakeLiveSlot(c, s.(live := [slot])), slot)
  }

  /** An idle pipeline takes a live slot all the way. */
  lemma SlotIndexed(c: Config, s: State, slot: Slot, p: (State, Event) -> bool) returns (events: seq<Event>)
    requires c.Valid() && s.up && s.stage == Waiting && s.live == [] && Receivable(c, s, slot)
    ensures events == [PublishLive(slot), TakeLive, Handle(true), ResolveStored, UpdateWatermark]
    ensures IsRun(c, s, events) && RunFrom(c, s, events) == IndexSlot(c, s, slot)
    ensures var t := s.(live := [slot]);
            Lenient(p) && p(t, TakeLive) && p(StoreSlot(TakeLiveSlot(c, t)), ResolveStored) ==> Along(c, s, events, p)
  {
    var arrive := SlotArrives(c, s, slot, p);
    var commit := SlotCommits(c, TakeLiveSlot(c, s.(live := [slot])), p);
    RunConcat(c, s, arrive, commit, p);
    events := arrive + commit;
  }

  // ---------------------------------------------------------------- runs by where they start

  /** How a run opens: what was saved, what the endpoint calls its tip, whether to backfill, the first live slot. */
  datatype Opening = Opening(saved: Slot, tip: Slot, recover: bool, first: Slot) {
    function Edge(c: Config): int { EdgeOf(c, saved, tip, recover) }
  }

  /** One opening, however often repeated before anything more is saved. */
  ghost predicate Opens(s: State, e: Event, o: Opening) {
    && (e.Start? ==> e == Start(o.tip, o.recover) && s.saved == o.saved)
    && (e.TakeLive? && s.live != [] && s.lastSeen == NONE ==> s.live[0] == o.first)
  }

  /** Live slots after the first only rise. */
  ghost predicate Rises(s: State, e: Event) {
    e.TakeLive? && s.live != [] && s.lastSeen != NONE ==> s.live[0] > s.lastSeen
  }

  ghost function Opened(o: Opening, rising: bool): (State, Event) -> bool {
    (s: State, e: Event) => Opens(s, e, o) && (rising ==> Rises(s, e))
  }

  /** A plain run: it opens so, its live slots rise, and nothing comes between the halves of a release. */
  ghost function Plainly(o: Opening): (State, Event) -> bool {
    (s: State, e: Event) => Opens(s, e, o) && Rises(s, e) && !e.HalfRelease?
  }

  /** With nothing outstanding, a first live slot is indexed and the cursor saved. */
  lemma FirstSlotSaved(c: Config, s: State, slot: Slot, p: (State, Event) -> bool) returns (events: seq<Event>)
    requires c.Valid() && s.up && s.stage == Waiting && s.live == [] && s.gaps == [] && s.lastSeen == NONE
    requires Receivable(c, s, slot) && (s.highest == NONE || s.highest < slot)
    ensures events == [PublishLive(slot), TakeLive, Handle(true), ResolveStored, UpdateWatermark, Save]
    ensures IsRun(c, s, events)
    ensures var t := RunFrom(c, s, events);
            && t.saved == slot && t.committed == s.committed + iset{slot as int} && t.owed == s.owed + iset{slot as int}
            && t.unservable == s.unservable && t.forfeited == s.forfeited && t.up && t.workers == s.workers
    ensures Lenient(p) && p(s.(live := [slot]), TakeLive) && (forall t :: p(t, ResolveStored)) ==>
              Along(c, s, events, p)
  {
    var index := SlotIndexed(c, s, slot, p);
    var t := RunFrom(c, s, index);
    assert t.lastIndexed == slot;
    RunOne(c, t, Save, p);
    RunConcat(c, s, index, [Save], p);
    events := index + [Save];
  }

  /** Without a configured start the first run backfills nothing; it saves slot 0, and the next one resumes above it. */
  lemma ZeroSaved(c: Config, s: State, p: (State, Event) -> bool) returns (events: seq<Event>)
    requires c.Valid() && !s.up && ResumeSlot(s.saved, c.startSlot) == 0
    ensures events == [Start(0, false), PublishLive(0), TakeLive,
                       Handle(true), ResolveStored, UpdateWatermark, Save, Crash]
    ensures IsRun(c, s, events)
    ensures var t := RunFrom(c, s, events);
            && !t.up && t.saved == 0 && t.committed == s.committed + iset{0} && |t.workers| == |s.workers|
            && t.unservable == s.unservable && t.forfeited == s.forfeited
    ensures Lenient(p) && p(s, Start(0, false)) && (forall t :: p(t, TakeLive) && p(t, ResolveStored)) ==>
              Along(c, s, events, p)
  {
    var u := StartRun(c, s, 0, false);
    var first := FirstSlotSaved(c, u, 0, p);
    RunCons(c, s, Start(0, false), first, p);
    var t := RunFrom(c, u, first);
    RunOne(c, t, Crash, p);
    RunConcat(c, s, [Start(0, false)] + first, [Crash], p);
    events := [Start(0, false)] + first + [Crash];
  }

  // ---------------------------------------------------------------- a gap set of one range

  lemma InsertAlone(from: Slot, to: Slot, max: nat)
    requires from <= to < NONE
    ensures Insert([], from, to, max) == [Range(from, to, false)]
  {
    var s := [Range(from, to, false)];
    assert Coalesce(s) == s;
    assert Coarsen(s, max) == s;
  }

  lemma ClaimAlone(from: Slot, to: Slot)
    requires from <= to < NONE
    ensures Claim([Range(from, to, false)], to - from + 1) == ([Range(from, to, true)], Granted(from, to))
  {
    var r := Range(from, to, false);
    assert [r][1..] == [] && Gaps.Span(r) == to - from + 1;
    assert ClaimRange(r, to - from + 1) == ([Range(from, to, true)], Granted(from, to));
    assert [Range(from, to, true)] + [] == [Range(from, to, true)];
  }

  lemma ResolveAlone(r: Range, from: Slot, to: Slot)
    requires from <= to
    ensures Resolve([r], from, to) == Cut(r, from, to)
    ensures Resolve([], from, to) == []
  {
    assert [r][1..] == [] && [r][0] == r && CutAll([], from, to) == [];
    assert Cut(r, from, to) + [] == Cut(r, from, to);
  }

  /** An idle worker claims all there is. */
  lemma RangeClaimed(c: Config, s: State, from: Slot, to: Slot, o: Oracle, p: (State, Event) -> bool)
    returns (events: seq<Event>)
    requires c.Valid() && s.up && |s.workers| > 0 && s.workers[0] == Idle
    requires from <= to < NONE && s.gaps == [Range(from, to, false)]
    requires o.blocks.Listed? ==> Ascending(o.blocks.slots)
    ensures events == [ClaimWork(0, to - from + 1, o)] && IsRun(c, s, events)
    ensures Claim(s.gaps, to - from + 1).1 == Granted(from, to)
    ensures var u := RunFrom(c, s, events);
            && u == s.(gaps := [Range(from, to, true)],
                       workers := s.workers[0 := Busy(Work(c.rule, o, from, to), from, to, false)],
                       unservable := u.unservable, forfeited := u.forfeited)
            && (forall x :: x in u.unservable <==> x in s.unservable || (from <= x <= to && Unservable(o, from, to, x)))
            && (forall x :: x in u.forfeited <==>
                              x in s.forfeited || (from <= x <= to && Forfeits(c.rule, o, from, to, x)))
    ensures p(s, events[0]) ==> Along(c, s, events, p)
  {
    ClaimAlone(from, to);
    events := [ClaimWork(0, to - from + 1, o)];
    RunOne(c, s, events[0], p);
  }

  /** A run starts with a backfill. */
  lemma BackfillQueued(c: Config, s: State, tip: Slot, recover: bool)
    requires c.Valid() && !s.up
    requires var t := StartRun(c, s, tip, recover); t.floor <= t.edge < NONE
    ensures var t := StartRun(c, s, tip, recover); t.gaps == [Range(t.floor, t.edge, false)]
  {
    var t := StartRun(c, s, tip, recover);
    InsertAlone(t.floor, t.edge, c.maxRanges);
  }

  /** And one worker claims all of it. */
  lemma BackfillClaimed(c: Config, s: State, tip: Slot, recover: bool, o: Oracle, p: (State, Event) -> bool)
    returns (events: seq<Event>)
    requires c.Valid() && !s.up && tip < NONE && |s.workers| > 0
    requires var t := StartRun(c, s, tip, recover); t.floor <= t.edge < NONE
    requires o.blocks.Listed? ==> Ascending(o.blocks.slots)
    ensures var t := StartRun(c, s, tip, recover);
            && events == [Start(tip, recover), ClaimWork(0, t.edge - t.floor + 1, o)] && IsRun(c, s, events)
            && Claim(t.gaps, t.edge - t.floor + 1).1 == Granted(t.floor, t.edge)
    ensures var t := StartRun(c, s, tip, recover);
            var u := RunFrom(c, s, events);
            && u == t.(gaps := [Range(t.floor, t.edge, true)],
                       workers := t.workers[0 := Busy(Work(c.rule, o, t.floor, t.edge), t.floor, t.edge, false)],
                       unservable := u.unservable, forfeited := u.forfeited)
            && (forall x :: x in u.unservable <==>
                              x in s.unservable || (t.floor <= x <= t.edge && Unservable(o, t.floor, t.edge, x)))
            && (forall x :: x in u.forfeited <==>
                              x in s.forfeited || (t.floor <= x <= t.edge && Forfeits(c.rule, o, t.floor, t.edge, x)))
            && (p(s, events[0]) && p(t, events[1]) ==> Along(c, s, events, p))
  {
    var t := StartRun(c, s, tip, recover);
    BackfillQueued(c, s, tip, recover);
    var claim := RangeClaimed(c, t, t.floor, t.edge, o, p);
    RunCons(c, s, Start(tip, recover), claim, p);
    events := [Start(tip, recover)] + claim;
  }
}
