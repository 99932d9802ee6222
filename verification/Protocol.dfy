/**
 The pipeline as a step system: the receive thread, the processor, the fetchers and the cursor
 file, interleaved at their critical sections, with crashes and restarts (`src/pipeline.c`,
 `src/fetcher.c`, `src/slot_cursor.c`).

 Four ghost fields say what a run promises: `owed` holds the backfilled range and every slot from
 the first live one consumed to the last, `reported` the slots a fetcher gave up on, `unservable`
 those the endpoint had nothing for, and `forfeited` those a stop makes a fetcher give up unfetched.
 */
module Protocol {
  import opened Slots
  import opened Gaps
  import opened GapSafety
  import opened Fetchers
  import Rings

  datatype Config = Config(
    maxRanges: nat, liveDepth: nat, recoveredDepth: nat, startSlot: Slot, endSlot: Slot, rule: StopRule)
  {
    predicate Valid() { liveDepth > 0 && startSlot < NONE }
  }

  /** `half`: the range of the release at the head of `todo` is resolved, and not inserted yet. */
  datatype Worker = Idle | Busy(todo: seq<Action>, next: int, to: Slot, half: bool)

  /** Where the processor is in its handling of one entry. */
  datatype Stage =
    | Waiting
    | Handling(slot: Slot, live: bool)
    | Stored(slot: Slot, live: bool)
    | Resolving
    | Halted(slot: Slot)

  datatype State = State(
    // durable
    committed: iset<int>,
    saved: Slot,
    // what is promised, and what the endpoint answered
    owed: iset<int>,
    reported: iset<int>,
    unservable: iset<int>,
    forfeited: iset<int>,
    // one run
    up: bool,
    floor: Slot,
    edge: int, // the top of the backfill; one below the floor when there is none
    gaps: seq<Range>,
    firstSeen: Slot,
    lastSeen: Slot,
    lastIndexed: Slot,
    highest: Slot,
    live: seq<Slot>,
    recovered: seq<Slot>,
    stage: Stage,
    workers: seq<Worker>
  )

  datatype Event =
    | Start(tip: Slot, recover: bool)
    | PublishLive(slot: Slot)
    | TakeLive
    | TakeRecovered
    | Handle(ok: bool)
    | ResolveStored
    | UpdateWatermark
    | Save
    | ClaimWork(worker: nat, span: Slot, oracle: Oracle)
    | Act(worker: nat)
    | HalfRelease(worker: nat)
    | Crash

  // ---------------------------------------------------------------- steps

  function ResumeSlot(saved: Slot, startSlot: Slot): Slot {
    if saved != NONE then saved + 1 else startSlot
  }

  /** The last slot `queue_backfill` records, or one below `floor` when it records none. */
  function BackfillTop(floor: Slot, tip: Slot, endSlot: Slot): int {
    if floor == 0 || tip <= floor then floor - 1
    else
      var to := if endSlot != 0 && tip - 1 > endSlot then endSlot else tip - 1;
      if to < floor then floor - 1 else to
  }

  /** The top of a run's backfill; with none to recover, one below where it resumes. */
  function EdgeOf(c: Config, saved: Slot, tip: Slot, recover: bool): int {
    var floor := ResumeSlot(saved, c.startSlot);
    if recover then BackfillTop(floor, tip, c.endSlot) else floor - 1
  }

  predicate Within(lo: int, x: int, hi: int) { lo <= x <= hi }

  ghost function Span(lo: int, hi: int): iset<int> {
    iset x: int | Within(lo, x, hi)
  }

  ghost function StartRun(c: Config, s: State, tip: Slot, recover: bool): State {
    var floor, edge := ResumeSlot(s.saved, c.startSlot), EdgeOf(c, s.saved, tip, recover);
    s.(up := true, floor := floor, edge := edge,
       gaps := if floor <= edge then Add([], floor, edge, c.maxRanges) else [],
       owed := (iset x | x in s.owed && x <= Rank(s.saved)) + Span(floor, edge),
       firstSeen := NONE, lastSeen := NONE, lastIndexed := s.saved, highest := s.saved,
       live := [], recovered := [], stage := Waiting,
       workers := seq(|s.workers|, _ => Idle))
  }

  /** `observe_live_slot`: the distance from the last slot seen becomes a hole. */
  function ObserveGap(gaps: seq<Range>, lastSeen: Slot, slot: Slot, max: nat): seq<Range> {
    if lastSeen != NONE && slot > lastSeen + 1 then Add(gaps, lastSeen + 1, slot - 1, max) else gaps
  }

  function ObserveSeen(lastSeen: Slot, slot: Slot): Slot {
    if lastSeen == NONE || slot > lastSeen then slot else lastSeen
  }

  function RaiseHighest(highest: Slot, slot: Slot): Slot {
    if highest == NONE || slot > highest then slot else highest
  }

  ghost function TakeLiveSlot(c: Config, s: State): State
    requires s.live != []
  {
    var slot := s.live[0];
    s.(live := s.live[1..],
       gaps := ObserveGap(s.gaps, s.lastSeen, slot, c.maxRanges),
       owed := s.owed + (if s.lastSeen == NONE then iset{slot} else Span(s.lastSeen + 1, slot)),
       firstSeen := if s.lastSeen == NONE then slot else s.firstSeen,
       lastSeen := ObserveSeen(s.lastSeen, slot),
       stage := Handling(slot, true))
  }

  ghost function ClaimBy(s: State, w: nat, span: Slot, o: Oracle, rule: StopRule): State
    requires w < |s.workers| && Below(s.gaps, NONE)
  {
    var (gaps, granted) := Claim(s.gaps, span);
    if granted == Nothing then s
    else
      ClaimMeets(s.gaps, if span == 0 then 1 else span, NONE, 0);
      var Granted(from, to) := granted;
      s.(gaps := gaps,
         workers := s.workers[w := Busy(Work(rule, o, from, to), from, to, false)],
         unservable := s.unservable + (iset x: int | Within(from, x, to) && Unservable(o, from, to, x)),
         forfeited := s.forfeited + iset x: int | Within(from, x, to) && Forfeits(rule, o, from, to, x))
  }

  /** The worker once it is done with the head of its list. */
  function NextWork(worker: Worker): Worker
    requires worker.Busy? && worker.todo != []
  {
    if |worker.todo| == 1 then Idle else Busy(worker.todo[1..], worker.todo[0].End() + 1, worker.to, false)
  }

  /** Whole actions, and the second half of a release whose first half is done. */
  function ActOn(gaps: seq<Range>, a: Action, half: bool, max: nat): seq<Range> {
    if half then Insert(gaps, a.Start(), a.End(), max) else Perform(gaps, a, max)
  }

  ghost function ActBy(c: Config, s: State, w: nat): State
    requires w < |s.workers| && s.workers[w].Busy? && s.workers[w].todo != []
  {
    var a := s.workers[w].todo[0];
    s.(workers := s.workers[w := NextWork(s.workers[w])],
       gaps := ActOn(s.gaps, a, s.workers[w].half, c.maxRanges),
       recovered := s.recovered + if a.Published? then [a.slot] else [],
       reported := s.reported + if a.Resolved? then Span(a.from, a.to) else iset{})
  }

  /** The first half of a release: between it and the second anything may happen. */
  ghost function HalfReleaseBy(s: State, w: nat): State
    requires w < |s.workers| && s.workers[w].Busy? && s.workers[w].todo != [] && s.workers[w].todo[0].Released?
  {
    var a := s.workers[w].todo[0];
    s.(workers := s.workers[w := s.workers[w].(half := true)], gaps := Resolve(s.gaps, a.from, a.to))
  }

  /** When each step may happen. The ranges a claim reads are real in every run. */
  ghost predicate Enabled(c: Config, s: State, e: Event) {
    match e
    case Start(tip, _) => !s.up && tip < NONE
    case PublishLive(slot) =>
      s.up && slot < NONE && !(s.floor != 0 && slot < s.floor) && !(c.endSlot != 0 && slot > c.endSlot)
    case TakeLive => s.up && s.stage == Waiting && s.live != []
    case TakeRecovered => s.up && s.stage == Waiting && s.recovered != []
    case Handle(_) => s.up && s.stage.Handling?
    case ResolveStored => s.up && s.stage.Stored?
    case UpdateWatermark => s.up && s.stage == Resolving
    case Save => s.up && (s.stage == Waiting || s.stage.Halted?)
    case ClaimWork(w, _, _) => s.up && w < |s.workers| && s.workers[w] == Idle && Below(s.gaps, NONE)
    case Act(w) =>
      && s.up && w < |s.workers| && s.workers[w].Busy? && s.workers[w].todo != []
      && (s.workers[w].todo[0].Published? ==> |s.recovered| < c.recoveredDepth)
    case HalfRelease(w) =>
      && s.up && w < |s.workers| && s.workers[w].Busy?
      && s.workers[w].todo != [] && s.workers[w].todo[0].Released? && !s.workers[w].half
    case Crash => s.up
  }

  ghost function Apply(c: Config, s: State, e: Event): State
    requires c.Valid() && Enabled(c, s, e)
  {
    match e
    case Start(tip, recover) => StartRun(c, s, tip, recover)
    case PublishLive(slot) => s.(live := Rings.Push(s.live, c.liveDepth, slot))
    case TakeLive => TakeLiveSlot(c, s)
    case TakeRecovered => s.(recovered := s.recovered[1..], stage := Handling(s.recovered[0], false))
    case Handle(ok) =>
      if ok then
        s.(committed := s.committed + iset{s.stage.slot as int},
           highest := RaiseHighest(s.highest, s.stage.slot),
           stage := Stored(s.stage.slot, s.stage.live))
      else s.(stage := Halted(s.stage.slot))
    case ResolveStored => s.(gaps := Resolve(s.gaps, s.stage.slot, s.stage.slot), stage := Resolving)
    case UpdateWatermark => s.(lastIndexed := Watermark(s.gaps, s.highest), stage := Waiting)
    case Save => s.(saved := s.lastIndexed)
    case ClaimWork(w, span, o) => ClaimBy(s, w, span, o, c.rule)
    case Act(w) => ActBy(c, s, w)
    case HalfRelease(w) => HalfReleaseBy(s, w)
    case Crash => s.(up := false)
  }

  ghost predicate Initial(s: State) {
    && !s.up && s.saved == NONE
    && s.owed == iset{} && s.reported == iset{} && s.unservable == iset{} && s.forfeited == iset{}
  }

  // ---------------------------------------------------------------- the environment

  /** The highest slot the current run is responsible for so far. */
  function Horizon(s: State): int {
    if s.lastSeen != NONE && s.lastSeen > s.edge then s.lastSeen else s.edge
  }

  /** The one thing asked of the endpoint: `getBlocks` lists ascending slots. */
  ghost predicate Assumed(c: Config, s: State, e: Event) {
    Enabled(c, s, e) && (e.ClaimWork? && e.oracle.blocks.Listed? ==> Ascending(e.oracle.blocks.slots))
  }

  ghost predicate IsRun(c: Config, s: State, events: seq<Event>)
    requires c.Valid()
    decreases |events|
  {
    events == [] || (Assumed(c, s, events[0]) && IsRun(c, Apply(c, s, events[0]), events[1..]))
  }

  ghost function RunFrom(c: Config, s: State, events: seq<Event>): State
    requires c.Valid() && IsRun(c, s, events)
    decreases |events|
  {
    if events == [] then s else RunFrom(c, Apply(c, s, events[0]), events[1..])
  }
}
