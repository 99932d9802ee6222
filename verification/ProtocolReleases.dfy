/**
 Only coarsening can bring a claim onto a range that is between the halves of its release: while every
 insertion finds the gap set below its limit, what one worker has taken out is nobody else's.
 */
module ProtocolReleases {
  import opened Slots
  import opened Gaps
  import opened GapTheorems
  import opened GapSafety
  import opened Fetchers
  import opened Protocol
  import opened ProtocolRuns
  import opened ProtocolSafety
  import opened ProtocolFrontier

  // ---------------------------------------------------------------- insertions with room to spare

  lemma {:induction false} CoalesceShrinks(s: seq<Range>)
    ensures |Coalesce(s)| <= |s|
    decreases |s|
  {
    if |s| >= 2 {
      CoalesceShrinks(if Mergeable(s[0], s[1]) then [Merge(s[0], s[1])] + s[2..] else s[1..]);
    }
  }

  lemma {:induction false} InsertSortedLength(s: seq<Range>, r: Range)
    ensures |InsertSorted(s, r)| == |s| + 1
  {
    if s != [] && s[0].from < r.from { InsertSortedLength(s[1..], r); }
  }

  /** Below the limit an insertion adds its own slots and no others. */
  lemma InsertExact(s: seq<Range>, from: Slot, to: Slot, max: nat, x: int)
    requires WellFormed(s) && from <= to < NONE && |s| < max
    ensures Held(Insert(s, from, to, max), x) <==> Held(s, x) || from <= x <= to
  {
    var r := Range(from, to, false);
    InsertSortedLength(s, r);
    CoalesceShrinks(InsertSorted(s, r));
    InsertHolds(s, from, to, max, false, x);
    InsertHolds(s, from, to, max, true, x);
  }

  /** The set an action inserts into. */
  function BeforeInsert(gaps: seq<Range>, a: Action, half: bool): seq<Range> {
    if half || !a.Released? then gaps else Resolve(gaps, a.from, a.to)
  }

  lemma ActOnExact(s: seq<Range>, a: Action, half: bool, max: nat, x: int)
    requires WellFormed(s) && a.Start() <= a.End() < NONE && (half ==> a.Released?)
    requires a.Released? ==> |BeforeInsert(s, a, half)| < max
    ensures Held(ActOn(s, a, half, max), x) ==> Held(s, x) || (a.Released? && a.Covers(x))
  {
    if !half && !a.Published? {
      ResolveWellFormed(s, a.from, a.to);
      ResolveHolds(s, a.from, a.to, false, x);
      ResolveHolds(s, a.from, a.to, true, x);
    }
    if a.Released? { InsertExact(BeforeInsert(s, a, half), a.from, a.to, max, x); }
  }

  /** Every insertion finds fewer ranges than the limit. */
  ghost predicate Roomy(c: Config, s: State, e: Event) {
    && (e.TakeLive? ==> |s.gaps| < c.maxRanges)
    && (e.Act? && Enabled(c, s, e) ==>
          var worker := s.workers[e.worker];
          worker.todo[0].Released? ==> |BeforeInsert(s.gaps, worker.todo[0], worker.half)| < c.maxRanges)
  }

  // ---------------------------------------------------------------- what was taken out stays apart

  /** What a worker has taken out is outstanding nowhere, and no other worker has taken it out too. */
  ghost predicate Apart(workers: seq<Worker>, gaps: seq<Range>) {
    && (forall w, x | TakenOut(workers, w, x) :: !Held(gaps, x))
    && (forall v, w, x | TakenOut(workers, v, x) && TakenOut(workers, w, x) :: v == w)
  }

  lemma TakeLiveApart(c: Config, s: State)
    requires c.Valid() && Safe(s) && Orderly(s) && Apart(s.workers, s.gaps)
    requires Enabled(c, s, TakeLive) && Roomy(c, s, TakeLive)
    ensures Apart(s.workers, TakeLiveSlot(c, s).gaps)
  {
    var slot, seen := s.live[0], s.lastSeen;
    forall w, x | TakenOut(s.workers, w, x) ensures !Held(TakeLiveSlot(c, s).gaps, x) {
      assert WorkerOk(s.workers[w], Horizon(s), s.unservable + s.forfeited);
      if seen != NONE && slot > seen + 1 {
        assert x <= seen;
        InsertExact(s.gaps, seen + 1, slot - 1, c.maxRanges, x);
      }
    }
  }

  lemma ResolveApart(workers: seq<Worker>, gaps: seq<Range>, from: Slot, to: Slot)
    requires WellFormed(gaps) && Apart(workers, gaps)
    ensures Apart(workers, Resolve(gaps, from, to))
  {
    forall w, x | TakenOut(workers, w, x) ensures !Held(Resolve(gaps, from, to), x) {
      ResolveHolds(gaps, from, to, false, x);
      ResolveHolds(gaps, from, to, true, x);
    }
  }

  lemma ClaimKeepsHeld(gaps: seq<Range>, span: Slot, x: int)
    requires WellFormed(gaps)
    ensures Held(Claim(gaps, span).0, x) <==> Held(gaps, x)
  {
    ClaimHolds(gaps, if span == 0 then 1 else span, x);
  }

  lemma ClaimApart(c: Config, s: State, w: nat, span: Slot, o: Oracle)
    requires c.Valid() && Orderly(s) && Apart(s.workers, s.gaps) && Enabled(c, s, ClaimWork(w, span, o))
    ensures Apart(ClaimBy(s, w, span, o, c.rule).workers, ClaimBy(s, w, span, o, c.rule).gaps)
  {
    var t := ClaimBy(s, w, span, o, c.rule);
    forall v, x | TakenOut(t.workers, v, x) ensures TakenOut(s.workers, v, x) && !Held(t.gaps, x) {
      assert TakenOut(s.workers, v, x);
      ClaimKeepsHeld(s.gaps, span, x);
      assert t.gaps == s.gaps || t.gaps == Claim(s.gaps, span).0;
    }
  }

  lemma ActApart(c: Config, s: State, w: nat)
    requires c.Valid() && Safe(s) && Orderly(s) && Apart(s.workers, s.gaps)
    requires Enabled(c, s, Act(w)) && Roomy(c, s, Act(w))
    ensures Apart(ActBy(c, s, w).workers, ActBy(c, s, w).gaps)
  {
    var t, worker := ActBy(c, s, w), s.workers[w];
    forall v, x | TakenOut(t.workers, v, x) ensures TakenOut(s.workers, v, x) && !Held(t.gaps, x) {
      assert v != w && TakenOut(s.workers, v, x);
      ActSpares(c, s, w, v, x);
      ActOnExact(s.gaps, worker.todo[0], worker.half, c.maxRanges, x);
    }
  }

  /** What a worker acts on is its own, or what it has taken out itself. */
  lemma ActSpares(c: Config, s: State, w: nat, v: int, x: int)
    requires c.Valid() && Safe(s) && Orderly(s) && Apart(s.workers, s.gaps) && Enabled(c, s, Act(w))
    requires v != w && TakenOut(s.workers, v, x)
    ensures var a := s.workers[w].todo[0];
            a.Start() <= a.End() < NONE && (s.workers[w].half ==> a.Released?) && !a.Covers(x) && !Held(s.gaps, x)
  {
    assert WorkerOk(s.workers[w], Horizon(s), s.unservable + s.forfeited);
    if s.workers[w].todo[0].Covers(x) {
      assert if s.workers[w].half then TakenOut(s.workers, w, x) else Owns(s.workers, w, x);
    }
  }

  lemma HalfReleaseApart(c: Config, s: State, w: nat)
    requires c.Valid() && Safe(s) && Orderly(s) && Apart(s.workers, s.gaps) && Enabled(c, s, HalfRelease(w))
    ensures Apart(HalfReleaseBy(s, w).workers, HalfReleaseBy(s, w).gaps)
  {
    var t, a := HalfReleaseBy(s, w), s.workers[w].todo[0];
    assert WorkerOk(s.workers[w], Horizon(s), s.unservable + s.forfeited);
    forall v, x | TakenOut(t.workers, v, x)
      ensures !Held(t.gaps, x) && if v == w then a.Covers(x) && Held(s.gaps, x) else TakenOut(s.workers, v, x)
    {
      ResolveHolds(s.gaps, a.from, a.to, false, x);
      ResolveHolds(s.gaps, a.from, a.to, true, x);
      if v == w {
        assert Owns(s.workers, w, x);
      } else {
        assert TakenOut(s.workers, v, x);
      }
    }
  }

  lemma StepApart(c: Config, s: State, e: Event)
    requires c.Valid() && Safe(s) && Orderly(s) && Enabled(c, s, e) && Roomy(c, s, e)
    requires s.up ==> Apart(s.workers, s.gaps)
    ensures var t := Apply(c, s, e); t.up ==> Apart(t.workers, t.gaps)
  {
    match e
    case TakeLive => TakeLiveApart(c, s);
    case ResolveStored => ResolveApart(s.workers, s.gaps, s.stage.slot, s.stage.slot);
    case ClaimWork(w, span, o) => ClaimApart(c, s, w, span, o);
    case Act(w) => ActApart(c, s, w);
    case HalfRelease(w) => HalfReleaseApart(c, s, w);
    case Start(_, _) =>
    case PublishLive(_) =>
    case TakeRecovered =>
    case Handle(_) =>
    case UpdateWatermark =>
    case Save =>
    case Crash =>
  }

  lemma ApartReturnsClear(c: Config, s: State, e: Event)
    requires c.Valid() && Safe(s) && Orderly(s) && Enabled(c, s, e) && (s.up ==> Apart(s.workers, s.gaps))
    ensures ReturnsClear(s, e)
  {
    if e.Act? && s.workers[e.worker].half {
      var a := s.workers[e.worker].todo[0];
      assert WorkerOk(s.workers[e.worker], Horizon(s), s.unservable + s.forfeited);
      forall r | r in s.gaps && r.claimed ensures r.Misses(a.Start(), a.End()) {
        var x := if r.from < a.Start() then a.Start() else r.from;
        if !r.Misses(a.Start(), a.End()) {
          assert TakenOut(s.workers, e.worker, x) && r.Has(x);
        }
      }
    }
  }

  /** Putting a range back keeps the ranges sorted and disjoint exactly when it is clear of every claim. */
  lemma ReturnKeepsShapeIff(c: Config, s: State, w: nat)
    requires c.Valid() && Safe(s) && Orderly(s) && Enabled(c, s, Act(w)) && s.workers[w].half
    ensures WellFormed(ActBy(c, s, w).gaps) <==> ReturnsClear(s, Act(w))
  {
    var a := s.workers[w].todo[0];
    assert WorkerOk(s.workers[w], Horizon(s), s.unservable + s.forfeited);
    AddWellFormedIff(s.gaps, a.Start(), a.End(), c.maxRanges);
  }

  // ---------------------------------------------------------------- every run

  ghost function RoomyAndRespectful(c: Config): (State, Event) -> bool {
    (s: State, e: Event) => FirstLiveAtTip(s, e) && SparesClaims(s, e) && ReadsClear(s, e) && Roomy(c, s, e)
  }

  /** With room for every insertion, what was taken out always goes back clear of every claim. */
  lemma {:induction false} RoomyReturnsClear(c: Config, s: State, events: seq<Event>)
    requires c.Valid() && Safe(s) && Orderly(s) && (s.up ==> Apart(s.workers, s.gaps)) && IsRun(c, s, events)
    requires Along(c, s, events, RoomyAndRespectful(c))
    ensures Along(c, s, events, Respectful())
    decreases |events|
  {
    if events != [] {
      var e := events[0];
      ApartReturnsClear(c, s, e);
      StepSafe(c, s, e);
      StepOrderly(c, s, e);
      StepApart(c, s, e);
      RoomyReturnsClear(c, Apply(c, s, e), events[1..]);
    }
  }
}
