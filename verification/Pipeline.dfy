/**
 The processing thread of `src/pipeline.c` and the cursor it owns (`src/slot_cursor.c`), as code.
 Each method computes the step of the same name in `Protocol`.
 */
module Pipeline {
  import opened Slots
  import opened Gaps
  import opened GapSets
  import opened Rings
  import opened Protocol
  import opened ProtocolRuns
  import opened Options

  class SlotCursor {
    var lastIndexed: Slot
    var lastSeen: Slot
    const startSlot: Slot

    constructor (startSlot: Slot, lastIndexed: Slot)
      ensures this.startSlot == startSlot && this.lastIndexed == lastIndexed && lastSeen == NONE
    {
      this.startSlot, this.lastIndexed, lastSeen := startSlot, lastIndexed, NONE;
    }

    /** `idx_slot_cursor_set_indexed`: assigned, also downwards. */
    method SetIndexed(slot: Slot)
      modifies this`lastIndexed
      ensures lastIndexed == slot
    {
      lastIndexed := slot;
    }

    /** `idx_slot_cursor_observe`: only ever rises. */
    method Observe(slot: Slot)
      modifies this`lastSeen
      ensures lastSeen == ObserveSeen(old(lastSeen), slot)
      ensures slot != NONE ==> Rank(lastSeen) >= Rank(old(lastSeen)) && Rank(lastSeen) >= slot
    {
      if lastSeen == NONE || slot > lastSeen {
        lastSeen := slot;
      }
    }

    /** `idx_slot_cursor_resume_slot`. */
    method Resume() returns (slot: Slot)
      ensures slot == ResumeSlot(lastIndexed, startSlot)
    {
      if lastIndexed != NONE {
        return lastIndexed + 1;
      }
      return startSlot;
    }
  }

  /** The backfill is every slot from a real floor to just below the tip, as far as the end slot allows. */
  lemma BackfillIsTheRest(floor: Slot, tip: Slot, endSlot: Slot, x: int)
    ensures floor <= x <= BackfillTop(floor, tip, endSlot) <==>
            floor != 0 && floor <= x < tip && (endSlot == 0 || x <= endSlot)
  {
  }

  /** `queue_backfill`, once the tip is known. */
  method QueueBackfill(gaps: GapSet, floor: Slot, tip: Slot, endSlot: Slot)
    requires gaps.Valid() && floor != 0
    modifies gaps, gaps.ranges
    ensures gaps.Valid() && (gaps.ranges == old(gaps.ranges) || fresh(gaps.ranges))
    ensures var top := BackfillTop(floor, tip, endSlot);
            gaps.View() == if floor <= top then Add(old(gaps.View()), floor, top, gaps.maxRanges) else old(gaps.View())
  {
    if tip == 0 || tip <= floor {
      return;
    }
    var to := tip - 1;
    if endSlot != 0 && to > endSlot {
      to := endSlot;
    }
    if to < floor {
      return;
    }
    gaps.AddRange(floor, to);
  }

  function SlotsOf(entries: seq<Entry>): seq<Slot> {
    seq(|entries|, i requires 0 <= i < |entries| => entries[i].slot)
  }

  // ---------------------------------------------------------------- what handling an entry does

  /** What the processor knows: the outstanding slots and its three marks. */
  datatype Progress = Progress(gaps: seq<Range>, lastSeen: Slot, highest: Slot, lastIndexed: Slot)

  function Observed(p: Progress, slot: Slot, max: nat): Progress {
    p.(gaps := ObserveGap(p.gaps, p.lastSeen, slot, max), lastSeen := ObserveSeen(p.lastSeen, slot))
  }

  function Committed(p: Progress, slot: Slot): Progress {
    var gaps, highest := Resolve(p.gaps, slot, slot), RaiseHighest(p.highest, slot);
    p.(gaps := gaps, highest := highest, lastIndexed := Watermark(gaps, highest))
  }

  function LiveDone(p: Progress, slots: seq<Slot>, max: nat): Progress {
    if slots == [] then p
    else
      var slot := slots[|slots| - 1];
      Committed(Observed(LiveDone(p, slots[..|slots| - 1], max), slot, max), slot)
  }

  function RecoveredDone(p: Progress, slots: seq<Slot>): Progress {
    if slots == [] then p else Committed(RecoveredDone(p, slots[..|slots| - 1]), slots[|slots| - 1])
  }

  lemma LiveDoneStep(p: Progress, slots: seq<Slot>, n: nat, max: nat)
    requires n < |slots|
    ensures LiveDone(p, slots[..n + 1], max) ==
            Committed(Observed(LiveDone(p, slots[..n], max), slots[n], max), slots[n])
  {
    assert slots[..n + 1][..n] == slots[..n];
  }

  lemma RecoveredDoneStep(p: Progress, slots: seq<Slot>, n: nat)
    requires n < |slots|
    ensures RecoveredDone(p, slots[..n + 1]) == Committed(RecoveredDone(p, slots[..n]), slots[n])
  {
    assert slots[..n + 1][..n] == slots[..n];
  }

  function ProgressOf(s: State): Progress {
    Progress(s.gaps, s.lastSeen, s.highest, s.lastIndexed)
  }

  /** A live entry handled by the code is four steps of the system. */
  lemma LiveEntryIsRun(c: Config, s: State)
    requires c.Valid() && Enabled(c, s, TakeLive)
    ensures var events := [TakeLive, Handle(true), ResolveStored, UpdateWatermark];
            && IsRun(c, s, events)
            && ProgressOf(RunFrom(c, s, events)) ==
               Committed(Observed(ProgressOf(s), s.live[0], c.maxRanges), s.live[0])
            && RunFrom(c, s, events).live == s.live[1..]
  {
    var p := (s: State, e: Event) => true;
    var rest := SlotCommits(c, TakeLiveSlot(c, s), p);
    RunCons(c, s, TakeLive, rest, p);
  }

  /** And a recovered one too: it only commits and resolves. */
  lemma RecoveredEntryIsRun(c: Config, s: State)
    requires c.Valid() && Enabled(c, s, TakeRecovered)
    ensures var events := [TakeRecovered, Handle(true), ResolveStored, UpdateWatermark];
            && IsRun(c, s, events)
            && ProgressOf(RunFrom(c, s, events)) == Committed(ProgressOf(s), s.recovered[0])
            && RunFrom(c, s, events).recovered == s.recovered[1..]
  {
    var p := (s: State, e: Event) => true;
    var rest := SlotCommits(c, Apply(c, s, TakeRecovered), p);
    RunCons(c, s, TakeRecovered, rest, p);
  }

  lemma NothingDone(p: Progress, max: nat)
    ensures LiveDone(p, [], max) == RecoveredDone(p, []) == p
  {
  }

  // ---------------------------------------------------------------- the processor

  /** Where a processor begins: what it knows, what it has counted, and what the rings hold. */
  datatype Began = Began(
    known: Progress, committed: seq<Slot>, dropped: int, nextSeq: nat, live: seq<Entry>, recovered: seq<Entry>)

  /** What it knows once `nl` live entries and then `nr` recovered ones are handled. */
  function After(b: Began, nl: nat, nr: nat, max: nat): Progress
    requires nl <= |b.live| && nr <= |b.recovered|
  {
    RecoveredDone(LiveDone(b.known, SlotsOf(b.live)[..nl], max), SlotsOf(b.recovered)[..nr])
  }

  lemma AfterLive(b: Began, nl: nat, max: nat)
    requires nl < |b.live|
    ensures After(b, nl + 1, 0, max) == Committed(Observed(After(b, nl, 0, max), b.live[nl].slot, max), b.live[nl].slot)
  {
    LiveDoneStep(b.known, SlotsOf(b.live), nl, max);
    assert SlotsOf(b.recovered)[..0] == [];
  }

  lemma AfterRecovered(b: Began, nr: nat, max: nat)
    requires nr < |b.recovered|
    ensures After(b, |b.live|, nr + 1, max) == Committed(After(b, |b.live|, nr, max), b.recovered[nr].slot)
  {
    RecoveredDoneStep(LiveDone(b.known, SlotsOf(b.live)[..|b.live|], max), SlotsOf(b.recovered), nr);
  }

  /** How one look at a ring ended. */
  datatype Took = NothingYet | RingClosed | Handled | HandlerFailed

  class Processor {
    const gaps: GapSet
    const cursor: SlotCursor
    const live: Ring
    const recovered: Ring
    var highest: Slot
    var nextSeq: nat
    var queueDropped: int
    var committed: seq<Slot> // slots whose block the handler took, in order

    ghost predicate Valid()
      reads this, gaps, live, live.queue, recovered, recovered.queue
    {
      gaps.Valid() && live.Valid() && recovered.Valid() && live != recovered && live.queue != recovered.queue
    }

    ghost function Known(): Progress
      requires gaps.Valid()
      reads this, gaps, gaps.ranges, cursor
    {
      Progress(gaps.View(), cursor.lastSeen, highest, cursor.lastIndexed)
    }

    constructor (gaps: GapSet, cursor: SlotCursor, live: Ring, recovered: Ring)
      requires gaps.Valid() && live.Valid() && recovered.Valid() && live != recovered && live.queue != recovered.queue
      ensures Valid() && this.gaps == gaps && this.cursor == cursor && this.live == live && this.recovered == recovered
      ensures highest == cursor.lastIndexed && nextSeq == 0 && queueDropped == 0 && committed == []
    {
      this.gaps, this.cursor, this.live, this.recovered := gaps, cursor, live, recovered;
      highest, nextSeq, queueDropped, committed := cursor.lastIndexed, 0, 0, [];
    }

    /** `observe_live_slot`. */
    method ObserveLiveSlot(slot: Slot)
      requires gaps.Valid() && slot != NONE
      modifies gaps, gaps.ranges, cursor`lastSeen
      ensures gaps.Valid() && (gaps.ranges == old(gaps.ranges) || fresh(gaps.ranges))
      ensures gaps.View() == ObserveGap(old(gaps.View()), old(cursor.lastSeen), slot, gaps.maxRanges)
      ensures cursor.lastSeen == ObserveSeen(old(cursor.lastSeen), slot)
    {
      var previous := cursor.lastSeen;
      if previous != NONE && slot > previous + 1 {
        gaps.AddRange(previous + 1, slot - 1);
      }
      cursor.Observe(slot);
    }

    /** `commit_block`: a handler failure leaves everything as it was. */
    method CommitBlock(slot: Slot, handlerOk: bool)
      requires gaps.Valid()
      modifies this`committed, this`highest, gaps, gaps.ranges, cursor`lastIndexed
      ensures gaps.Valid() && (gaps.ranges == old(gaps.ranges) || fresh(gaps.ranges))
      ensures !handlerOk ==> committed == old(committed) && highest == old(highest)
                             && gaps.View() == old(gaps.View()) && cursor.lastIndexed == old(cursor.lastIndexed)
      ensures handlerOk ==>
                && committed == old(committed) + [slot] && highest == RaiseHighest(old(highest), slot)
                && gaps.View() == Resolve(old(gaps.View()), slot, slot)
                && cursor.lastIndexed == Watermark(gaps.View(), highest)
    {
      if !handlerOk {
        return;
      }
      committed := committed + [slot];
      if highest == NONE || slot > highest {
        highest := slot;
      }
      gaps.ResolveRange(slot, slot);
      var watermark := gaps.ReadWatermark(highest);
      cursor.SetIndexed(watermark);
    }

    /** A live entry: count the drops before it, record the hole it exposes, commit it. */
    method HandleLive(entry: Entry, handlerOk: bool)
      requires gaps.Valid() && entry.slot != NONE
      modifies this`committed, this`highest, this`nextSeq, this`queueDropped, gaps, gaps.ranges, cursor
      ensures gaps.Valid() && (gaps.ranges == old(gaps.ranges) || fresh(gaps.ranges))
      ensures nextSeq == entry.seqNo + 1 && queueDropped == old(queueDropped) + (entry.seqNo - old(nextSeq))
      ensures committed == old(committed) + if handlerOk then [entry.slot] else []
      ensures var seen := Observed(old(Known()), entry.slot, gaps.maxRanges);
              Known() == if handlerOk then Committed(seen, entry.slot) else seen
    {
      if entry.seqNo != nextSeq {
        queueDropped := queueDropped + (entry.seqNo - nextSeq);
      }
      nextSeq := entry.seqNo + 1;
      ObserveLiveSlot(entry.slot);
      CommitBlock(entry.slot, handlerOk);
    }

    /** The live half of one pass of `run_processor`. */
    method LookLive(handlerOk: Slot -> bool) returns (took: Took)
      requires Valid() && forall e | e in live.Waiting() :: e.slot != NONE
      modifies this, gaps, gaps.ranges, cursor, live, live.queue
      ensures Valid() && live.closed == old(live.closed) && (gaps.ranges == old(gaps.ranges) || fresh(gaps.ranges))
      ensures took == RingClosed <==> live.closed && old(live.Waiting()) == []
      ensures took == NothingYet <==> !live.closed && old(live.Waiting()) == []
      ensures took == RingClosed || took == NothingYet ==>
                && Known() == old(Known()) && live.Waiting() == old(live.Waiting())
                && committed == old(committed) && nextSeq == old(nextSeq) && queueDropped == old(queueDropped)
      ensures took == Handled || took == HandlerFailed ==>
                var e := old(live.Waiting())[0];
                var seen := Observed(old(Known()), e.slot, gaps.maxRanges);
                && live.Waiting() == old(live.Waiting())[1..]
                && nextSeq == e.seqNo + 1 && queueDropped == old(queueDropped) + (e.seqNo - old(nextSeq))
                && (took == Handled <==> handlerOk(e.slot))
                && Known() == (if took == Handled then Committed(seen, e.slot) else seen)
                && committed == old(committed) + if took == Handled then [e.slot] else []
    {
      hide Ring.Valid;
      var r := live.Consume();
      if r.Taken? {
        assert r.entry in old(live.Waiting());
        HandleLive(r.entry, handlerOk(r.entry.slot));
        return if handlerOk(r.entry.slot) then Handled else HandlerFailed;
      }
      took := if r.ConsumeClosed? then RingClosed else NothingYet;
    }

    /** The recovered half: those slots are behind the frontier, and only commit and resolve. */
    method LookRecovered(handlerOk: Slot -> bool) returns (took: Took)
      requires Valid()
      modifies this`committed, this`highest, gaps, gaps.ranges, cursor`lastIndexed, recovered, recovered.queue
      ensures Valid() && recovered.closed == old(recovered.closed)
      ensures gaps.ranges == old(gaps.ranges) || fresh(gaps.ranges)
      ensures took == RingClosed <==> recovered.closed && old(recovered.Waiting()) == []
      ensures took == NothingYet <==> !recovered.closed && old(recovered.Waiting()) == []
      ensures took == RingClosed || took == NothingYet ==>
                && Known() == old(Known()) && recovered.Waiting() == old(recovered.Waiting())
                && committed == old(committed)
      ensures took == Handled || took == HandlerFailed ==>
                var slot := old(recovered.Waiting())[0].slot;
                && recovered.Waiting() == old(recovered.Waiting())[1..]
                && (took == Handled <==> handlerOk(slot))
                && Known() == (if took == Handled then Committed(old(Known()), slot) else old(Known()))
                && committed == old(committed) + if took == Handled then [slot] else []
    {
      hide Ring.Valid;
      var r := recovered.Consume();
      if r.Taken? {
        CommitBlock(r.entry.slot, handlerOk(r.entry.slot));
        return if handlerOk(r.entry.slot) then Handled else HandlerFailed;
      }
      took := if r.ConsumeClosed? then RingClosed else NothingYet;
    }

    /** From where the processor began, `nl` live entries and then `nr` recovered ones have been handled. */
    ghost predicate Reached(b: Began, nl: nat, nr: nat)
      requires Valid()
      reads this, gaps, gaps.ranges, cursor, live, live.queue, recovered, recovered.queue
    {
      && nl <= |b.live| && nr <= |b.recovered|
      && live.Waiting() == b.live[nl..] && recovered.Waiting() == b.recovered[nr..]
      && committed == b.committed + SlotsOf(b.live)[..nl] + SlotsOf(b.recovered)[..nr]
      && Known() == After(b, nl, nr, gaps.maxRanges)
      && queueDropped + JumpSum(b.live[nl..], nextSeq) == b.dropped + JumpSum(b.live, b.nextSeq)
    }

    method PassLive(handlerOk: Slot -> bool, ghost b: Began, ghost nl: nat) returns (took: Took)
      requires Valid() && live.closed && recovered.closed && Reached(b, nl, 0)
      requires forall e | e in b.live :: e.slot != NONE
      modifies this, gaps, gaps.ranges, cursor, live, live.queue
      ensures Valid() && live.closed && recovered.closed && (gaps.ranges == old(gaps.ranges) || fresh(gaps.ranges))
      ensures took != NothingYet
      ensures took == Handled ==> nl < |b.live| && Reached(b, nl + 1, 0)
      ensures took == RingClosed ==> nl == |b.live| && Reached(b, nl, 0)
      ensures took == HandlerFailed ==>
                && nl < |b.live| && !handlerOk(b.live[nl].slot) && committed == old(committed)
                && Known() == Observed(old(Known()), b.live[nl].slot, gaps.maxRanges)
    {
      hide Ring.Valid;
      hide JumpSum, LiveDone, RecoveredDone, Observed, Committed;
      ghost var expected := nextSeq;
      took := LookLive(handlerOk);
      if took == Handled {
        AfterLive(b, nl, gaps.maxRanges);
        JumpSumStep(b.live, nl, expected);
      }
    }

    method PassRecovered(handlerOk: Slot -> bool, ghost b: Began, ghost nr: nat) returns (took: Took)
      requires Valid() && live.closed && recovered.closed && Reached(b, |b.live|, nr)
      modifies this`committed, this`highest, gaps, gaps.ranges, cursor`lastIndexed, recovered, recovered.queue
      ensures Valid() && live.closed && recovered.closed && (gaps.ranges == old(gaps.ranges) || fresh(gaps.ranges))
      ensures took != NothingYet
      ensures took == Handled ==> nr < |b.recovered| && Reached(b, |b.live|, nr + 1)
      ensures took == RingClosed ==> nr == |b.recovered| && Reached(b, |b.live|, nr)
      ensures took == HandlerFailed ==>
                && nr < |b.recovered| && !handlerOk(b.recovered[nr].slot)
                && committed == old(committed) && Known() == old(Known())
    {
      hide Ring.Valid;
      hide JumpSum, LiveDone, RecoveredDone, Observed, Committed;
      took := LookRecovered(handlerOk);
      if took == Handled {
        AfterRecovered(b, nr, gaps.maxRanges);
      }
    }

    /**
     `run_processor` once both rings have closed: what they still hold is handled in order, the live
     ring first, until a handler fails. With everything handled the sequence jumps have added up.
     */
    method RunProcessor(handlerOk: Slot -> bool) returns (ok: bool, ghost nl: nat, ghost nr: nat)
      requires Valid() && live.closed && recovered.closed
      requires forall e | e in live.Waiting() :: e.slot != NONE
      modifies this, gaps, gaps.ranges, cursor, live, live.queue, recovered, recovered.queue
      ensures Valid()
      ensures var b := old(Began(Known(), committed, queueDropped, nextSeq, live.Waiting(), recovered.Waiting()));
              && nl <= |b.live| && nr <= |b.recovered| && (nl < |b.live| ==> nr == 0)
              && (ok <==> nl == |b.live| && nr == |b.recovered|)
              && (ok ==> Reached(b, nl, nr))
              && (!ok ==> !handlerOk(if nl < |b.live| then b.live[nl].slot else b.recovered[nr].slot))
              && (!ok ==> committed == b.committed + SlotsOf(b.live)[..nl] + SlotsOf(b.recovered)[..nr])
              && (!ok ==>
                    var known := After(b, nl, nr, gaps.maxRanges);
                    Known() == if nl < |b.live| then Observed(known, b.live[nl].slot, gaps.maxRanges) else known)
    {
      hide Ring.Valid;
      hide JumpSum, LiveDone, RecoveredDone, Observed, Committed;
      ghost var b := Began(Known(), committed, queueDropped, nextSeq, live.Waiting(), recovered.Waiting());
      nl, nr := 0, 0;
      assert b.live[0..] == b.live && b.recovered[0..] == b.recovered;
      NothingDone(Known(), gaps.maxRanges);
      var liveDone, recoveryDone := false, false;
      while !liveDone || !recoveryDone
        invariant Valid() && live.closed && recovered.closed
        invariant gaps.ranges == old(gaps.ranges) || fresh(gaps.ranges)
        invariant nl <= |b.live| && nr <= |b.recovered| && Reached(b, nl, nr)
        invariant liveDone ==> nl == |b.live|
        invariant !liveDone ==> nr == 0 && !recoveryDone
        invariant recoveryDone ==> nr == |b.recovered|
        decreases |b.live| - nl + |b.recovered| - nr, if recoveryDone then 0 else 1
      {
        if !liveDone {
          var took := PassLive(handlerOk, b, nl);
          if took == HandlerFailed {
            return false, nl, nr;
          }
          if took == Handled {
            nl := nl + 1;
            continue;
          }
          liveDone := true;
        }
        if !recoveryDone {
          var took := PassRecovered(handlerOk, b, nr);
          if took == HandlerFailed {
            return false, nl, nr;
          }
          if took == Handled {
            nr := nr + 1;
          } else {
            recoveryDone := true;
          }
        }
      }
      ok := true;
    }
  }
}
