/**
 How one fetcher works a claimed range (`src/fetcher.c`).

 The endpoint is an oracle. What a worker does with its answers is a list of actions on the gap
 set and the recovery ring; `Pool.WorkRange` performs exactly that list.
 */
module Fetchers {
  import opened Slots
  import opened Gaps
  import opened GapSets
  import opened GapTheorems
  import opened Numbers

  datatype Action =
    | Resolved(from: Slot, to: Slot)
    | Published(slot: Slot)
    | Released(from: Slot, to: Slot)
  {
    function Start(): Slot { if Published? then slot else from }
    function End(): Slot { if Published? then slot else to }
    predicate Covers(x: int) { Start() <= x <= End() }
  }

  /** The answers to `getBlocks` and, by list position, to `getBlock`. */
  datatype Blocks = NotRetained | Rejected | Failed | Listed(slots: seq<Slot>)
  datatype Fetched = Found | Missing | Error

  /**
   What one claim meets: the endpoint's answers, whether the recovery ring takes each block, and
   whether the pool is being stopped when each list position is reached.
   */
  datatype Oracle = Oracle(blocks: Blocks, fetched: nat -> Fetched, accepted: nat -> bool, stopping: nat -> bool)

  /** On a stop the code resolves the rest of the claim; its header promises to give it back. */
  datatype StopRule = AsCoded | AsDocumented

  function Rest(rule: StopRule, cursor: Slot, to: Slot): seq<Action> {
    if cursor > to then []
    else if rule == AsCoded then [Resolved(cursor, to)]
    else [Released(cursor, to)]
  }

  /** What becomes of the listed slot at position `i`. */
  function Handle(o: Oracle, i: nat, slot: Slot, to: Slot): Action {
    if o.fetched(i) == Missing then Resolved(slot, slot)
    else if o.fetched(i) == Error || !o.accepted(i) then Released(slot, to)
    else Published(slot)
  }

  /** The slots the list skipped over on its way from `cursor` to `slot`. */
  function Skipped(cursor: Slot, slot: Slot): seq<Action> {
    if slot > cursor then [Resolved(cursor, slot - 1)] else []
  }

  /** The loop of `work_range` from list position `i`, with everything below `cursor` dealt with. */
  function WorkFrom(rule: StopRule, o: Oracle, slots: seq<Slot>, i: nat, cursor: Slot, to: Slot): seq<Action>
    requires to < NONE
    decreases |slots| - i
  {
    if i >= |slots| then Rest(AsCoded, cursor, to)
    else if o.stopping(i) then Rest(rule, cursor, to)
    else
      var slot := slots[i];
      if slot < cursor || slot > to then WorkFrom(rule, o, slots, i + 1, cursor, to)
      else
        var one := Handle(o, i, slot, to);
        Skipped(cursor, slot) + [one] + if one.Released? then [] else WorkFrom(rule, o, slots, i + 1, slot + 1, to)
  }

  function Work(rule: StopRule, o: Oracle, from: Slot, to: Slot): seq<Action>
    requires from <= to < NONE
  {
    match o.blocks
    case NotRetained => [Resolved(from, to)]
    case Rejected => if to - from + 1 > 1 then [Released(from, to)] else [Resolved(from, to)]
    case Failed => [Released(from, to)]
    case Listed(slots) => WorkFrom(rule, o, slots, 0, from, to)
  }

  // ---------------------------------------------------------------- exact accounting

  /** The actions cut [from, to] into consecutive pieces, left to right, leaving nothing over. */
  ghost predicate Tiles(actions: seq<Action>, from: int, to: int)
    decreases |actions|
  {
    if actions == [] then from == to + 1
    else
      && actions[0].Start() == from <= actions[0].End() <= to
      && Tiles(actions[1..], actions[0].End() + 1, to)
  }

  lemma TilesCons(a: Action, rest: seq<Action>, from: int, to: int)
    requires a.Start() == from <= a.End() <= to && Tiles(rest, a.End() + 1, to)
    ensures Tiles([a] + rest, from, to)
  {
    assert ([a] + rest)[1..] == rest;
  }

  /** One listed slot: what was skipped below it, the slot itself, the rest. */
  lemma TilesSlot(cursor: Slot, slot: Slot, one: Action, rest: seq<Action>, to: Slot)
    requires cursor <= slot <= to && one.Start() == slot <= one.End() <= to && Tiles(rest, one.End() + 1, to)
    ensures Tiles(Skipped(cursor, slot) + [one] + rest, cursor, to)
  {
    TilesCons(one, rest, slot, to);
    if slot > cursor {
      TilesCons(Resolved(cursor, slot - 1), [one] + rest, cursor, to);
      assert [Resolved(cursor, slot - 1)] + ([one] + rest) == [Resolved(cursor, slot - 1)] + [one] + rest;
    } else {
      assert [] + [one] + rest == [one] + rest;
    }
  }

  lemma {:induction false} WorkFromTiles(rule: StopRule, o: Oracle, slots: seq<Slot>, i: nat, cursor: Slot, to: Slot)
    requires cursor <= to + 1 <= NONE
    ensures Tiles(WorkFrom(rule, o, slots, i, cursor, to), cursor, to)
    decreases |slots| - i
  {
    if i < |slots| && !o.stopping(i) {
      var slot := slots[i];
      if slot < cursor || slot > to {
        WorkFromTiles(rule, o, slots, i + 1, cursor, to);
      } else {
        var one := Handle(o, i, slot, to);
        WorkFromTiles(rule, o, slots, i + 1, slot + 1, to);
        TilesSlot(cursor, slot, one, if one.Released? then [] else WorkFrom(rule, o, slots, i + 1, slot + 1, to), to);
      }
    }
  }

  /** Whatever the endpoint answers, in whatever order, a worker accounts for its claim exactly. */
  lemma WorkTiles(rule: StopRule, o: Oracle, from: Slot, to: Slot)
    requires from <= to < NONE
    ensures Tiles(Work(rule, o, from, to), from, to)
  {
    if o.blocks.Listed? {
      WorkFromTiles(rule, o, o.blocks.slots, 0, from, to);
    }
  }

  /** So every slot of the claim meets exactly one action. */
  lemma {:induction false} EachSlotOnce(actions: seq<Action>, from: int, to: int, x: int) returns (k: nat)
    requires Tiles(actions, from, to) && from <= x <= to
    ensures k < |actions| && actions[k].Covers(x)
    ensures forall j | 0 <= j < |actions| && actions[j].Covers(x) :: j == k
    decreases |actions|
  {
    if actions[0].Covers(x) {
      k := 0;
      TilesStartAt(actions[1..], actions[0].End() + 1, to);
    } else {
      k := EachSlotOnce(actions[1..], actions[0].End() + 1, to, x);
      k := k + 1;
    }
  }

  lemma {:induction false} TilesStartAt(actions: seq<Action>, from: int, to: int)
    requires Tiles(actions, from, to)
    ensures forall a | a in actions :: from <= a.Start() <= a.End() <= to
    decreases |actions|
  {
    if actions != [] {
      TilesStartAt(actions[1..], actions[0].End() + 1, to);
    }
  }

  // ---------------------------------------------------------------- soundness

  predicate Ascending(slots: seq<Slot>) {
    forall i, j | 0 <= i < j < |slots| :: slots[i] < slots[j]
  }

  /**
   The endpoint has nothing to serve for slot `x` of the claim: it left the slot out of its list,
   no longer has it, or refused it even on its own.
   */
  ghost predicate Unservable(o: Oracle, from: Slot, to: Slot, x: int) {
    match o.blocks
    case NotRetained => true
    case Rejected => from == to
    case Failed => false
    case Listed(slots) => forall i | 0 <= i < |slots| && slots[i] == x :: o.fetched(i) == Missing
  }

  /** Every slot given up on really has nothing to serve. */
  ghost predicate Sound(actions: seq<Action>, o: Oracle, from: Slot, to: Slot) {
    forall a, x | a in actions && a.Resolved? && a.Covers(x) :: Unservable(o, from, to, x)
  }

  /** The worker gets past list position `i` without giving the rest of its claim back. */
  predicate Passes(o: Oracle, slots: seq<Slot>, i: nat, from: Slot, to: Slot)
    requires i < |slots|
  {
    !o.stopping(i) && (from <= slots[i] <= to ==> o.fetched(i) == Missing || (o.fetched(i) == Found && o.accepted(i)))
  }

  /** A stop reaches the worker at position `k`, with the block at `j` still to be had. */
  ghost predicate StopsBefore(o: Oracle, slots: seq<Slot>, first: nat, k: nat, j: nat, from: Slot, to: Slot) {
    && first <= k <= j < |slots| && o.stopping(k)
    && (forall i | first <= i < k :: Passes(o, slots, i, from, to))
    && from <= slots[j] <= to && o.fetched(j) != Missing
  }

  ghost predicate StoppedEarly(o: Oracle, from: Slot, to: Slot) {
    o.blocks.Listed? && exists k: nat, j: nat :: StopsBefore(o, o.blocks.slots, 0, k, j, from, to)
  }

  /** A resolved piece ends below `slot`, the next in an ascending list, so it holds no listed slot. */
  lemma GapHasNothing(o: Oracle, slots: seq<Slot>, i: nat, cursor: int, from: Slot, to: Slot, x: int)
    requires o.blocks == Listed(slots) && Ascending(slots) && i <= |slots|
    requires forall k | 0 <= k < i :: slots[k] < cursor || slots[k] > to
    requires cursor <= x <= to && (i < |slots| ==> x < slots[i])
    ensures Unservable(o, from, to, x)
  {
  }

  lemma {:induction false} WorkFromSound(
    rule: StopRule, o: Oracle, slots: seq<Slot>, i: nat, cursor: Slot, from: Slot, to: Slot)
    requires o.blocks == Listed(slots) && Ascending(slots) && i <= |slots|
    requires from <= cursor <= to + 1 <= NONE
    requires forall k | 0 <= k < i :: slots[k] < cursor || slots[k] > to
    requires forall k | i <= k < |slots| :: slots[k] >= cursor || slots[k] < from
    requires rule == AsCoded ==> forall k: nat, j: nat :: !StopsBefore(o, slots, i, k, j, from, to)
    ensures Sound(WorkFrom(rule, o, slots, i, cursor, to), o, from, to)
    decreases |slots| - i
  {
    forall x | cursor <= x <= to && (i < |slots| ==> x < slots[i]) ensures Unservable(o, from, to, x) {
      GapHasNothing(o, slots, i, cursor, from, to, x);
    }
    if i < |slots| && o.stopping(i) {
      if rule == AsCoded {
        forall x | cursor <= x <= to ensures Unservable(o, from, to, x) {
          forall j | 0 <= j < |slots| && slots[j] == x ensures o.fetched(j) == Missing {
            assert !StopsBefore(o, slots, i, i, j, from, to);
          }
        }
      }
    } else if i < |slots| {
      var slot := slots[i];
      var next := if slot < cursor || slot > to then cursor else slot + 1;
      if slot < cursor || slot > to || Passes(o, slots, i, from, to) {
        if rule == AsCoded {
          var n := i + 1;
          forall k: nat, j: nat ensures !StopsBefore(o, slots, n, k, j, from, to) {
            assert !StopsBefore(o, slots, i, k, j, from, to);
          }
        }
        WorkFromSound(rule, o, slots, i + 1, next, from, to);
      }
    }
  }

  /** Where the loop goes on from a listed slot. */
  function NextCursor(cursor: Slot, slot: Slot, to: Slot): nat {
    if slot < cursor || slot > to then cursor else slot + 1
  }

  lemma WorkFromGoesOn(o: Oracle, slots: seq<Slot>, i: nat, cursor: Slot, from: Slot, to: Slot)
    requires i < |slots| && from <= cursor <= to + 1 <= NONE && Passes(o, slots, i, from, to)
    ensures NextCursor(cursor, slots[i], to) <= to + 1
    ensures forall a :: a in WorkFrom(AsCoded, o, slots, i + 1, NextCursor(cursor, slots[i], to), to) ==>
                        a in WorkFrom(AsCoded, o, slots, i, cursor, to)
  {
  }

  /** The stop that comes early makes the code resolve a slot the endpoint would still serve. */
  lemma {:induction false} WorkFromUnsound(
    o: Oracle, slots: seq<Slot>, i: nat, cursor: Slot, from: Slot, to: Slot, k: nat, j: nat)
    returns (a: Action)
    requires o.blocks == Listed(slots) && Ascending(slots)
    requires from <= cursor <= to + 1 <= NONE
    requires forall n | i <= n < |slots| :: slots[n] >= cursor || slots[n] < from
    requires StopsBefore(o, slots, i, k, j, from, to)
    ensures a in WorkFrom(AsCoded, o, slots, i, cursor, to) && a.Resolved? && a.Covers(slots[j])
    decreases |slots| - i
  {
    if o.stopping(i) {
      assert k > i ==> Passes(o, slots, i, from, to);
      a := Resolved(cursor, to);
    } else {
      assert Passes(o, slots, i, from, to);
      WorkFromGoesOn(o, slots, i, cursor, from, to);
      hide WorkFrom(), Passes();
      a := WorkFromUnsound(o, slots, i + 1, NextCursor(cursor, slots[i], to), from, to, k, j);
    }
  }

  /**
   What a worker resolves is never something the endpoint could still serve, for as long as no
   stop arrives while the list still holds a block of the claim: exactly then, because on a stop
   the code resolves the rest of the claim instead of giving it back.
   */
  lemma WorkSoundIff(o: Oracle, from: Slot, to: Slot)
    requires from <= to < NONE
    requires o.blocks.Listed? ==> Ascending(o.blocks.slots)
    ensures Sound(Work(AsCoded, o, from, to), o, from, to) <==> !StoppedEarly(o, from, to)
    ensures Sound(Work(AsDocumented, o, from, to), o, from, to)
  {
    if o.blocks.Listed? {
      var slots := o.blocks.slots;
      WorkFromSound(AsDocumented, o, slots, 0, from, from, to);
      if StoppedEarly(o, from, to) {
        var k: nat, j: nat :| StopsBefore(o, slots, 0, k, j, from, to);
        var a := WorkFromUnsound(o, slots, 0, from, from, to, k, j);
        assert !Unservable(o, from, to, slots[j]);
      } else {
        WorkFromSound(AsCoded, o, slots, 0, from, from, to);
      }
    }
  }

  ghost predicate GivenUp(actions: seq<Action>, x: int) {
    exists a :: a in actions && a.Resolved? && a.Covers(x)
  }

  /** A slot the worker gives up although the endpoint would still serve it. */
  ghost predicate Forfeits(rule: StopRule, o: Oracle, from: Slot, to: Slot, x: int)
    requires from <= to < NONE
  {
    GivenUp(Work(rule, o, from, to), x) && !Unservable(o, from, to, x)
  }

  /** A claim forfeits a slot exactly when a stop comes early; by the documented rule it never would. */
  lemma ForfeitsIff(o: Oracle, from: Slot, to: Slot)
    requires from <= to < NONE
    requires o.blocks.Listed? ==> Ascending(o.blocks.slots)
    ensures (exists x :: Forfeits(AsCoded, o, from, to, x)) <==> StoppedEarly(o, from, to)
    ensures forall x :: !Forfeits(AsDocumented, o, from, to, x)
  {
    WorkSoundIff(o, from, to);
    hide Work(), Unservable(), StoppedEarly();
    if !Sound(Work(AsCoded, o, from, to), o, from, to) {
      var a, x :| a in Work(AsCoded, o, from, to) && a.Resolved? && a.Covers(x) && !Unservable(o, from, to, x);
      assert Forfeits(AsCoded, o, from, to, x);
    }
  }

  lemma {:induction false} WorkFromKeepsAll(
    o: Oracle, slots: seq<Slot>, i: nat, cursor: Slot, from: Slot, to: Slot, k: nat, j: nat)
    requires from <= cursor <= to + 1 <= NONE && StopsBefore(o, slots, i, k, j, from, to)
    ensures forall a | a in WorkFrom(AsCoded, o, slots, i, cursor, to) :: !a.Released?
    decreases |slots| - i
  {
    if !o.stopping(i) {
      assert Passes(o, slots, i, from, to);
      var slot := slots[i];
      WorkFromKeepsAll(o, slots, i + 1, if slot < cursor || slot > to then cursor else slot + 1, from, to, k, j);
    }
  }

  /** A worker stopped early has not given anything back. */
  lemma StoppedWorkerKeepsAll(o: Oracle, from: Slot, to: Slot)
    requires from <= to < NONE && StoppedEarly(o, from, to)
    ensures forall a | a in Work(AsCoded, o, from, to) :: !a.Released?
  {
    var slots := o.blocks.slots;
    var k: nat, j: nat :| StopsBefore(o, slots, 0, k, j, from, to);
    WorkFromKeepsAll(o, slots, 0, from, from, to, k, j);
  }

  /** For instance: one listed block, a stop before it is fetched, and it is gone. */
  lemma EarlyStopCounterexample()
    ensures var o := Oracle(Listed([7]), _ => Found, _ => true, _ => true);
            Work(AsCoded, o, 7, 7) == [Resolved(7, 7)] && !Unservable(o, 7, 7, 7)
  {
    var o := Oracle(Listed([7]), _ => Found, _ => true, _ => true);
    assert WorkFrom(AsCoded, o, [7], 0, 7, 7) == Rest(AsCoded, 7, 7);
    assert [7][0] == 7;
  }

  // ---------------------------------------------------------------- the fate of each slot

  ghost predicate GivenBack(actions: seq<Action>, x: int) {
    exists a :: a in actions && a.Released? && a.Covers(x)
  }

  ghost predicate HandedOn(actions: seq<Action>, x: int) {
    exists a :: a in actions && a.Published? && a.slot == x
  }

  /** From position `first` on the worker gets as far as position `k`. */
  ghost predicate Arrives(o: Oracle, slots: seq<Slot>, first: nat, k: int, from: Slot, to: Slot) {
    first <= k < |slots| && forall i | first <= i < k :: Passes(o, slots, i, from, to)
  }

  /** At position `k` the block is there, and the ring takes it. */
  ghost predicate TakenAt(o: Oracle, slots: seq<Slot>, first: nat, k: int, from: Slot, to: Slot) {
    Arrives(o, slots, first, k, from, to) && !o.stopping(k) && o.fetched(k) == Found && o.accepted(k)
  }

  /** At position `k` the fetch fails, or the ring refuses the block. */
  ghost predicate FailsAt(o: Oracle, slots: seq<Slot>, first: nat, k: int, from: Slot, to: Slot) {
    && Arrives(o, slots, first, k, from, to) && !o.stopping(k) && from <= slots[k] <= to
    && (o.fetched(k) == Error || (o.fetched(k) == Found && !o.accepted(k)))
  }

  lemma FateOfParts(a: seq<Action>, b: seq<Action>, x: int)
    ensures GivenBack(a + b, x) <==> GivenBack(a, x) || GivenBack(b, x)
    ensures HandedOn(a + b, x) <==> HandedOn(a, x) || HandedOn(b, x)
  {
    assert forall c :: c in a + b <==> c in a || c in b;
  }

  /** A slot below everything still to be worked has met its action. */
  lemma FateIsSettled(actions: seq<Action>, from: int, to: int, x: int)
    requires Tiles(actions, from, to) && x < from
    ensures !GivenBack(actions, x) && !HandedOn(actions, x)
  {
    TilesStartAt(actions, from, to);
  }

  lemma OneSlotFate(o: Oracle, i: nat, cursor: Slot, slot: Slot, to: Slot, x: int)
    requires cursor <= slot <= to && cursor <= x
    ensures var piece := Skipped(cursor, slot) + [Handle(o, i, slot, to)];
            && (HandedOn(piece, x) <==> x == slot && o.fetched(i) == Found && o.accepted(i))
            && (GivenBack(piece, x) <==>
                  slot <= x <= to && (o.fetched(i) == Error || (o.fetched(i) == Found && !o.accepted(i))))
  {
    var one := Handle(o, i, slot, to);
    FateOfParts(Skipped(cursor, slot), [one], x);
    assert one in [one];
  }

  /** The actions do to slot `x` what the answers from position `i` on call for. */
  ghost predicate Fated(actions: seq<Action>, o: Oracle, slots: seq<Slot>, i: nat, from: Slot, to: Slot, x: int) {
    && (HandedOn(actions, x) <==> exists k :: TakenAt(o, slots, i, k, from, to) && slots[k] == x)
    && (GivenBack(actions, x) <==> exists k :: FailsAt(o, slots, i, k, from, to) && slots[k] <= x)
  }

  lemma FateOfSlot(o: Oracle, slots: seq<Slot>, i: nat, cursor: Slot, from: Slot, to: Slot, rest: seq<Action>, x: int)
    requires Ascending(slots) && i < |slots| && !o.stopping(i)
    requires from <= cursor <= slots[i] <= to < NONE && cursor <= x <= to
    requires var one := Handle(o, i, slots[i], to);
             if one.Released? then rest == []
             else Tiles(rest, slots[i] + 1, to) && (x > slots[i] ==> Fated(rest, o, slots, i + 1, from, to, x))
    ensures Fated(Skipped(cursor, slots[i]) + [Handle(o, i, slots[i], to)] + rest, o, slots, i, from, to, x)
  {
    var slot := slots[i];
    var piece := Skipped(cursor, slot) + [Handle(o, i, slot, to)];
    OneSlotFate(o, i, cursor, slot, to, x);
    FateOfParts(piece, rest, x);
    if Handle(o, i, slot, to).Released? {
      FateStopsHere(o, slots, i, from, to, x);
    } else {
      if x <= slot { FateIsSettled(rest, slot + 1, to, x); }
      hide HandedOn(), GivenBack(), Tiles(), Skipped();
      FateFromNext(o, slots, i, from, to, x);
    }
  }

  lemma {:induction false} WorkFromFate(o: Oracle, slots: seq<Slot>, i: nat, cursor: Slot, from: Slot, to: Slot, x: int)
    requires Ascending(slots) && i <= |slots| && from <= cursor <= to + 1 <= NONE && cursor <= x <= to
    requires forall k | i <= k < |slots| :: slots[k] >= cursor || slots[k] < from
    ensures Fated(WorkFrom(AsCoded, o, slots, i, cursor, to), o, slots, i, from, to, x)
    decreases |slots| - i
  {
    WorkFromPasses(o, slots, i, cursor, to);
    if i == |slots| || o.stopping(i) {
      FateStopsHere(o, slots, i, from, to, x);
    } else if slots[i] < cursor || slots[i] > to {
      hide WorkFrom();
      WorkFromFate(o, slots, i + 1, cursor, from, to, x);
      FateFromNext(o, slots, i, from, to, x);
    } else {
      var one := Handle(o, i, slots[i], to);
      var rest := if one.Released? then [] else WorkFrom(AsCoded, o, slots, i + 1, slots[i] + 1, to);
      assert WorkFrom(AsCoded, o, slots, i, cursor, to) == Skipped(cursor, slots[i]) + [one] + rest;
      hide WorkFrom(), Fated(), Handle();
      WorkFromTiles(AsCoded, o, slots, i + 1, slots[i] + 1, to);
      if x > slots[i] { WorkFromFate(o, slots, i + 1, slots[i] + 1, from, to, x); }
      FateOfSlot(o, slots, i, cursor, from, to, rest, x);
    }
  }

  /** What happens from a position on is what happens at it, and then what happens from the next. */
  lemma FateFromNext(o: Oracle, slots: seq<Slot>, i: nat, from: Slot, to: Slot, x: int)
    requires i < |slots| && Passes(o, slots, i, from, to)
    ensures forall k :: TakenAt(o, slots, i, k, from, to) <==>
                          TakenAt(o, slots, i + 1, k, from, to) || (k == i && o.fetched(i) == Found && o.accepted(i))
    ensures forall k :: FailsAt(o, slots, i, k, from, to) <==> FailsAt(o, slots, i + 1, k, from, to)
  {
  }

  lemma FateStopsHere(o: Oracle, slots: seq<Slot>, i: nat, from: Slot, to: Slot, x: int)
    requires i <= |slots| && (i < |slots| ==> !Passes(o, slots, i, from, to))
    ensures forall k :: TakenAt(o, slots, i, k, from, to) ==> k == i
    ensures forall k :: FailsAt(o, slots, i, k, from, to) ==> k == i
  {
  }

  /**
   What becomes of every slot of a claim, for every answer of the endpoint: handed on if its block was
   listed, fetched and taken before anything went wrong; given back if a fetch failed, or the ring
   refused a block, at or below it; given up otherwise. A refused claim of more than one slot goes back
   whole, and of one slot is given up.
   */
  lemma WorkFate(o: Oracle, from: Slot, to: Slot, x: int)
    requires from <= x <= to < NONE
    requires o.blocks.Listed? ==> Ascending(o.blocks.slots)
    ensures var actions := Work(AsCoded, o, from, to);
            && (HandedOn(actions, x) <==>
                  o.blocks.Listed? && exists k :: TakenAt(o, o.blocks.slots, 0, k, from, to) && o.blocks.slots[k] == x)
            && (GivenBack(actions, x) <==>
                  match o.blocks
                  case NotRetained => false
                  case Rejected => from < to
                  case Failed => true
                  case Listed(slots) => exists k :: FailsAt(o, slots, 0, k, from, to) && slots[k] <= x)
            && (GivenUp(actions, x) <==> !HandedOn(actions, x) && !GivenBack(actions, x))
  {
    var actions := Work(AsCoded, o, from, to);
    WorkTiles(AsCoded, o, from, to);
    var n := EachSlotOnce(actions, from, to, x);
    assert actions[n] in actions;
    if o.blocks.Listed? {
      WorkFromFate(o, o.blocks.slots, 0, from, from, to, x);
    }
  }

  // ---------------------------------------------------------------- claim width

  const DEFAULT_CLAIM_SPAN: Slot := 64

  /** What the refusal of a range `failed` wide makes of the claim width. */
  function Narrow(span: nat, failed: nat): nat {
    if failed <= 1 || span < failed then span else failed / 2
  }

  /** The claim width after a run of refusals, however stale and from however many workers. */
  function NarrowAll(span: nat, failures: seq<nat>): nat
    decreases |failures|
  {
    if failures == [] then span else NarrowAll(Narrow(span, failures[0]), failures[1..])
  }

  function Narrowings(span: nat, failures: seq<nat>): nat
    decreases |failures|
  {
    if failures == [] then 0
    else
      (if Narrow(span, failures[0]) != span then 1 else 0)
      + Narrowings(Narrow(span, failures[0]), failures[1..])
  }

  /** The endpoint refuses only ranges wider than `cap`. */
  predicate AllWider(failures: seq<nat>, cap: nat) {
    forall i | 0 <= i < |failures| :: failures[i] > cap
  }

  /** The width never drops below half the cap, rounded up, however many workers report. */
  lemma {:induction false} SpanFloor(span: nat, failures: seq<nat>, cap: nat)
    requires cap >= 1 && AllWider(failures, cap)
    ensures NarrowAll(span, failures) >= (if span <= (cap + 1) / 2 then span else (cap + 1) / 2)
    decreases |failures|
  {
    if failures != [] {
      SpanFloor(Narrow(span, failures[0]), failures[1..], cap);
    }
  }

  /** Each narrowing halves the width or better, so there are at most log2 of the initial one. */
  lemma {:induction false} NarrowingsHalve(span: nat, failures: seq<nat>)
    ensures Pow(2, Narrowings(span, failures)) * NarrowAll(span, failures) <= span
    ensures span >= 1 ==> NarrowAll(span, failures) >= 1 && Pow(2, Narrowings(span, failures)) <= span
    decreases |failures|
  {
    if failures != [] {
      var next := Narrow(span, failures[0]);
      NarrowingsHalve(next, failures[1..]);
      if next != span {
        var n, last := Narrowings(next, failures[1..]), NarrowAll(next, failures[1..]);
        assert Pow(2, n + 1) * last == 2 * (Pow(2, n) * last);
      }
    }
  }

  /** Once claims fit the cap the width never moves again. */
  lemma {:induction false} SpanSettles(span: nat, failures: seq<nat>, cap: nat)
    requires span <= cap && AllWider(failures, cap)
    ensures NarrowAll(span, failures) == span && Narrowings(span, failures) == 0
    decreases |failures|
  {
    if failures != [] {
      SpanSettles(span, failures[1..], cap);
    }
  }

  /**
   The refusal of any width up to the span, a hole narrower than the span included, narrows the span to
   half that width; a refusal of more than the span is stale, and one of a single slot teaches nothing.
   */
  lemma RefusalNarrows(span: nat, failed: nat)
    ensures 1 < failed <= span ==>
              1 <= Narrow(span, failed) && 2 * Narrow(span, failed) <= failed <= 2 * Narrow(span, failed) + 1
    ensures span < failed || failed <= 1 ==> Narrow(span, failed) == span
  {
  }

  lemma {:induction false} NarrowingNeverWidens(span: nat, failures: seq<nat>)
    ensures NarrowAll(span, failures) <= span && (span >= 1 ==> NarrowAll(span, failures) >= 1)
    decreases |failures|
  {
    if failures != [] {
      RefusalNarrows(span, failures[0]);
      NarrowingNeverWidens(Narrow(span, failures[0]), failures[1..]);
    }
  }

  /** So once a width has been refused, no claim is ever as wide again, whatever is claimable. */
  lemma RefusedWidthIsNotClaimedAgain(span: Slot, failed: nat, later: seq<nat>, gaps: seq<Range>)
    requires span >= 1 && failed > 1 && WellFormed(gaps)
    ensures var now := NarrowAll(Narrow(span, failed), later);
            && 1 <= now <= span
            && var g := Claim(gaps, now).1; g.Granted? ==> g.to - g.from + 1 < failed
  {
    RefusalNarrows(span, failed);
    NarrowingNeverWidens(Narrow(span, failed), later);
    ClaimFits(gaps, NarrowAll(Narrow(span, failed), later));
  }

  /** How wide a claim on a hole of `hole` slots is. */
  function ClaimWidth(span: nat, hole: nat): nat {
    if hole < span then hole else span
  }

  /** How many of these refusals, from any worker, were of this hole claimed at the span of the time. */
  function OwnRefusals(span: nat, hole: nat, failures: seq<nat>): nat
    decreases |failures|
  {
    if failures == [] then 0
    else
      (if failures[0] == ClaimWidth(span, hole) then 1 else 0)
      + OwnRefusals(Narrow(span, failures[0]), hole, failures[1..])
  }

  /**
   Every hole comes within what the endpoint takes: each time its claim is refused the claim is halved or
   better, whatever other refusals come in between, so it is refused at most log2 of its width times.
   */
  lemma {:induction false} HoleRefusalsHalve(span: nat, hole: nat, failures: seq<nat>)
    requires span >= 1 && hole >= 1 && forall i | 0 <= i < |failures| :: failures[i] > 1
    ensures ClaimWidth(NarrowAll(span, failures), hole) >= 1
    ensures Pow(2, OwnRefusals(span, hole, failures)) * ClaimWidth(NarrowAll(span, failures), hole) <=
            ClaimWidth(span, hole)
    ensures Pow(2, OwnRefusals(span, hole, failures)) <= ClaimWidth(span, hole)
    decreases |failures|
  {
    if failures != [] {
      var next := Narrow(span, failures[0]);
      RefusalNarrows(span, failures[0]);
      HoleRefusalsHalve(next, hole, failures[1..]);
      var n, last := OwnRefusals(next, hole, failures[1..]), ClaimWidth(NarrowAll(next, failures[1..]), hole);
      OneRefusal(span, failures[0], hole);
      assert Pow(2, n + 1) == 2 * Pow(2, n);
      hide *;
      MoreRefusals(Pow(2, n), last, ClaimWidth(next, hole), ClaimWidth(span, hole));
    }
  }

  lemma OneRefusal(span: nat, failed: nat, hole: nat)
    requires span >= 1 && failed > 1
    ensures ClaimWidth(Narrow(span, failed), hole) <= ClaimWidth(span, hole)
    ensures failed == ClaimWidth(span, hole) ==> 2 * ClaimWidth(Narrow(span, failed), hole) <= ClaimWidth(span, hole)
  {
    RefusalNarrows(span, failed);
  }

  lemma MoreRefusals(p: nat, last: nat, now: nat, before: nat)
    requires p * last <= now && p <= now
    ensures now <= before ==> p * last <= before && p <= before
    ensures 2 * now <= before ==> 2 * p * last <= before && 2 * p <= before
  {
    assert 2 * p * last == 2 * (p * last);
  }

  /** So refused often enough, the claims on any hole are within any cap. */
  lemma HolesComeWithinCap(span: nat, hole: nat, failures: seq<nat>, cap: nat)
    requires span >= 1 && hole >= 1 && forall i | 0 <= i < |failures| :: failures[i] > 1
    requires Pow(2, OwnRefusals(span, hole, failures)) * cap >= ClaimWidth(span, hole)
    ensures ClaimWidth(NarrowAll(span, failures), hole) <= cap
  {
    hide Pow, OwnRefusals, ClaimWidth, NarrowAll;
    HoleRefusalsHalve(span, hole, failures);
    PowPositive(2, OwnRefusals(span, hole, failures));
    TimesSmaller(Pow(2, OwnRefusals(span, hole, failures)), ClaimWidth(NarrowAll(span, failures), hole), cap);
  }

  lemma TimesSmaller(p: nat, a: nat, b: nat)
    requires p > 0 && p * a <= p * b
    ensures a <= b
  {
    var d := a - b;
    assert p * d == p * a - p * b;
    assert d >= 1 ==> p * d >= p;
  }

  /** And that is how wide the claims are: a claim is on the first unclaimed range, from its lowest slot. */
  lemma {:induction false} ClaimsAreThatWide(s: seq<Range>, span: Slot)
    requires WellFormed(s) && span >= 1
    ensures var g := Claim(s, span).1; g.Granted? ==>
              exists r :: r in s && !r.claimed && r.from == g.from
                          && g.to - g.from + 1 == ClaimWidth(span, r.to - r.from + 1)
    decreases |s|
  {
    if s != [] {
      if s[0].claimed {
        WellFormedTail(s);
        ClaimsAreThatWide(s[1..], span);
      } else {
        assert s[0] in s;
      }
    }
  }

  /** Until they fit, the refusal of a claim as wide as the span always narrows it. */
  lemma FullWidthRefusalNarrows(span: nat, cap: nat)
    requires span > cap >= 1
    ensures 2 * Narrow(span, span) <= span && Narrow(span, span) >= 1
  {
  }

  // ---------------------------------------------------------------- the worker

  function Perform(s: seq<Range>, a: Action, max: nat): seq<Range> {
    match a
    case Resolved(from, to) => Resolve(s, from, to)
    case Published(_) => s
    case Released(from, to) => Release(s, from, to, max)
  }

  function PerformAll(s: seq<Range>, actions: seq<Action>, max: nat): seq<Range>
    decreases |actions|
  {
    if actions == [] then s else PerformAll(Perform(s, actions[0], max), actions[1..], max)
  }

  function Handed(actions: seq<Action>): seq<Slot>
    decreases |actions|
  {
    if actions == [] then []
    else (if actions[0].Published? then [actions[0].slot] else []) + Handed(actions[1..])
  }

  lemma {:induction false} PerformSnoc(s: seq<Range>, done: seq<Action>, a: Action, max: nat)
    ensures PerformAll(s, done + [a], max) == Perform(PerformAll(s, done, max), a, max)
    decreases |done|
  {
    if done == [] {
      assert ([a])[1..] == [] && done + [a] == [a];
    } else {
      assert (done + [a])[1..] == done[1..] + [a];
      PerformSnoc(Perform(s, done[0], max), done[1..], a, max);
    }
  }

  lemma PerformNothing(s: seq<Range>, max: nat)
    ensures PerformAll(s, [], max) == s && Handed([]) == []
  {
  }

  lemma {:induction false} HandedSnoc(done: seq<Action>, a: Action)
    ensures Handed(done + [a]) == Handed(done) + Handed([a])
    decreases |done|
  {
    if done == [] {
      assert done + [a] == [a];
    } else {
      var all := done + [a];
      assert all[0] == done[0] && all[1..] == done[1..] + [a];
      HandedSnoc(done[1..], a);
    }
  }

  // ---------------------------------------------------------------- what a worker leaves behind

  /** Working a slot takes no other slot off its claim. */
  lemma PerformClaims(s: seq<Range>, a: Action, max: nat, x: int)
    requires WellFormed(s) && a.Start() <= a.End() < NONE
    ensures Holds(Perform(s, a, max), true, x) <==> Holds(s, true, x) && (a.Published? || !a.Covers(x))
  {
    match a
    case Published(_) =>
    case Resolved(from, to) => ResolveHolds(s, from, to, true, x);
    case Released(from, to) => ReleaseHolds(s, from, to, max, x);
  }

  lemma PerformFrees(s: seq<Range>, a: Action, max: nat, x: int)
    requires WellFormed(s) && a.Start() <= a.End() < NONE
    ensures WellFormed(Perform(s, a, max))
    ensures Holds(s, false, x) && !(a.Resolved? && a.Covers(x)) ==> Holds(Perform(s, a, max), false, x)
    ensures a.Released? && a.Covers(x) ==> Holds(Perform(s, a, max), false, x)
  {
    match a
    case Published(_) =>
    case Resolved(from, to) =>
      ResolveWellFormed(s, from, to);
      ResolveHolds(s, from, to, false, x);
    case Released(from, to) =>
      ReleaseWellFormed(s, from, to, max, NONE);
      ReleaseHolds(s, from, to, max, x);
  }

  /** Given up slots leave their claims, those given back are claimable again, and nothing else changes hands. */
  lemma {:induction false} PerformAllLeaves(s: seq<Range>, actions: seq<Action>, from: int, to: int, max: nat, x: int)
    requires WellFormed(s) && Tiles(actions, from, to) && to < NONE
    ensures var t := PerformAll(s, actions, max);
            && WellFormed(t)
            && (Holds(t, true, x) <==> Holds(s, true, x) && !GivenUp(actions, x) && !GivenBack(actions, x))
            && (Holds(s, false, x) && !GivenUp(actions, x) ==> Holds(t, false, x))
            && (GivenBack(actions, x) ==> Holds(t, false, x))
    decreases |actions|
  {
    if actions != [] {
      var a, rest := actions[0], actions[1..];
      PerformClaims(s, a, max, x);
      PerformFrees(s, a, max, x);
      PerformAllLeaves(Perform(s, a, max), rest, a.End() + 1, to, max, x);
      TilesStartAt(rest, a.End() + 1, to);
      assert actions == [a] + rest;
      assert GivenUp(actions, x) <==> (a.Resolved? && a.Covers(x)) || GivenUp(rest, x);
      assert GivenBack(actions, x) <==> (a.Released? && a.Covers(x)) || GivenBack(rest, x);
    }
  }

  /**
   What becomes of a claim, slot by slot: each meets one action; handed on, it stays claimed until it
   is committed; given back, it is claimable; given up, it is off every claim. Other claims stay.
   */
  lemma WorkOutcome(s: seq<Range>, rule: StopRule, o: Oracle, from: Slot, to: Slot, max: nat, x: int) returns (k: nat)
    requires WellFormed(s) && from <= to < NONE && from <= x <= to && Holds(s, true, x)
    ensures var actions, t := Work(rule, o, from, to), PerformAll(s, Work(rule, o, from, to), max);
            && WellFormed(t) && k < |actions| && actions[k].Covers(x)
            && (Holds(t, true, x) <==> actions[k].Published?)
            && (actions[k].Released? ==> Holds(t, false, x))
  {
    var actions := Work(rule, o, from, to);
    WorkTiles(rule, o, from, to);
    hide Work(), PerformAll();
    k := EachSlotOnce(actions, from, to, x);
    PerformAllLeaves(s, actions, from, to, max, x);
    assert actions[k] in actions;
  }

  lemma OtherClaimsStay(s: seq<Range>, rule: StopRule, o: Oracle, from: Slot, to: Slot, max: nat, x: int)
    requires WellFormed(s) && from <= to < NONE && !(from <= x <= to)
    ensures var t := PerformAll(s, Work(rule, o, from, to), max);
            (Holds(t, true, x) <==> Holds(s, true, x)) && (Holds(s, false, x) ==> Holds(t, false, x))
  {
    var actions := Work(rule, o, from, to);
    WorkTiles(rule, o, from, to);
    TilesStartAt(actions, from, to);
    hide Work(), PerformAll();
    PerformAllLeaves(s, actions, from, to, max, x);
  }

  lemma ClaimsWhatIsFree(s: seq<Range>, span: Slot)
    requires WellFormed(s)
    ensures var (t, g) := Claim(s, span);
            && (g.Granted? <==> exists x :: Holds(s, false, x))
            && (g.Granted? ==> g.from <= g.to < NONE) && (g == Nothing ==> t == s)
  {
    ClaimFits(s, if span == 0 then 1 else span);
    SomethingFree(s);
    hide ClaimFirst(), WellFormed(), Holds();
  }

  lemma SomethingFree(s: seq<Range>)
    requires WellFormed(s)
    ensures (exists r :: r in s && !r.claimed) <==> exists x :: Holds(s, false, x)
  {
    if r :| r in s && !r.claimed {
      assert r.Real();
      assert Holds(s, false, r.from);
    }
  }

  // ---------------------------------------------------------------- the loop as a state

  lemma WorkFromUnfolds(o: Oracle, slots: seq<Slot>, i: nat, cursor: Slot, to: Slot)
    requires to < NONE && i < |slots| && !o.stopping(i) && cursor <= slots[i] <= to
    ensures var piece := Skipped(cursor, slots[i]) + [Handle(o, i, slots[i], to)];
            var all := WorkFrom(AsCoded, o, slots, i, cursor, to);
            && piece <= all
            && all[|piece|..] ==
               if Handle(o, i, slots[i], to).Released? then []
               else WorkFrom(AsCoded, o, slots, i + 1, slots[i] + 1, to)
  {
  }

  lemma WorkFromPasses(o: Oracle, slots: seq<Slot>, i: nat, cursor: Slot, to: Slot)
    requires to < NONE
    ensures i >= |slots| || o.stopping(i) ==> WorkFrom(AsCoded, o, slots, i, cursor, to) == Rest(AsCoded, cursor, to)
    ensures i < |slots| && !o.stopping(i) && !(cursor <= slots[i] <= to) ==>
              WorkFrom(AsCoded, o, slots, i, cursor, to) == WorkFrom(AsCoded, o, slots, i + 1, cursor, to)
  {
  }

  /** The loop of `work_range` as a state: what has been performed, and where it goes on. */
  ghost predicate OnTrack(all: seq<Action>, done: seq<Action>, rest: seq<Action>) {
    all == done + rest
  }

  lemma OnTrackStep(all: seq<Action>, done: seq<Action>, piece: seq<Action>, rest: seq<Action>)
    requires OnTrack(all, done, piece + rest)
    ensures OnTrack(all, done + piece, rest)
  {
  }

  class Pool {
    const gaps: GapSet
    var span: Slot
    var handed: seq<Slot> // slots whose block the recovery ring accepted, in order

    ghost predicate Valid()
      reads this, gaps
    {
      gaps.Valid()
    }

    constructor (gaps: GapSet, span: Slot)
      requires gaps.Valid()
      ensures Valid() && this.gaps == gaps && handed == []
      ensures this.span == if span == 0 then DEFAULT_CLAIM_SPAN else span
    {
      this.gaps, this.span, handed := gaps, if span == 0 then DEFAULT_CLAIM_SPAN else span, [];
    }

    /** `narrow_span`. */
    method NarrowSpan(failedWidth: nat)
      modifies this`span
      ensures span == Narrow(old(span), failedWidth)
    {
      if failedWidth <= 1 || span < failedWidth {
        return;
      }
      span := failedWidth / 2;
    }

    /** One action on the gap set, or one block handed to the recovery ring. */
    method Do(a: Action)
      requires Valid()
      modifies this`handed, gaps, gaps.ranges
      ensures Valid() && (gaps.ranges == old(gaps.ranges) || fresh(gaps.ranges))
      ensures gaps.View() == Perform(old(gaps.View()), a, gaps.maxRanges)
      ensures handed == old(handed) + Handed([a])
    {
      match a {
        case Resolved(from, to) => gaps.ResolveRange(from, to);
        case Published(slot) => handed := handed + [slot];
        case Released(from, to) => gaps.ReleaseRange(from, to);
      }
    }

    /** `work_range`: performs the actions of `Work` on the gap set and the recovery ring. */
    method WorkRange(from: Slot, to: Slot, o: Oracle)
      requires Valid() && from <= to < NONE
      modifies this, gaps, gaps.ranges
      ensures Valid() && (gaps.ranges == old(gaps.ranges) || fresh(gaps.ranges))
      ensures gaps.View() == PerformAll(old(gaps.View()), Work(AsCoded, o, from, to), gaps.maxRanges)
      ensures handed == old(handed) + Handed(Work(AsCoded, o, from, to))
      ensures span == if o.blocks == Rejected then Narrow(old(span), to - from + 1) else old(span)
    {
      match o.blocks {
        case NotRetained =>
          Do(Resolved(from, to));
        case Rejected =>
          var width := to - from + 1;
          if width > 1 {
            NarrowSpan(width);
            Do(Released(from, to));
          } else {
            Do(Resolved(from, to));
          }
        case Failed =>
          Do(Released(from, to));
        case Listed(slots) =>
          WorkListed(slots, to, from, o);
      }
    }

    /** One pass of `run_worker`: a claim as wide as the span, worked; or nothing to claim. */
    method ClaimAndWork(o: Oracle) returns (worked: bool)
      requires Valid() && WellFormed(gaps.View())
      modifies this, gaps, gaps.ranges
      ensures Valid() && (gaps.ranges == old(gaps.ranges) || fresh(gaps.ranges))
      ensures span == old(span) || (o.blocks == Rejected && worked && 2 * span <= old(span))
      ensures worked <==> exists x :: Holds(old(gaps.View()), false, x)
      ensures var (claimed, granted) := Claim(old(gaps.View()), old(span));
              && (worked <==> granted.Granted?)
              && (granted.Granted? ==> granted.from <= granted.to < NONE)
              && (granted.Granted? ==>
                    && gaps.View() == PerformAll(claimed, Work(AsCoded, o, granted.from, granted.to), gaps.maxRanges)
                    && handed == old(handed) + Handed(Work(AsCoded, o, granted.from, granted.to)))
              && (!granted.Granted? ==> gaps.View() == old(gaps.View()) && handed == old(handed))
    {
      hide PerformAll(), Work(), Claim(), Handed();
      ClaimsWhatIsFree(gaps.View(), span);
      var granted := gaps.ClaimSpan(span);
      if granted == Nothing {
        return false;
      }
      WorkRange(granted.from, granted.to, o);
      worked := true;
    }

    /** One listed slot. False when the rest of the claim went back with it. */
    method WorkSlot(slot: Slot, i: nat, cursor: Slot, to: Slot, o: Oracle, ghost s: seq<Range>, ghost was: seq<Slot>,
                    ghost all: seq<Action>, ghost done: seq<Action>, ghost rest: seq<Action>)
      returns (goOn: bool, ghost done': seq<Action>, ghost rest': seq<Action>)
      requires Valid() && cursor <= slot <= to < NONE && Performed(s, was, done) && OnTrack(all, done, rest)
      requires var piece := Skipped(cursor, slot) + [Handle(o, i, slot, to)]; piece <= rest
      modifies this`handed, gaps, gaps.ranges
      ensures Valid() && (gaps.ranges == old(gaps.ranges) || fresh(gaps.ranges))
      ensures Performed(s, was, done') && OnTrack(all, done', rest')
      ensures rest' == rest[|Skipped(cursor, slot)| + 1..]
      ensures goOn <==> !Handle(o, i, slot, to).Released?
    {
      hide PerformAll;
      hide Handed;
      ghost var piece := Skipped(cursor, slot) + [Handle(o, i, slot, to)];
      rest' := rest[|piece|..];
      OnTrackStep(all, done, piece, rest');
      ghost var next := done;
      if slot > cursor {
        next := DoNext(Resolved(cursor, slot - 1), s, was, next);
      }
      if o.fetched(i) == Missing {
        goOn := true;
        next := DoNext(Resolved(slot, slot), s, was, next);
      } else if o.fetched(i) == Error {
        goOn := false;
        next := DoNext(Released(slot, to), s, was, next);
      } else if !o.accepted(i) {
        goOn := false;
        next := DoNext(Released(slot, to), s, was, next);
      } else {
        goOn := true;
        next := DoNext(Published(slot), s, was, next);
      }
      assert next == done + piece;
      done' := next;
    }

    method WorkListed(slots: seq<Slot>, to: Slot, from: Slot, o: Oracle)
      requires Valid() && from <= to < NONE
      modifies this`handed, gaps, gaps.ranges
      ensures Valid() && (gaps.ranges == old(gaps.ranges) || fresh(gaps.ranges))
      ensures Performed(old(gaps.View()), old(handed), WorkFrom(AsCoded, o, slots, 0, from, to))
    {
      hide WorkFrom;
      hide PerformAll;
      hide Handed;
      ghost var all := WorkFrom(AsCoded, o, slots, 0, from, to);
      ghost var done, rest := [], all;
      PerformNothing(gaps.View(), gaps.maxRanges);
      var cursor: Slot := from;
      var i := 0;
      while i < |slots|
        invariant i <= |slots| && cursor <= to + 1
        invariant Valid() && (gaps.ranges == old(gaps.ranges) || fresh(gaps.ranges))
        invariant Performed(old(gaps.View()), old(handed), done)
        invariant rest == WorkFrom(AsCoded, o, slots, i, cursor, to) && OnTrack(all, done, rest)
      {
        WorkFromPasses(o, slots, i, cursor, to);
        if o.stopping(i) {
          break;
        }
        var slot := slots[i];
        if slot < cursor || slot > to {
          i := i + 1;
          continue;
        }
        WorkFromUnfolds(o, slots, i, cursor, to);
        var goOn: bool;
        goOn, done, rest := WorkSlot(slot, i, cursor, to, o, old(gaps.View()), old(handed), all, done, rest);
        if !goOn {
          assert all == done;
          return;
        }
        cursor := slot + 1;
        i := i + 1;
      }
      WorkFromPasses(o, slots, i, cursor, to);
      if cursor <= to {
        done := DoNext(Resolved(cursor, to), old(gaps.View()), old(handed), done);
      }
      assert all == done;
    }

    ghost predicate Performed(s: seq<Range>, was: seq<Slot>, done: seq<Action>)
      reads this, gaps, gaps.ranges
      requires Valid()
    {
      gaps.View() == PerformAll(s, done, gaps.maxRanges) && handed == was + Handed(done)
    }

    method DoNext(a: Action, ghost s: seq<Range>, ghost was: seq<Slot>, ghost done: seq<Action>)
      returns (ghost next: seq<Action>)
      requires Valid() && Performed(s, was, done)
      modifies this`handed, gaps, gaps.ranges
      ensures Valid() && (gaps.ranges == old(gaps.ranges) || fresh(gaps.ranges))
      ensures next == done + [a] && Performed(s, was, next)
    {
      hide PerformAll;
      hide Handed;
      PerformSnoc(s, done, a, gaps.maxRanges);
      HandedSnoc(done, a);
      Do(a);
      next := done + [a];
    }
  }
}
