/**
 The missing slots, as `src/gaps.c` keeps them: inclusive ranges in an array, sorted and
 disjoint, some of them claimed by a fetcher.

 This module is the mathematical side: one function on sequences of ranges per operation,
 and what each does to the set of slots the ranges hold. `GapSet` runs them in place.
 */
module Gaps {
  import opened Slots

  datatype Range = Range(from: Slot, to: Slot, claimed: bool) {
    predicate Has(x: int) { from <= x <= to }
    predicate Real() { from <= to < NONE }
    predicate Misses(lo: int, hi: int) { to < lo || hi < from }
  }

  /** Some range with this claim status holds slot `x`. */
  ghost predicate Holds(s: seq<Range>, claimed: bool, x: int) {
    exists r :: r in s && r.claimed == claimed && r.Has(x)
  }

  /** Slot `x` is outstanding, claimed or not. */
  ghost predicate Held(s: seq<Range>, x: int) {
    Holds(s, false, x) || Holds(s, true, x)
  }

  /** `a` ends before `b` starts, and two unclaimed ranges do not even touch. */
  predicate Before(a: Range, b: Range) {
    a.to < b.from && (a.claimed || b.claimed || a.to + 1 < b.from)
  }

  /** Non-empty ranges of real slots, sorted, disjoint, and merged where they could be. */
  ghost predicate WellFormed(s: seq<Range>) {
    && (forall i | 0 <= i < |s| :: s[i].Real())
    && (forall i, j | 0 <= i < j < |s| :: Before(s[i], s[j]))
  }

  /** What a sorted insertion leaves: only unclaimed ranges may touch or overlap. */
  ghost predicate Loose(s: seq<Range>) {
    && (forall i | 0 <= i < |s| :: s[i].Real())
    && (forall i, j | 0 <= i < j < |s| :: s[i].from <= s[j].from)
    && (forall i, j | 0 <= i < j < |s| && (s[i].claimed || s[j].claimed) :: s[i].to < s[j].from)
  }

  /** No claimed range of `s` meets [lo, hi]. */
  ghost predicate MissesClaimed(s: seq<Range>, lo: int, hi: int) {
    forall r | r in s && r.claimed :: r.Misses(lo, hi)
  }

  // ---------------------------------------------------------------- operations

  predicate Mergeable(a: Range, b: Range) {
    !a.claimed && !b.claimed && a.to != NONE && a.to + 1 >= b.from
  }

  function Merge(a: Range, b: Range): Range {
    if b.to > a.to then a.(to := b.to) else a
  }

  function Coalesce(s: seq<Range>): seq<Range>
    decreases |s|
  {
    if |s| < 2 then s
    else if Mergeable(s[0], s[1]) then Coalesce([Merge(s[0], s[1])] + s[2..])
    else [s[0]] + Coalesce(s[1..])
  }

  /** The distance `coarsen` minimises, in 64-bit arithmetic. */
  function Distance(s: seq<Range>, i: nat): Slot
    requires i + 1 < |s|
  {
    Minus(s[i + 1].from, s[i].to)
  }

  predicate FreePair(s: seq<Range>, i: int) {
    0 <= i && i + 1 < |s| && !s[i].claimed && !s[i + 1].claimed
  }

  /** The first of the closest unclaimed neighbours among the first `n` ranges, or -1. */
  function ClosestPair(s: seq<Range>, n: nat): (best: int)
    requires n <= |s|
    ensures best == -1 || (FreePair(s, best) && best + 1 < n)
    ensures best == -1 ==> forall i | FreePair(s, i) && i + 1 < n :: false
    ensures best != -1 ==> forall i | FreePair(s, i) && i + 1 < n :: Distance(s, best) <= Distance(s, i)
    ensures best != -1 ==> forall i | FreePair(s, i) && i < best :: Distance(s, best) < Distance(s, i)
  {
    if n < 2 then -1
    else
      var best := ClosestPair(s, n - 1);
      if FreePair(s, n - 2) && (best == -1 || Distance(s, n - 2) < Distance(s, best)) then n - 2 else best
  }

  function Swallow(s: seq<Range>, i: nat): seq<Range>
    requires i + 1 < |s|
  {
    s[..i] + [s[i].(to := s[i + 1].to)] + s[i + 2..]
  }

  function Coarsen(s: seq<Range>, max: nat): seq<Range>
    decreases |s|
  {
    if |s| <= max then s
    else
      var best := ClosestPair(s, |s|);
      if best == -1 then s else Coarsen(Swallow(s, best), max)
  }

  function InsertSorted(s: seq<Range>, r: Range): seq<Range> {
    if s == [] || s[0].from >= r.from then [r] + s else [s[0]] + InsertSorted(s[1..], r)
  }

  function Insert(s: seq<Range>, from: Slot, to: Slot, max: nat): seq<Range> {
    Coarsen(Coalesce(InsertSorted(s, Range(from, to, false))), max)
  }

  function Add(s: seq<Range>, from: Slot, to: Slot, max: nat): seq<Range> {
    if to < from || from == NONE then s else Insert(s, from, to, max)
  }

  /** What is left of one range after [from, to] is resolved. */
  function Cut(r: Range, from: Slot, to: Slot): seq<Range>
    requires from <= to
  {
    if r.to < from || r.from > to then [r]
    else if from <= r.from && to >= r.to then []
    else if from <= r.from then [r.(from := to + 1)]
    else if to >= r.to then [r.(to := from - 1)]
    else [r.(to := from - 1), r.(from := to + 1)]
  }

  function CutAll(s: seq<Range>, from: Slot, to: Slot): seq<Range>
    requires from <= to
  {
    if s == [] then [] else Cut(s[0], from, to) + CutAll(s[1..], from, to)
  }

  function Resolve(s: seq<Range>, from: Slot, to: Slot): seq<Range> {
    if to < from then s else CutAll(s, from, to)
  }

  function Release(s: seq<Range>, from: Slot, to: Slot, max: nat): seq<Range> {
    if to < from then s else Insert(Resolve(s, from, to), from, to, max)
  }

  datatype Claimed = Nothing | Granted(from: Slot, to: Slot)

  /** The width test of a claim, in 64-bit arithmetic: it wraps to 0 on the widest range. */
  function Span(r: Range): Slot { Plus(Minus(r.to, r.from), 1) }

  function ClaimRange(r: Range, span: Slot): (seq<Range>, Claimed)
    requires span > 0
  {
    if Span(r) > span then
      var claimedTo := Plus(r.from, span - 1);
      ([Range(r.from, claimedTo, true), Range(Plus(claimedTo, 1), r.to, false)], Granted(r.from, claimedTo))
    else ([r.(claimed := true)], Granted(r.from, r.to))
  }

  function ClaimFirst(s: seq<Range>, span: Slot): (seq<Range>, Claimed)
    requires span > 0
  {
    if s == [] then ([], Nothing)
    else if s[0].claimed then
      var (rest, granted) := ClaimFirst(s[1..], span);
      ([s[0]] + rest, granted)
    else
      var (pieces, granted) := ClaimRange(s[0], span);
      (pieces + s[1..], granted)
  }

  function Claim(s: seq<Range>, maxSpan: Slot): (seq<Range>, Claimed) {
    ClaimFirst(s, if maxSpan == 0 then 1 else maxSpan)
  }

  function Lowest(s: seq<Range>): Slot {
    if s == [] then NONE else s[0].from
  }

  function Watermark(s: seq<Range>, highestCommitted: Slot): Slot {
    var lowest := Lowest(s);
    if lowest == NONE then highestCommitted
    else if lowest == 0 then NONE
    else if highestCommitted == NONE || lowest - 1 < highestCommitted then lowest - 1
    else highestCommitted
  }
}
