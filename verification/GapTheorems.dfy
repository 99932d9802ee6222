/** What the gap-set operations do to the outstanding slots, and what they keep. */
module GapTheorems {
  import opened Slots
  import opened Gaps
  import opened GapSafety

  // ------------------------------------------------------------ sequences of ranges

  lemma HoldsConcat(s: seq<Range>, t: seq<Range>, c: bool, x: int)
    ensures Holds(s + t, c, x) <==> Holds(s, c, x) || Holds(t, c, x)
  {
    forall r ensures r in s + t <==> r in s || r in t {}
  }

  lemma HoldsOne(r: Range, c: bool, x: int)
    ensures Holds([r], c, x) <==> r.claimed == c && r.Has(x)
  {
    assert r in [r];
  }

  lemma HoldsCons(r: Range, s: seq<Range>, c: bool, x: int)
    ensures Holds([r] + s, c, x) <==> (r.claimed == c && r.Has(x)) || Holds(s, c, x)
  {
    HoldsConcat([r], s, c, x);
    HoldsOne(r, c, x);
  }

  lemma WellFormedCons(a: Range, s: seq<Range>)
    requires WellFormed(s) && a.Real()
    requires forall i | 0 <= i < |s| :: Before(a, s[i])
    ensures WellFormed([a] + s)
  {
  }

  lemma WellFormedTail(s: seq<Range>)
    requires WellFormed(s) && s != []
    ensures WellFormed(s[1..])
  {
  }

  lemma HeadBefore(s: seq<Range>, r: Range)
    requires WellFormed(s) && s != [] && r in s[1..]
    ensures Before(s[0], r)
  {
    var k :| 0 <= k < |s[1..]| && s[1..][k] == r;
    assert Before(s[0], s[k + 1]);
  }

  /** In a well-formed set no slot is both claimed and claimable. */
  lemma OneOwner(s: seq<Range>, x: int)
    requires WellFormed(s) && Holds(s, false, x)
    ensures !Holds(s, true, x)
  {
    var a :| a in s && !a.claimed && a.Has(x);
    var i :| 0 <= i < |s| && s[i] == a;
    forall j | 0 <= j < |s| && s[j].claimed ensures !s[j].Has(x) {
      if i < j { assert Before(s[i], s[j]); }
      if j < i { assert Before(s[j], s[i]); }
    }
  }

  // ------------------------------------------------------------ coalesce and coarsen

  ghost predicate FromSorted(s: seq<Range>) {
    && (forall i | 0 <= i < |s| :: s[i].Real())
    && (forall i, j | 0 <= i < j < |s| :: s[i].from <= s[j].from)
  }

  /** Sorted, with nothing left to merge between unclaimed neighbours. */
  ghost predicate Settled(s: seq<Range>) {
    FromSorted(s) && forall i | FreePair(s, i) :: s[i].to + 1 < s[i + 1].from
  }

  lemma {:induction false} CoalesceSorted(s: seq<Range>)
    requires FromSorted(s)
    ensures FromSorted(Coalesce(s))
    decreases |s|
  {
    if |s| >= 2 {
      if Mergeable(s[0], s[1]) {
        CoalesceSorted([Merge(s[0], s[1])] + s[2..]);
      } else {
        CoalesceSorted(s[1..]);
        CoalesceSpaces(s[1..], NONE);
      }
    }
  }

  lemma CoalesceSettles(s: seq<Range>)
    requires FromSorted(s)
    ensures Settled(Coalesce(s))
    ensures s != [] ==> Coalesce(s) != [] && Coalesce(s)[0].from == s[0].from && Coalesce(s)[0].claimed == s[0].claimed
  {
    CoalesceSorted(s);
    CoalesceSpaces(s, NONE);
  }

  /** Merging touching ranges changes no slot's status. */
  lemma {:induction false} CoalesceHolds(s: seq<Range>, c: bool, x: int)
    requires FromSorted(s)
    ensures Holds(Coalesce(s), c, x) <==> Holds(s, c, x)
    decreases |s|
  {
    if |s| >= 2 {
      assert s == [s[0]] + ([s[1]] + s[2..]);
      HoldsCons(s[0], [s[1]] + s[2..], c, x);
      HoldsCons(s[1], s[2..], c, x);
      if Mergeable(s[0], s[1]) {
        CoalesceHolds([Merge(s[0], s[1])] + s[2..], c, x);
        HoldsCons(Merge(s[0], s[1]), s[2..], c, x);
      } else {
        assert s[1..] == [s[1]] + s[2..];
        CoalesceHolds(s[1..], c, x);
        HoldsCons(s[0], Coalesce(s[1..]), c, x);
      }
    }
  }

  /** Coalescing a sorted insertion restores the whole representation. */
  lemma {:induction false} CoalesceWellFormed(s: seq<Range>)
    requires Loose(s)
    ensures WellFormed(Coalesce(s))
    decreases |s|
  {
    if |s| >= 2 {
      if Mergeable(s[0], s[1]) {
        CoalesceWellFormed([Merge(s[0], s[1])] + s[2..]);
      } else {
        var rest := Coalesce(s[1..]);
        CoalesceWellFormed(s[1..]);
        CoalesceSettles(s[1..]);
        assert rest[0].from == s[1].from;
        forall i | 0 <= i < |rest| ensures Before(s[0], rest[i]) {
          if i > 0 { assert Before(rest[0], rest[i]); }
        }
        WellFormedCons(s[0], rest);
      }
    }
  }

  lemma SwallowedAt(s: seq<Range>, i: nat, m: nat)
    requires i + 1 < |s| && m < |s| - 1
    ensures |Swallow(s, i)| == |s| - 1
    ensures Swallow(s, i)[m] == if m < i then s[m] else if m == i then s[i].(to := s[i + 1].to) else s[m + 1]
  {
  }

  lemma SwallowSettles(s: seq<Range>, i: nat)
    requires Settled(s) && FreePair(s, i)
    ensures Settled(Swallow(s, i))
    ensures Lowest(Swallow(s, i)) == Lowest(s)
  {
    var t := Swallow(s, i);
    SwallowSpaces(s, i, NONE);
    SwallowedAt(s, i, 0);
    forall j | 0 <= j < |t|
      ensures t[j] == if j < i then s[j] else if j == i then s[i].(to := s[i + 1].to) else s[j + 1]
    {
      SwallowedAt(s, i, j);
    }
    hide Swallow;
    assert s[i].from <= s[i + 1].from;
  }

  lemma SwallowHolds(s: seq<Range>, i: nat, c: bool, x: int)
    requires Settled(s) && FreePair(s, i)
    ensures Holds(s, c, x) ==> Holds(Swallow(s, i), c, x)
    ensures Holds(Swallow(s, i), c, x) ==> Holds(s, c, x) || (!c && s[i].to < x < s[i + 1].from)
  {
    var a, b, low, high := s[i], s[i + 1], s[..i], s[i + 2..];
    var wide := a.(to := b.to);
    assert s == low + ([a] + ([b] + high));
    assert Swallow(s, i) == low + ([wide] + high);
    HoldsConcat(low, [a] + ([b] + high), c, x);
    HoldsCons(a, [b] + high, c, x);
    HoldsCons(b, high, c, x);
    HoldsConcat(low, [wide] + high, c, x);
    HoldsCons(wide, high, c, x);
  }

  lemma SwallowWellFormed(s: seq<Range>, i: nat, bound: int)
    requires WellFormed(s) && FreePair(s, i)
    requires forall r | r in s :: r.to < bound
    ensures WellFormed(Swallow(s, i))
    ensures forall r | r in Swallow(s, i) :: r.to < bound
  {
    var t := Swallow(s, i);
    assert forall j | 0 <= j < |t| ::
        t[j] == if j < i then s[j] else if j == i then s[i].(to := s[i + 1].to) else s[j + 1];
    forall j, k | 0 <= j < k < |t| ensures Before(t[j], t[k]) {
      if j < i {
        assert Before(s[j], s[if k <= i then k else k + 1]);
      } else {
        assert Before(s[j + 1], s[k + 1]);
      }
    }
  }

  lemma {:induction false} CoarsenSettles(s: seq<Range>, max: nat)
    requires Settled(s)
    ensures Settled(Coarsen(s, max))
    ensures Lowest(Coarsen(s, max)) == Lowest(s)
    ensures |Coarsen(s, max)| <= max || forall i :: !FreePair(Coarsen(s, max), i)
    decreases |s|
  {
    var best := ClosestPair(s, |s|);
    if |s| > max {
      if best == -1 {
        forall i ensures !FreePair(s, i) {}
      } else {
        SwallowSettles(s, best);
        CoarsenSettles(Swallow(s, best), max);
      }
    }
  }

  /** Coarsening only ever adds unclaimed slots. */
  lemma {:induction false} CoarsenHolds(s: seq<Range>, max: nat, c: bool, x: int)
    requires Settled(s)
    ensures Holds(s, c, x) ==> Holds(Coarsen(s, max), c, x)
    ensures c ==> (Holds(Coarsen(s, max), c, x) ==> Holds(s, c, x))
    decreases |s|
  {
    var best := ClosestPair(s, |s|);
    if |s| > max && best != -1 {
      SwallowSettles(s, best);
      SwallowHolds(s, best, c, x);
      CoarsenHolds(Swallow(s, best), max, c, x);
    }
  }

  // ------------------------------------------------------------ which spaces coarsening fills

  /** The space after range `i` is the narrowest between unclaimed neighbours, the first of the narrowest. */
  ghost predicate Narrowest(s: seq<Range>, i: int) {
    && FreePair(s, i)
    && (forall j | FreePair(s, j) :: s[i + 1].from - s[i].to <= s[j + 1].from - s[j].to)
    && (forall j | FreePair(s, j) && j < i :: s[i + 1].from - s[i].to < s[j + 1].from - s[j].to)
  }

  /** The pair `coarsen` picks is the one with the narrowest space, as plain numbers. */
  lemma ClosestIsNarrowest(s: seq<Range>)
    requires Settled(s)
    ensures var best := ClosestPair(s, |s|);
            if exists i :: FreePair(s, i) then Narrowest(s, best) else best == -1
  {
    forall i | FreePair(s, i) ensures Distance(s, i) == s[i + 1].from - s[i].to {
      assert s[i].to + 1 < s[i + 1].from;
    }
  }

  /** `t` is `s` after some merges, each over the space that was then the narrowest. */
  ghost predicate MergesNarrowest(s: seq<Range>, t: seq<Range>)
    decreases |s|
  {
    s == t || exists i :: Narrowest(s, i) && MergesNarrowest(Swallow(s, i), t)
  }

  /** Coarsening merges over narrowest spaces only, and no more often than the limit asks. */
  lemma {:induction false} CoarsenMergesNarrowest(s: seq<Range>, max: nat)
    requires Settled(s)
    ensures MergesNarrowest(s, Coarsen(s, max))
    ensures |Coarsen(s, max)| >= if |s| <= max then |s| else max
    ensures |s| <= max ==> Coarsen(s, max) == s
    decreases |s|
  {
    var best := ClosestPair(s, |s|);
    if |s| > max && best != -1 {
      ClosestIsNarrowest(s);
      SwallowSettles(s, best);
      CoarsenMergesNarrowest(Swallow(s, best), max);
    }
  }

  /** A space that a merge leaves was there before it, as wide. */
  lemma SpaceWasThere(s: seq<Range>, i: nat, j: int) returns (k: int)
    requires FreePair(s, i) && FreePair(Swallow(s, i), j)
    ensures FreePair(s, k) && s[k].to == Swallow(s, i)[j].to && s[k + 1].from == Swallow(s, i)[j + 1].from
  {
    SwallowedAt(s, i, 0);
    SwallowedAt(s, i, j);
    SwallowedAt(s, i, j + 1);
    hide Swallow;
    k := if j < i then j else j + 1;
  }

  lemma {:induction false} SpaceIsOld(s: seq<Range>, max: nat, j: int) returns (k: int)
    requires Settled(s) && FreePair(Coarsen(s, max), j)
    ensures FreePair(s, k) && s[k].to == Coarsen(s, max)[j].to && s[k + 1].from == Coarsen(s, max)[j + 1].from
    decreases |s|
  {
    var best := ClosestPair(s, |s|);
    if |s| > max && best != -1 {
      var mid := Swallow(s, best);
      SwallowSettles(s, best);
      assert Coarsen(s, max) == Coarsen(mid, max);
      hide Coarsen, Swallow, ClosestPair, Settled;
      k := SpaceIsOld(mid, max, j);
      k := SpaceWasThere(s, best, k);
    } else {
      k := j;
    }
  }

  /** Slot `x` is in the space after range `i` of `s`, which is no wider than any space left in `t`. */
  ghost predicate InNarrowSpace(s: seq<Range>, t: seq<Range>, i: int, x: int) {
    && FreePair(s, i) && s[i].to < x < s[i + 1].from
    && forall j | FreePair(t, j) :: s[i + 1].from - s[i].to <= t[j + 1].from - t[j].to
  }

  /**
   Every slot coarsening makes outstanding lay between two unclaimed neighbours, in a space no wider than
   any that is left between such: as few slots as that takes are asked for again.
   */
  lemma {:induction false} CoarsenFillsNarrowest(s: seq<Range>, max: nat, x: int) returns (i: int)
    requires Settled(s) && Held(Coarsen(s, max), x) && !Held(s, x)
    ensures InNarrowSpace(s, Coarsen(s, max), i, x)
    decreases |s|
  {
    var best := ClosestPair(s, |s|);
    if |s| <= max || best == -1 {
      i := 0;
      assert false;
    } else {
      var t, mid := Coarsen(s, max), Swallow(s, best);
      SwallowSettles(s, best);
      SwallowHolds(s, best, false, x);
      SwallowHolds(s, best, true, x);
      if Held(mid, x) {
        i := best;
        ClosestIsNarrowest(s);
        forall j | FreePair(t, j) ensures s[i + 1].from - s[i].to <= t[j + 1].from - t[j].to {
          var k := SpaceIsOld(s, max, j);
        }
      } else {
        var k := CoarsenFillsNarrowest(mid, max, x);
        i := SpaceWasThere(s, best, k);
      }
    }
  }

  lemma {:induction false} CoarsenWellFormed(s: seq<Range>, max: nat, bound: int)
    requires WellFormed(s)
    requires forall r | r in s :: r.to < bound
    ensures WellFormed(Coarsen(s, max))
    ensures forall r | r in Coarsen(s, max) :: r.to < bound
    decreases |s|
  {
    var best := ClosestPair(s, |s|);
    if |s| > max && best != -1 {
      SwallowWellFormed(s, best, bound);
      CoarsenWellFormed(Swallow(s, best), max, bound);
    }
  }

  // ------------------------------------------------------------ add

  lemma {:induction false} InsertSortedMembers(s: seq<Range>, r: Range)
    ensures forall q :: q in InsertSorted(s, r) <==> q == r || q in s
  {
    if s != [] && s[0].from < r.from {
      InsertSortedMembers(s[1..], r);
    }
  }

  lemma {:induction false} InsertSortedSorts(s: seq<Range>, r: Range)
    requires FromSorted(s) && r.Real()
    ensures FromSorted(InsertSorted(s, r))
  {
    if s != [] && s[0].from < r.from {
      InsertSortedSorts(s[1..], r);
      InsertSortedMembers(s[1..], r);
      var rest := InsertSorted(s[1..], r);
      forall j | 0 <= j < |rest| ensures s[0].from <= rest[j].from {
        assert rest[j] in rest;
      }
    }
  }

  lemma {:induction false} InsertSortedLoose(s: seq<Range>, r: Range)
    requires WellFormed(s) && r.Real() && !r.claimed
    requires MissesClaimed(s, r.from, r.to)
    ensures Loose(InsertSorted(s, r))
  {
    if s != [] && s[0].from < r.from {
      InsertSortedLoose(s[1..], r);
      var rest := InsertSorted(s[1..], r);
      var t := [s[0]] + rest;
      InsertSortedMembers(s[1..], r);
      forall j | 0 < j < |t| ensures s[0].from <= t[j].from && (s[0].claimed || t[j].claimed ==> s[0].to < t[j].from) {
        assert t[j] in rest;
        if t[j] != r {
          HeadBefore(s, t[j]);
        }
      }
    } else {
      forall j | 0 <= j < |s| ensures s[j].claimed ==> r.to < s[j].from {
        assert s[j] in s;
      }
    }
  }

  /** The lowest slot after an insertion, whatever gets merged above it. */
  lemma InsertLowest(s: seq<Range>, from: Slot, to: Slot, max: nat)
    requires WellFormed(s) && from <= to < NONE
    ensures Lowest(Insert(s, from, to, max)) == if s == [] || from <= s[0].from then from else s[0].from
  {
    var r := Range(from, to, false);
    InsertSortedSorts(s, r);
    CoalesceSettles(InsertSorted(s, r));
    CoarsenSettles(Coalesce(InsertSorted(s, r)), max);
  }

  /** `insert` never forgets a slot and never touches a claim; without coarsening it is exact. */
  lemma InsertHolds(s: seq<Range>, from: Slot, to: Slot, max: nat, c: bool, x: int)
    requires WellFormed(s) && from <= to < NONE
    ensures Holds(s, c, x) || (!c && from <= x <= to) ==> Holds(Insert(s, from, to, max), c, x)
    ensures c || |Coalesce(InsertSorted(s, Range(from, to, false)))| <= max ==>
              (Holds(Insert(s, from, to, max), c, x) ==> Holds(s, c, x) || (!c && from <= x <= to))
  {
    var r := Range(from, to, false);
    var t := InsertSorted(s, r);
    InsertSortedSorts(s, r);
    InsertSortedMembers(s, r);
    assert Holds(t, c, x) <==> Holds(s, c, x) || (!c && r.Has(x));
    CoalesceSettles(t);
    CoalesceHolds(t, c, x);
    CoarsenHolds(Coalesce(t), max, c, x);
  }

  lemma {:induction false} CoalesceBound(s: seq<Range>, bound: int)
    requires forall r | r in s :: r.to < bound
    ensures forall r | r in Coalesce(s) :: r.to < bound
    decreases |s|
  {
    if |s| >= 2 {
      assert s[0] in s && s[1] in s;
      if Mergeable(s[0], s[1]) {
        CoalesceBound([Merge(s[0], s[1])] + s[2..], bound);
      } else {
        CoalesceBound(s[1..], bound);
      }
    }
  }

  lemma InsertWellFormed(s: seq<Range>, from: Slot, to: Slot, max: nat, bound: int)
    requires WellFormed(s) && from <= to < NONE && to < bound
    requires MissesClaimed(s, from, to)
    requires forall r | r in s :: r.to < bound
    ensures WellFormed(Insert(s, from, to, max))
    ensures forall r | r in Insert(s, from, to, max) :: r.to < bound
    ensures |Insert(s, from, to, max)| <= max || forall i :: !FreePair(Insert(s, from, to, max), i)
  {
    var r := Range(from, to, false);
    var t := InsertSorted(s, r);
    InsertSortedMembers(s, r);
    InsertSortedLoose(s, r);
    CoalesceWellFormed(t);
    CoalesceSettles(t);
    CoalesceBound(t, bound);
    CoarsenSettles(Coalesce(t), max);
    CoarsenWellFormed(Coalesce(t), max, bound);
  }

  /** Recording a hole makes its slots outstanding and forgets none; an inverted one is ignored. */
  lemma AddHolds(s: seq<Range>, from: Slot, to: Slot, max: nat, x: int)
    requires WellFormed(s) && to < NONE
    ensures Held(s, x) || from <= x <= to ==> Held(Add(s, from, to, max), x)
    ensures Holds(Add(s, from, to, max), true, x) <==> Holds(s, true, x)
    ensures to < from ==> Add(s, from, to, max) == s
  {
    if from <= to {
      InsertHolds(s, from, to, max, true, x);
      InsertHolds(s, from, to, max, false, x);
    }
  }

  /**
   Recording a hole keeps the ranges sorted and disjoint exactly when the hole misses every
   claimed range: a fetcher works from a claim's bounds, so those are never merged into.
   */
  lemma AddWellFormedIff(s: seq<Range>, from: Slot, to: Slot, max: nat)
    requires WellFormed(s) && from <= to < NONE
    ensures WellFormed(Add(s, from, to, max)) <==> MissesClaimed(s, from, to)
  {
    if MissesClaimed(s, from, to) {
      var bound := NONE;
      forall r | r in s ensures r.to < bound {}
      InsertWellFormed(s, from, to, max, bound);
    } else {
      var r :| r in s && r.claimed && !r.Misses(from, to);
      var x := if r.from < from then from else r.from;
      assert Holds(s, true, x);
      InsertHolds(s, from, to, max, true, x);
      InsertHolds(s, from, to, max, false, x);
      if WellFormed(Add(s, from, to, max)) { OneOwner(Add(s, from, to, max), x); }
    }
  }

  // ------------------------------------------------------------ resolve

  lemma CutPieces(r: Range, from: Slot, to: Slot)
    requires r.Real() && from <= to
    ensures forall q | q in Cut(r, from, to) :: q.Real() && r.from <= q.from && q.to <= r.to && q.claimed == r.claimed
    ensures WellFormed(Cut(r, from, to))
  {
  }

  lemma CutHolds(r: Range, from: Slot, to: Slot, c: bool, x: int)
    requires r.Real() && from <= to
    ensures Holds(Cut(r, from, to), c, x) <==> r.claimed == c && r.Has(x) && !(from <= x <= to)
  {
    var cut := Cut(r, from, to);
    if |cut| == 1 { HoldsOne(cut[0], c, x); }
    if |cut| == 2 {
      assert cut == [cut[0]] + [cut[1]];
      HoldsCons(cut[0], [cut[1]], c, x);
      HoldsOne(cut[1], c, x);
    }
  }

  /** `resolve` removes exactly the slots of [from, to], whoever held them. */
  lemma {:induction false} ResolveHolds(s: seq<Range>, from: Slot, to: Slot, c: bool, x: int)
    requires WellFormed(s)
    ensures Holds(Resolve(s, from, to), c, x) <==> Holds(s, c, x) && !(from <= x <= to)
  {
    if from <= to && s != [] {
      ResolveHolds(s[1..], from, to, c, x);
      CutHolds(s[0], from, to, c, x);
      assert s == [s[0]] + s[1..];
      HoldsCons(s[0], s[1..], c, x);
      HoldsConcat(Cut(s[0], from, to), CutAll(s[1..], from, to), c, x);
    }
  }

  lemma {:induction false} ResolveWellFormed(s: seq<Range>, from: Slot, to: Slot)
    requires WellFormed(s)
    ensures WellFormed(Resolve(s, from, to))
    ensures forall q | q in Resolve(s, from, to) ::
              exists r :: r in s && r.from <= q.from && q.to <= r.to && q.claimed == r.claimed
  {
    if from <= to && s != [] {
      WellFormedTail(s);
      ResolveWellFormed(s[1..], from, to);
      CutPieces(s[0], from, to);
      var head, rest := Cut(s[0], from, to), CutAll(s[1..], from, to);
      assert rest == Resolve(s[1..], from, to);
      forall i, j | 0 <= i < |head| && 0 <= j < |rest| ensures Before(head[i], rest[j]) {
        assert rest[j] in rest;
        var r :| r in s[1..] && r.from <= rest[j].from && rest[j].to <= r.to && rest[j].claimed == r.claimed;
        HeadBefore(s, r);
        assert head[i] in head;
      }
    }
  }

  // ------------------------------------------------------------ release

  /** Releasing a range needs no condition: resolving it first takes it off every claim. */
  lemma ReleaseWellFormed(s: seq<Range>, from: Slot, to: Slot, max: nat, bound: int)
    requires WellFormed(s) && from <= to < NONE && to < bound
    requires forall r | r in s :: r.to < bound
    ensures WellFormed(Release(s, from, to, max))
    ensures forall r | r in Release(s, from, to, max) :: r.to < bound
  {
    var t := Resolve(s, from, to);
    ResolveWellFormed(s, from, to);
    forall r | r in t && r.claimed ensures r.Misses(from, to) {
      assert r.Real() by {
        var i :| 0 <= i < |t| && t[i] == r;
      }
      var x := if r.from < from then from else r.from;
      if !r.Misses(from, to) {
        assert Holds(t, true, x);
        ResolveHolds(s, from, to, true, x);
      }
    }
    InsertWellFormed(t, from, to, max, bound);
  }

  /** A released range is claimable again, and every other slot at least as outstanding; without coarsening, exactly. */
  lemma ReleaseHolds(s: seq<Range>, from: Slot, to: Slot, max: nat, x: int)
    requires WellFormed(s) && from <= to < NONE
    ensures Holds(Release(s, from, to, max), true, x) <==> Holds(s, true, x) && !(from <= x <= to)
    ensures Holds(s, false, x) || from <= x <= to ==> Holds(Release(s, from, to, max), false, x)
    ensures |Coalesce(InsertSorted(Resolve(s, from, to), Range(from, to, false)))| <= max ==>
              (Holds(Release(s, from, to, max), false, x) <==> Holds(s, false, x) || from <= x <= to)
  {
    ResolveWellFormed(s, from, to);
    ResolveHolds(s, from, to, true, x);
    ResolveHolds(s, from, to, false, x);
    InsertHolds(Resolve(s, from, to), from, to, max, true, x);
    InsertHolds(Resolve(s, from, to), from, to, max, false, x);
  }

  // ------------------------------------------------------------ claim

  /** Over the whole 64-bit range, a claim is too wide exactly on the one range whose width wraps to 0. */
  lemma ClaimWidthIff(r: Range, span: Slot)
    requires r.from <= r.to && span > 0
    ensures var g := ClaimRange(r, span).1; g.to - g.from + 1 <= span <==> !(r.from == 0 && r.to == NONE)
  {
  }

  /** `q` is a piece of some range of `s`, claimed if that was. */
  ghost predicate PieceOf(q: Range, s: seq<Range>) {
    exists r :: r in s && r.from <= q.from && q.to <= r.to && (r.claimed ==> q.claimed)
  }

  lemma ClaimRangeWellFormed(s: seq<Range>, span: Slot)
    requires WellFormed(s) && s != [] && !s[0].claimed && span > 0
    ensures var pieces := ClaimRange(s[0], span).0;
            && WellFormed(pieces + s[1..]) && Lowest(pieces + s[1..]) == Lowest(s)
            && forall q | q in pieces + s[1..] :: PieceOf(q, s)
  {
    var pieces := ClaimRange(s[0], span).0;
    forall i, j | 0 <= i < |pieces| && 0 <= j < |s[1..]| ensures Before(pieces[i], s[1..][j]) {
      assert Before(s[0], s[j + 1]);
    }
    assert s[0] in s;
  }

  lemma {:induction false} ClaimWellFormed(s: seq<Range>, span: Slot)
    requires WellFormed(s) && span > 0
    ensures WellFormed(ClaimFirst(s, span).0)
    ensures forall q | q in ClaimFirst(s, span).0 :: PieceOf(q, s)
    ensures Lowest(ClaimFirst(s, span).0) == Lowest(s)
  {
    if s != [] {
      if s[0].claimed {
        ClaimWellFormed(s[1..], span);
        var rest := ClaimFirst(s[1..], span).0;
        forall i | 0 <= i < |rest| ensures Before(s[0], rest[i]) {
          assert rest[i] in rest;
          var r :| r in s[1..] && r.from <= rest[i].from && rest[i].to <= r.to;
          HeadBefore(s, r);
        }
        WellFormedCons(s[0], rest);
      } else {
        ClaimRangeWellFormed(s, span);
      }
    }
  }

  ghost predicate InGrant(g: Claimed, x: int) {
    g.Granted? && g.from <= x <= g.to
  }

  /**
   A claim changes no slot's being outstanding: the slots it grants, all claimable before, are
   claimed after, and nothing else moves. Two claims therefore never share a slot.
   */
  lemma {:induction false} ClaimHolds(s: seq<Range>, span: Slot, x: int)
    requires WellFormed(s) && span > 0
    ensures var (t, g) := ClaimFirst(s, span);
            && (Holds(t, true, x) <==> Holds(s, true, x) || InGrant(g, x))
            && (Holds(t, false, x) <==> Holds(s, false, x) && !InGrant(g, x))
            && (InGrant(g, x) ==> Holds(s, false, x))
  {
    if s != [] {
      var c := s[0].claimed;
      assert s == [s[0]] + s[1..];
      HoldsCons(s[0], s[1..], true, x);
      HoldsCons(s[0], s[1..], false, x);
      if c {
        var rest := ClaimFirst(s[1..], span).0;
        ClaimHolds(s[1..], span, x);
        HoldsCons(s[0], rest, true, x);
        HoldsCons(s[0], rest, false, x);
        assert ClaimFirst(s, span).0 == [s[0]] + rest;
      } else {
        var (pieces, g) := ClaimRange(s[0], span);
        ClaimRangeHolds(s[0], span, true, x);
        ClaimRangeHolds(s[0], span, false, x);
        HoldsConcat(pieces, s[1..], true, x);
        HoldsConcat(pieces, s[1..], false, x);
        if s[0].Has(x) {
          OneOwner(s, x);
          forall r | r in s[1..] ensures Before(s[0], r) { HeadBefore(s, r); }
        }
      }
    }
  }

  lemma ClaimRangeHolds(r: Range, span: Slot, c: bool, x: int)
    requires r.Real() && !r.claimed && span > 0
    ensures var (pieces, g) := ClaimRange(r, span);
            Holds(pieces, c, x) <==> r.Has(x) && (c <==> InGrant(g, x))
    ensures InGrant(ClaimRange(r, span).1, x) ==> r.Has(x)
  {
    var (pieces, g) := ClaimRange(r, span);
    if |pieces| == 1 { HoldsOne(pieces[0], c, x); }
    if |pieces| == 2 {
      assert pieces == [pieces[0]] + [pieces[1]];
      HoldsCons(pieces[0], [pieces[1]], c, x);
      HoldsOne(pieces[1], c, x);
    }
  }

  /** A claim fails only when nothing is claimable, and is never wider than `span`. */
  lemma {:induction false} ClaimFits(s: seq<Range>, span: Slot)
    requires WellFormed(s) && span > 0
    ensures var (t, g) := ClaimFirst(s, span);
            && (g == Nothing ==> t == s)
            && (g == Nothing <==> forall r | r in s :: r.claimed)
            && (g.Granted? ==> g.from <= g.to < NONE && g.to - g.from + 1 <= span)
  {
    if s != [] && s[0].claimed {
      ClaimFits(s[1..], span);
    }
  }

  /** A claim takes the lowest claimable slots, and stops short of `span` only where they end. */
  lemma {:induction false} ClaimTakesLowest(s: seq<Range>, span: Slot, x: int)
    requires WellFormed(s) && span > 0
    ensures var g := ClaimFirst(s, span).1;
            g.Granted? && Holds(s, false, x) ==>
              g.from <= x && (g.to - g.from + 1 < span ==> x != g.to + 1)
  {
    if s != [] {
      var g := ClaimFirst(s, span).1;
      assert s == [s[0]] + s[1..];
      HoldsCons(s[0], s[1..], false, x);
      if s[0].claimed {
        ClaimTakesLowest(s[1..], span, x);
      } else {
        forall r | r in s[1..] ensures Before(s[0], r) { HeadBefore(s, r); }
      }
    }
  }

  /** A claim asked for at most `most` slots, or for none, is as wide as that, or as one slot, and no wider. */
  lemma ClaimRespectsLimit(s: seq<Range>, most: Slot, x: int)
    requires WellFormed(s)
    ensures var (t, g) := Claim(s, most);
            && (g.Granted? <==> exists r :: r in s && !r.claimed)
            && (g.Granted? ==> g.from <= g.to && g.to - g.from < (if most == 0 then 1 else most))
            && (g.Granted? && Holds(s, false, x) && g.to - g.from + 1 < most ==> x != g.to + 1)
            && (g.Granted? && Holds(s, false, x) ==> g.from <= x)
  {
    ClaimFits(s, if most == 0 then 1 else most);
    ClaimTakesLowest(s, if most == 0 then 1 else most, x);
  }

  // ------------------------------------------------------------ watermark

  lemma LowestIsLeast(s: seq<Range>, x: int)
    requires WellFormed(s)
    ensures s == [] <==> Lowest(s) == NONE
    ensures s != [] ==> Held(s, Lowest(s))
    ensures Held(s, x) ==> Lowest(s) <= x < NONE
  {
    if s != [] {
      assert s[0] in s && s[0].Has(s[0].from);
      assert s[0].Real();
    }
    if Held(s, x) {
      var r :| r in s && r.Has(x);
      var i :| 0 <= i < |s| && s[i] == r;
      if i > 0 { assert Before(s[0], s[i]); }
    }
  }

  /**
   The watermark is the highest slot, up to the highest committed one, with nothing outstanding
   at or below it; `NONE` says there is no such slot.
   */
  lemma WatermarkIsHighestTrusted(s: seq<Range>, highest: Slot, x: int)
    requires WellFormed(s)
    ensures var w := Rank(Watermark(s, highest));
            && (Held(s, x) ==> w < x)
            && (highest != NONE ==> w <= highest) && (s == [] ==> w == Rank(highest))
            && (w == highest || Held(s, w + 1) || (highest == NONE && s == []))
  {
    LowestIsLeast(s, x);
  }

  lemma WatermarkMonotone(s: seq<Range>, t: seq<Range>, h: Slot, k: Slot)
    requires Lowest(s) <= Lowest(t)
    requires h != NONE && k != NONE && h <= k
    ensures Rank(Watermark(s, h)) <= Rank(Watermark(t, k))
  {
  }

  /**
   `release` is three critical sections, so the watermark can be read between its resolve and its
   insert. That reading is too high exactly when the released tail is the lowest hole and
   something at or above it has been committed.
   */
  lemma SplitReleaseReadsHighIff(s: seq<Range>, from: Slot, to: Slot, highest: Slot)
    requires WellFormed(s) && from <= to < NONE && highest != NONE
    requires Held(s, from)
    ensures Rank(Watermark(Resolve(s, from, to), highest)) > Rank(Watermark(s, highest))
       <==> Lowest(s) == from && from <= highest
  {
    var t := Resolve(s, from, to);
    var low := Lowest(s);
    ResolveWellFormed(s, from, to);
    LowestIsLeast(s, from);
    LowestIsLeast(s, Lowest(t));
    LowestIsLeast(t, low);
    ResolveHolds(s, from, to, true, low);
    ResolveHolds(s, from, to, false, low);
    ResolveHolds(s, from, to, true, Lowest(t));
    ResolveHolds(s, from, to, false, Lowest(t));
  }

  /** Such a reading exists: slot 5 is outstanding, yet the split release lets 9 be persisted. */
  lemma SplitReleaseCounterexample()
    ensures var s := [Range(5, 6, true)];
            && WellFormed(s) && Held(s, 5)
            && Watermark(Resolve(s, 5, 6), 9) == 9
            && Watermark(Release(s, 5, 6, 4096), 9) == 4
  {
    var s := [Range(5, 6, true)];
    assert Held(s, 5) by { assert s[0].Has(5); }
    assert Cut(s[0], 5, 6) == [];
    InsertLowest([], 5, 6, 4096);
  }

  /**
   And a claim can come in between: slot 6 is taken out, a hole at 9 makes the set coarsen across it, and
   the next claim covers it, so that putting it back breaks the shape.
   */
  lemma ReturnOntoClaimCounterexample()
    ensures var s := [Range(5, 5, false), Range(6, 6, true), Range(7, 7, false)];
            var coarse := Insert(Resolve(s, 6, 6), 9, 9, 2);
            && WellFormed(s) && Claim(coarse, 3).1 == Granted(5, 7)
            && !WellFormed(Insert(Claim(coarse, 3).0, 6, 6, 2))
  {
    var a, c, b, hole := Range(5, 5, false), Range(6, 6, true), Range(7, 7, false), Range(9, 9, false);
    var wide := Range(5, 7, false);
    assert WellFormed([a, c, b]);
    MiddleResolved(a, c, b);
    CoarsenedAcross(a, b, hole);
    WideClaimed(wide, hole);
    hide Resolve(), Insert(), Claim();
    var claimed := [wide.(claimed := true), hole];
    assert claimed[0] in claimed && WellFormed(claimed);
    AddWellFormedIff(claimed, 6, 6, 2);
    assert Add(claimed, 6, 6, 2) == Insert(claimed, 6, 6, 2);
  }

  lemma MiddleResolved(a: Range, c: Range, b: Range)
    requires a == Range(5, 5, false) && c == Range(6, 6, true) && b == Range(7, 7, false)
    ensures Resolve([a, c, b], 6, 6) == [a, b]
  {
    assert CutAll([b], 6, 6) == [b] by { assert [b][1..] == [] && [b] + [] == [b]; }
    assert CutAll([c, b], 6, 6) == [b] by { assert [c, b][1..] == [b] && [] + [b] == [b]; }
    assert [a, c, b][1..] == [c, b] && [a] + [b] == [a, b];
  }

  lemma CoarsenedAcross(a: Range, b: Range, hole: Range)
    requires a == Range(5, 5, false) && b == Range(7, 7, false) && hole == Range(9, 9, false)
    ensures Insert([a, b], 9, 9, 2) == [Range(5, 7, false), hole]
  {
    var s := [a, b, hole];
    assert InsertSorted([a, b], hole) == s by {
      assert InsertSorted([], hole) == [hole];
      assert InsertSorted([b], hole) == [b, hole] by { assert [b][1..] == []; }
      assert [a, b][1..] == [b];
    }
    assert hole == Range(9, 9, false);
    assert Coalesce(s) == s by {
      assert s[1..] == [b, hole] && [b, hole][1..] == [hole] && Coalesce([b, hole]) == [b, hole];
    }
    assert ClosestPair(s, 3) == 0;
    var t := [Range(5, 7, false), hole];
    assert Swallow(s, 0) == t && Coarsen(t, 2) == t;
    assert Coarsen(s, 2) == Coarsen(Swallow(s, 0), 2);
  }

  lemma WideClaimed(wide: Range, hole: Range)
    requires wide == Range(5, 7, false)
    ensures Claim([wide, hole], 3) == ([wide.(claimed := true), hole], Granted(5, 7))
  {
    assert ClaimRange(wide, 3) == ([wide.(claimed := true)], Granted(5, 7));
    assert [wide, hole][1..] == [hole] && [wide.(claimed := true)] + [hole] == [wide.(claimed := true), hole];
  }
}
