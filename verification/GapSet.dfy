/**
 `idx_gaps` as the source runs it: an array of ranges shifted in place, every operation one
 critical section. Each method computes the function of the same name in `Gaps`.
 */
module GapSets {
  import opened Slots
  import opened Gaps

  const DEFAULT_MAX_RANGES: nat := 4096
  const FIRST_CAPACITY: nat := 16

  // Loop progress: the part already handled, then what the function makes of the rest.

  ghost function Coalescing(s: seq<Range>, i: nat): seq<Range>
    requires i <= |s|
  {
    s[..i] + Coalesce(s[i..])
  }

  lemma CoalescingStarts(s: seq<Range>)
    ensures Coalescing(s, 0) == Coalesce(s)
  {
    assert s[0..] == s;
  }

  lemma CoalescingEnds(s: seq<Range>, i: nat)
    requires i <= |s| <= i + 1
    ensures Coalescing(s, i) == s
  {
  }

  lemma CoalescingMerge(s: seq<Range>, i: nat)
    requires i + 1 < |s| && Mergeable(s[i], s[i + 1])
    ensures Coalescing(s[..i] + [Merge(s[i], s[i + 1])] + s[i + 2..], i) == Coalescing(s, i)
  {
    var t := s[..i] + [Merge(s[i], s[i + 1])] + s[i + 2..];
    assert t[..i] == s[..i] && t[i..] == [Merge(s[i], s[i + 1])] + s[i + 2..];
    assert s[i..][0] == s[i] && s[i..][1] == s[i + 1] && s[i..][2..] == s[i + 2..];
  }

  lemma CoalescingSkip(s: seq<Range>, i: nat)
    requires i + 1 < |s| && !Mergeable(s[i], s[i + 1])
    ensures Coalescing(s, i + 1) == Coalescing(s, i)
  {
    assert s[i..][0] == s[i] && s[i..][1] == s[i + 1] && s[i..][1..] == s[i + 1..];
    assert s[..i + 1] == s[..i] + [s[i]];
  }

  ghost function Cutting(s: seq<Range>, i: nat, from: Slot, to: Slot): seq<Range>
    requires i <= |s| && from <= to
  {
    s[..i] + CutAll(s[i..], from, to)
  }

  lemma CuttingStarts(s: seq<Range>, from: Slot, to: Slot)
    requires from <= to
    ensures Cutting(s, 0, from, to) == CutAll(s, from, to)
  {
    assert s[0..] == s;
  }

  lemma CuttingEnds(s: seq<Range>, from: Slot, to: Slot)
    requires from <= to
    ensures Cutting(s, |s|, from, to) == s
  {
  }

  lemma CuttingStep(s: seq<Range>, i: nat, from: Slot, to: Slot)
    requires i < |s| && from <= to
    ensures var cut := Cut(s[i], from, to);
            Cutting(s[..i] + cut + s[i + 1..], i + |cut|, from, to) == Cutting(s, i, from, to)
  {
    var cut := Cut(s[i], from, to);
    var t := s[..i] + cut + s[i + 1..];
    assert t[..i + |cut|] == s[..i] + cut && t[i + |cut|..] == s[i + 1..];
    assert s[i..][0] == s[i] && s[i..][1..] == s[i + 1..];
  }

  lemma {:induction false} InsertSortedAt(s: seq<Range>, r: Range, at: nat)
    requires at <= |s|
    requires forall i | 0 <= i < at :: s[i].from < r.from
    requires at < |s| ==> r.from <= s[at].from
    ensures InsertSorted(s, r) == s[..at] + [r] + s[at..]
  {
    if at > 0 {
      InsertSortedAt(s[1..], r, at - 1);
      assert s[..at] == [s[0]] + s[1..][..at - 1] && s[at..] == s[1..][at - 1..];
    }
  }

  lemma {:induction false} ClaimFirstAt(s: seq<Range>, span: Slot, at: nat)
    requires at <= |s| && span > 0
    requires forall i | 0 <= i < at :: s[i].claimed
    requires at < |s| ==> !s[at].claimed
    ensures at == |s| ==> ClaimFirst(s, span).0 == s && ClaimFirst(s, span).1 == Nothing
    ensures at < |s| ==>
              var (pieces, granted) := ClaimRange(s[at], span);
              && ClaimFirst(s, span).0 == s[..at] + pieces + s[at + 1..]
              && ClaimFirst(s, span).1 == granted
  {
    if at > 0 {
      ClaimFirstAt(s[1..], span, at - 1);
      assert s == [s[0]] + s[1..];
      assert s[..at] == [s[0]] + s[1..][..at - 1];
      hide ClaimRange();
      assert ClaimFirst(s, span).0 == [s[0]] + ClaimFirst(s[1..], span).0;
      if at < |s| { assert s[at + 1..] == s[1..][at..]; }
    }
  }

  lemma SplitSeq(s: seq<Range>, open: seq<Range>, i: nat, low: Range, high: Range)
    requires i < |s| && |open| == |s| + 1 && open[..i] == s[..i] && open[i + 1..] == s[i..]
    ensures open[i := low][i + 1 := high] == s[..i] + [low, high] + s[i + 1..]
  {
    assert open[i + 2..] == open[i + 1..][1..] == s[i..][1..] == s[i + 1..];
  }

  class GapSet {
    var ranges: array<Range>
    var count: nat
    const maxRanges: nat

    ghost predicate Valid()
      reads this
    {
      count <= ranges.Length
    }

    /** The ranges in use, in order. */
    ghost function View(): (s: seq<Range>)
      reads this, ranges
      requires Valid()
      ensures |s| == count
    {
      ranges[..count]
    }

    constructor (max: nat)
      ensures Valid() && View() == [] && fresh(ranges)
      ensures maxRanges == if max != 0 then max else DEFAULT_MAX_RANGES
    {
      maxRanges := if max != 0 then max else DEFAULT_MAX_RANGES;
      ranges := new Range[0];
      count := 0;
    }

    /** Makes room for one more range, doubling the array when it is full. */
    method ReserveOne()
      requires Valid()
      modifies this`ranges
      ensures Valid() && View() == old(View()) && count < ranges.Length
      ensures ranges == old(ranges) || fresh(ranges)
    {
      if count < ranges.Length {
        return;
      }
      var capacity := if ranges.Length == 0 then FIRST_CAPACITY else 2 * ranges.Length;
      var grown := new Range[capacity];
      forall i | 0 <= i < count {
        grown[i] := ranges[i];
      }
      ranges := grown;
    }

    method RemoveAt(index: nat)
      requires Valid() && index < count
      modifies this`count, ranges
      ensures Valid() && View() == old(View()[..index] + View()[index + 1..])
    {
      forall i | index <= i < count - 1 {
        ranges[i] := ranges[i + 1];
      }
      count := count - 1;
    }

    /** Shifts the ranges from `index` up by one, leaving a copy of the one at `index`. */
    method OpenAt(index: nat)
      requires Valid() && index <= count < ranges.Length
      modifies this`count, ranges
      ensures Valid() && count == old(count) + 1
      ensures View()[..index] == old(View()[..index])
      ensures View()[index + 1..] == old(View()[index..])
      ensures index < old(count) ==> View()[index] == old(View()[index])
    {
      forall i | index <= i < count {
        ranges[i + 1] := ranges[i];
      }
      count := count + 1;
    }

    /** Replaces the range at `i` by two. */
    method SplitAt(i: nat, low: Range, high: Range)
      requires Valid() && i < count
      modifies this, ranges
      ensures Valid() && (ranges == old(ranges) || fresh(ranges))
      ensures View() == old(View()[..i]) + [low, high] + old(View()[i + 1..])
    {
      ghost var was := View();
      ReserveOne();
      OpenAt(i);
      SplitSeq(was, View(), i, low, high);
      ghost var open := View();
      ranges[i] := low;
      ranges[i + 1] := high;
      assert View() == open[i := low][i + 1 := high];
    }

    method MergeAt(i: nat)
      requires Valid() && i + 1 < count
      modifies this`count, ranges
      ensures Valid()
      ensures View() == old(View()[..i] + [Merge(View()[i], View()[i + 1])] + View()[i + 2..])
    {
      var a, b := ranges[i], ranges[i + 1];
      if b.to > a.to {
        ranges[i] := a.(to := b.to);
      }
      RemoveAt(i + 1);
    }

    method CoalesceInPlace()
      requires Valid()
      modifies this`count, ranges
      ensures Valid() && View() == Coalesce(old(View()))
    {
      var i := 0;
      while i + 1 < count
        invariant Valid() && (i < count || i == 0)
        invariant Coalescing(View(), i) == Coalescing(old(View()), 0)
        decreases count - i
      {
        var a, b := ranges[i], ranges[i + 1];
        var adjacent := a.to != NONE && a.to + 1 >= b.from;
        if !a.claimed && !b.claimed && adjacent {
          CoalescingMerge(View(), i);
          MergeAt(i);
        } else {
          CoalescingSkip(View(), i);
          i := i + 1;
        }
      }
      CoalescingEnds(View(), i);
      CoalescingStarts(old(View()));
    }

    method FindClosestPair() returns (best: int)
      requires Valid()
      ensures best == ClosestPair(View(), count)
    {
      var bestDistance := NONE;
      best := -1;
      if count == 0 {
        return;
      }
      for i := 0 to count - 1
        invariant best == ClosestPair(View(), i + 1)
        invariant best != -1 ==> bestDistance == Distance(View(), best)
      {
        if ranges[i].claimed || ranges[i + 1].claimed {
          continue;
        }
        var distance := Minus(ranges[i + 1].from, ranges[i].to);
        if best == -1 || distance < bestDistance {
          best, bestDistance := i, distance;
        }
      }
    }

    method CoarsenInPlace()
      requires Valid()
      modifies this`count, ranges
      ensures Valid() && View() == Coarsen(old(View()), maxRanges)
    {
      while count > maxRanges
        invariant Valid() && Coarsen(View(), maxRanges) == Coarsen(old(View()), maxRanges)
        decreases count
      {
        var best := FindClosestPair();
        if best == -1 {
          return;
        }
        SwallowAt(best);
      }
    }

    /** The range at `i` takes over everything up to the end of the next one. */
    method SwallowAt(i: nat)
      requires Valid() && i + 1 < count
      modifies this`count, ranges
      ensures Valid() && count == old(count) - 1 && View() == Swallow(old(View()), i)
    {
      ranges[i] := ranges[i].(to := ranges[i + 1].to);
      RemoveAt(i + 1);
    }

    /** The first range that starts at or after `from`. */
    method PositionOf(from: Slot) returns (at: nat)
      requires Valid()
      ensures at <= count
      ensures forall to :: var r := Range(from, to, false);
                InsertSorted(View(), r) == View()[..at] + [r] + View()[at..]
    {
      at := 0;
      while at < count && ranges[at].from < from
        invariant at <= count
        invariant forall i | 0 <= i < at :: ranges[i].from < from
      {
        at := at + 1;
      }
      forall to ensures var r := Range(from, to, false);
                        InsertSorted(View(), r) == View()[..at] + [r] + View()[at..] {
        InsertSortedAt(View(), Range(from, to, false), at);
      }
    }

    method InsertInPlace(from: Slot, to: Slot)
      requires Valid()
      modifies this, ranges
      ensures Valid() && View() == Insert(old(View()), from, to, maxRanges)
      ensures ranges == old(ranges) || fresh(ranges)
    {
      ReserveOne();
      var at := PositionOf(from);
      OpenAt(at);
      ranges[at] := Range(from, to, false);
      assert View() == old(View()[..at]) + [Range(from, to, false)] + old(View()[at..]);
      CoalesceInPlace();
      CoarsenInPlace();
    }

    /** `idx_gaps_add`: an inverted range, or one that starts nowhere, is ignored. */
    method AddRange(from: Slot, to: Slot)
      requires Valid()
      modifies this, ranges
      ensures Valid() && View() == Add(old(View()), from, to, maxRanges)
      ensures ranges == old(ranges) || fresh(ranges)
    {
      if to < from || from == NONE {
        return;
      }
      InsertInPlace(from, to);
    }

    /** The claimable range at `i` becomes a claim, split when it is wider than `span`. */
    method ClaimAt(i: nat, span: Slot) returns (granted: Claimed)
      requires Valid() && i < count && span > 0
      modifies this, ranges
      ensures Valid() && (ranges == old(ranges) || fresh(ranges))
      ensures View() == old(View()[..i] + ClaimRange(View()[i], span).0 + View()[i + 1..])
      ensures granted == ClaimRange(old(View()[i]), span).1
    {
      var r := ranges[i];
      if Span(r) > span {
        var claimedTo := Plus(r.from, span - 1);
        SplitAt(i, Range(r.from, claimedTo, true), Range(Plus(claimedTo, 1), r.to, false));
        return Granted(r.from, claimedTo);
      }
      ranges[i] := r.(claimed := true);
      return Granted(r.from, r.to);
    }

    /** `idx_gaps_claim`. */
    method ClaimSpan(maxSpan: Slot) returns (granted: Claimed)
      requires Valid()
      modifies this, ranges
      ensures Valid() && View() == Claim(old(View()), maxSpan).0 && granted == Claim(old(View()), maxSpan).1
      ensures ranges == old(ranges) || fresh(ranges)
    {
      var span := if maxSpan == 0 then 1 else maxSpan;
      var i := 0;
      while i < count && ranges[i].claimed
        invariant i <= count
        invariant forall k | 0 <= k < i :: ranges[k].claimed
      {
        i := i + 1;
      }
      ClaimFirstAt(View(), span, i);
      if i == count {
        return Nothing;
      }
      granted := ClaimAt(i, span);
    }

    /** One step of `resolve`: trims, removes or splits the range at `i`. */
    method CutAt(i: nat, from: Slot, to: Slot) returns (next: nat)
      requires Valid() && i < count && from <= to
      modifies this, ranges
      ensures Valid() && (ranges == old(ranges) || fresh(ranges))
      ensures View() == old(View()[..i] + Cut(View()[i], from, to) + View()[i + 1..])
      ensures next == i + |Cut(old(View()[i]), from, to)|
    {
      var r := ranges[i];
      if r.to < from || r.from > to {
        return i + 1;
      }
      if from <= r.from && to >= r.to {
        RemoveAt(i);
        return i;
      }
      if from <= r.from {
        ranges[i] := r.(from := to + 1);
        return i + 1;
      }
      if to >= r.to {
        ranges[i] := r.(to := from - 1);
        return i + 1;
      }
      SplitAt(i, r.(to := from - 1), r.(from := to + 1));
      return i + 2;
    }

    /** `idx_gaps_resolve`. */
    method ResolveRange(from: Slot, to: Slot)
      requires Valid()
      modifies this, ranges
      ensures Valid() && View() == Resolve(old(View()), from, to)
      ensures ranges == old(ranges) || fresh(ranges)
    {
      if to < from {
        return;
      }
      var i: nat := 0;
      while i < count
        invariant Valid() && i <= count
        invariant Cutting(View(), i, from, to) == Cutting(old(View()), 0, from, to)
        invariant ranges == old(ranges) || fresh(ranges)
        decreases count - i
      {
        CuttingStep(View(), i, from, to);
        i := CutAt(i, from, to);
      }
      CuttingEnds(View(), from, to);
      CuttingStarts(old(View()), from, to);
    }

    /** `idx_gaps_release`, with nothing running between its critical sections. */
    method ReleaseRange(from: Slot, to: Slot)
      requires Valid()
      modifies this, ranges
      ensures Valid() && View() == Release(old(View()), from, to, maxRanges)
      ensures ranges == old(ranges) || fresh(ranges)
    {
      if to < from {
        return;
      }
      ResolveRange(from, to);
      InsertInPlace(from, to);
    }

    /** `idx_gaps_watermark`. */
    method ReadWatermark(highestCommitted: Slot) returns (w: Slot)
      requires Valid()
      ensures w == Watermark(View(), highestCommitted)
    {
      var lowest := if count > 0 then ranges[0].from else NONE;
      if lowest == NONE {
        return highestCommitted;
      }
      if lowest == 0 {
        return NONE;
      }
      var trustworthy := lowest - 1;
      if highestCommitted == NONE || trustworthy < highestCommitted {
        return trustworthy;
      }
      return highestCommitted;
    }
  }
}
