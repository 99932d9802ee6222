/**
 What the gap-set operations keep of any one slot, with nothing known about the order of the ranges:
 they may overlap and stand out of order, as they do once a hole is recorded across a claim.
 */
module GapSafety {
  import opened Slots
  import opened Gaps

  /** Walking the ranges from the front, `x` is met before any range that starts above it. */
  predicate Meets(s: seq<Range>, x: int) {
    s != [] && s[0].from <= x && (s[0].Has(x) || Meets(s[1..], x))
  }

  ghost predicate Below(s: seq<Range>, bound: int) {
    forall i | 0 <= i < |s| :: s[i].Real() && s[i].to < bound
  }

  /** No two unclaimed neighbours touch. */
  ghost predicate Spaced(s: seq<Range>, bound: int) {
    Below(s, bound) && forall i | FreePair(s, i) :: s[i].to + 1 < s[i + 1].from
  }

  /** A slot that is met is outstanding, and the first range starts no later. */
  lemma {:induction false} MeetsIsHeld(s: seq<Range>, x: int)
    requires Meets(s, x)
    ensures Held(s, x) && Lowest(s) <= x
  {
    if s[0].Has(x) {
      assert s[0] in s;
    } else {
      MeetsIsHeld(s[1..], x);
      var r :| r in s[1..] && r.Has(x);
      assert r in s;
    }
  }

  /** In a well-formed set every outstanding slot is met. */
  lemma {:induction false} HeldIsMet(s: seq<Range>, x: int)
    requires WellFormed(s) && Held(s, x)
    ensures Meets(s, x)
  {
    var r :| r in s && r.Has(x);
    var i :| 0 <= i < |s| && s[i] == r;
    if i > 0 {
      assert Before(s[0], s[i]);
      assert s[1..][i - 1] == r;
      HeldIsMet(s[1..], x);
    }
  }

  // ---------------------------------------------------------------- insert

  lemma {:induction false} InsertSortedMeets(s: seq<Range>, r: Range, x: int)
    ensures Meets(s, x) || r.Has(x) ==> Meets(InsertSorted(s, r), x)
  {
    if s != [] && s[0].from < r.from {
      InsertSortedMeets(s[1..], r, x);
      assert InsertSorted(s, r)[1..] == InsertSorted(s[1..], r);
    } else {
      assert ([r] + s)[1..] == s;
    }
  }

  lemma {:induction false} InsertSortedBelow(s: seq<Range>, r: Range, bound: int)
    requires Below(s, bound) && r.Real() && r.to < bound
    ensures Below(InsertSorted(s, r), bound)
  {
    if s != [] && s[0].from < r.from {
      InsertSortedBelow(s[1..], r, bound);
    }
  }

  lemma {:induction false} CoalesceMeets(s: seq<Range>, x: int)
    requires Meets(s, x)
    ensures Meets(Coalesce(s), x)
    decreases |s|
  {
    if |s| >= 2 {
      assert s[1..][1..] == s[2..];
      if Mergeable(s[0], s[1]) {
        var t := [Merge(s[0], s[1])] + s[2..];
        assert t[1..] == s[2..];
        CoalesceMeets(t, x);
      } else {
        assert Coalesce(s)[1..] == Coalesce(s[1..]);
        if !s[0].Has(x) { CoalesceMeets(s[1..], x); }
      }
    }
  }

  lemma {:induction false} CoalesceSpaces(s: seq<Range>, bound: int)
    requires Below(s, bound)
    ensures Spaced(Coalesce(s), bound)
    ensures s != [] ==> Coalesce(s) != [] && Coalesce(s)[0].from == s[0].from && Coalesce(s)[0].claimed == s[0].claimed
    decreases |s|
  {
    if |s| >= 2 {
      if Mergeable(s[0], s[1]) {
        CoalesceSpaces([Merge(s[0], s[1])] + s[2..], bound);
      } else {
        CoalesceSpaces(s[1..], bound);
        var rest := Coalesce(s[1..]);
        var all := [s[0]] + rest;
        forall i | FreePair(all, i) ensures all[i].to + 1 < all[i + 1].from {
          if i > 0 { assert FreePair(rest, i - 1); }
        }
      }
    }
  }

  lemma {:induction false} SwallowMeets(s: seq<Range>, i: nat, bound: int, x: int)
    requires Spaced(s, bound) && FreePair(s, i) && Meets(s, x)
    ensures Meets(Swallow(s, i), x)
    decreases i
  {
    var t := Swallow(s, i);
    if i == 0 {
      assert t[1..] == s[2..] && s[1..][1..] == s[2..];
      assert s[0].to < s[1].to;
    } else {
      assert t[0] == s[0] && t[1..] == Swallow(s[1..], i - 1);
      assert forall j | FreePair(s[1..], j) :: FreePair(s, j + 1);
      if !s[0].Has(x) { SwallowMeets(s[1..], i - 1, bound, x); }
    }
  }

  lemma SwallowSpaces(s: seq<Range>, i: nat, bound: int)
    requires Spaced(s, bound) && FreePair(s, i)
    ensures Spaced(Swallow(s, i), bound)
  {
    var t := Swallow(s, i);
    assert forall j | 0 <= j < |t| ::
        t[j] == if j < i then s[j] else if j == i then s[i].(to := s[i + 1].to) else s[j + 1];
    forall j | FreePair(t, j) ensures t[j].to + 1 < t[j + 1].from {
      assert FreePair(s, if j < i then j else j + 1);
    }
  }

  lemma {:induction false} CoarsenMeets(s: seq<Range>, max: nat, bound: int, x: int)
    requires Spaced(s, bound)
    ensures Spaced(Coarsen(s, max), bound)
    ensures Meets(s, x) ==> Meets(Coarsen(s, max), x)
    decreases |s|
  {
    var best := ClosestPair(s, |s|);
    if |s| > max && best != -1 {
      SwallowSpaces(s, best, bound);
      if Meets(s, x) { SwallowMeets(s, best, bound, x); }
      CoarsenMeets(Swallow(s, best), max, bound, x);
    }
  }

  /** An insertion forgets no slot that is met, and meets every slot it adds. */
  lemma InsertMeets(s: seq<Range>, from: Slot, to: Slot, max: nat, bound: int, x: int)
    requires Below(s, bound) && from <= to < NONE && to < bound
    ensures Below(Insert(s, from, to, max), bound)
    ensures Meets(s, x) || from <= x <= to ==> Meets(Insert(s, from, to, max), x)
  {
    var r := Range(from, to, false);
    var t := InsertSorted(s, r);
    InsertSortedMeets(s, r, x);
    InsertSortedBelow(s, r, bound);
    CoalesceSpaces(t, bound);
    if Meets(t, x) { CoalesceMeets(t, x); }
    CoarsenMeets(Coalesce(t), max, bound, x);
  }

  // ---------------------------------------------------------------- resolve and release

  lemma MeetsConcat(head: seq<Range>, rest: seq<Range>, x: int)
    requires |head| <= 2 && (Meets(head, x) || ((forall r | r in head :: r.from <= x) && Meets(rest, x)))
    ensures Meets(head + rest, x)
  {
    if |head| == 0 {
      assert head + rest == rest;
    } else if |head| == 1 {
      assert (head + rest)[1..] == rest && head[0] in head;
    } else {
      assert (head + rest)[1..] == [head[1]] + rest && ([head[1]] + rest)[1..] == rest;
      assert head[0] in head && head[1] in head && head[1..] == [head[1]] && head[1..][1..] == [];
    }
  }

  lemma CutMeets(r: Range, from: Slot, to: Slot, x: int)
    requires r.Real() && from <= to && !(from <= x <= to) && r.from <= x
    ensures |Cut(r, from, to)| <= 2
    ensures if r.Has(x) then Meets(Cut(r, from, to), x) else forall q | q in Cut(r, from, to) :: q.from <= x
  {
  }

  /** Resolving a range leaves every other slot where it can be met. */
  lemma {:induction false} ResolveMeets(s: seq<Range>, from: Slot, to: Slot, bound: int, x: int)
    requires Below(s, bound)
    ensures Below(Resolve(s, from, to), bound)
    ensures Meets(s, x) && !(from <= x <= to) ==> Meets(Resolve(s, from, to), x)
  {
    if from <= to && s != [] {
      ResolveMeets(s[1..], from, to, bound, x);
      if Meets(s, x) && !(from <= x <= to) {
        CutMeets(s[0], from, to, x);
        MeetsConcat(Cut(s[0], from, to), CutAll(s[1..], from, to), x);
      }
    }
  }

  /** A release forgets nothing. */
  lemma ReleaseMeets(s: seq<Range>, from: Slot, to: Slot, max: nat, bound: int, x: int)
    requires Below(s, bound) && from <= to < NONE && to < bound
    ensures Below(Release(s, from, to, max), bound)
    ensures Meets(s, x) || from <= x <= to ==> Meets(Release(s, from, to, max), x)
  {
    ResolveMeets(s, from, to, bound, x);
    InsertMeets(Resolve(s, from, to), from, to, max, bound, x);
  }

  // ---------------------------------------------------------------- claim

  /** A claim grants real slots, and leaves every slot where it can be met. */
  lemma {:induction false} ClaimMeets(s: seq<Range>, span: Slot, bound: int, x: int)
    requires Below(s, bound) && span > 0
    ensures var (t, g) := ClaimFirst(s, span);
            && Below(t, bound)
            && (Meets(s, x) ==> Meets(t, x))
            && (g.Granted? ==> g.from <= g.to < NONE && g.to < bound)
  {
    if s != [] {
      var t := ClaimFirst(s, span).0;
      if s[0].claimed {
        ClaimMeets(s[1..], span, bound, x);
        assert t[1..] == ClaimFirst(s[1..], span).0;
      } else {
        var pieces := ClaimRange(s[0], span).0;
        if Meets(s, x) { MeetsConcat(pieces, s[1..], x); }
      }
    }
  }
}
