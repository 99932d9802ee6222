/** The bar registry of `src/bar.c`, and what a reorg leaves of it. */
module BarRegistry {
  import opened BarKeys
  import opened Bars
  import opened Options

  type BarMap = map<BarKey, Candle>

  function Lookup(m: BarMap, k: BarKey): Option<Candle> {
    if k in m then Some(m[k]) else None
  }

  function ObserveKey(m: BarMap, x: Input, interval: Interval): BarMap {
    m[KeyOf(x, interval) := Observe(Lookup(m, KeyOf(x, interval)), x)]
  }

  function ObserveSwap(m: BarMap, x: Input): BarMap {
    if Foldable(x) then ObserveKey(ObserveKey(m, x, Second), x, Minute) else m
  }

  /** The registry holds exactly the bars of history `h`. */
  ghost predicate Derived(m: BarMap, h: seq<Input>) {
    forall k :: Lookup(m, k) == Fold(h, Selects(k))
  }

  ghost predicate CleanHistory(h: seq<Input>) {
    forall k :: Clean(h, Selects(k))
  }

  /** Observing a swap extends the derivation by it. */
  lemma ObserveExtends(m: BarMap, h: seq<Input>, x: Input)
    requires Derived(m, h)
    ensures Derived(ObserveSwap(m, x), h + [x])
  {
    forall k ensures Lookup(ObserveSwap(m, x), k) == Fold(h + [x], Selects(k)) {
      FoldSnoc(h, x, Selects(k));
    }
  }

  /**
   A priced and timed swap is folded into two bars and no others: its second's, and that of the minute its
   second is in. Any other swap leaves the registry alone.
   */
  lemma SwapReachesTwoBars(m: BarMap, x: Input, k: BarKey)
    ensures Lookup(ObserveSwap(m, x), k) ==
            if x.hasPrice && x.blockTime > 0 && k.pool == x.pool
               && k.bucket == (if k.interval == Second then x.blockTime else x.blockTime - x.blockTime % 60)
            then Some(Observe(Lookup(m, k), x)) else Lookup(m, k)
  {
  }

  // ---------------------------------------------------------------- reorgs

  function Affected(m: BarMap, from: nat): set<BarKey> {
    set k | k in m && m[k].closeAt.slot >= from
  }

  function Refold(m: BarMap, affected: set<BarKey>, x: Input, interval: Interval): BarMap {
    if KeyOf(x, interval) in affected then ObserveKey(m, x, interval) else m
  }

  function RefoldSwap(m: BarMap, affected: set<BarKey>, x: Input): BarMap {
    if Foldable(x) then Refold(Refold(m, affected, x, Second), affected, x, Minute) else m
  }

  function RefoldAll(m: BarMap, affected: set<BarKey>, survivors: seq<Input>): BarMap
    decreases |survivors|
  {
    if survivors == [] then m
    else RefoldSwap(RefoldAll(m, affected, survivors[..|survivors| - 1]), affected, survivors[|survivors| - 1])
  }

  /** `idx_bar_registry_recompute_range`: clear what the reorg reaches, refold only that. */
  function Recompute(m: BarMap, from: nat, survivors: seq<Input>): BarMap {
    RefoldAll(m - Affected(m, from), Affected(m, from), survivors)
  }

  predicate IsBelow(x: Input, from: nat) { x.at.slot < from }

  /** The history as it stands once everything at or above `from` has been reorged away. */
  function Below(h: seq<Input>, from: nat): seq<Input> {
    Filter(h, (x: Input) => IsBelow(x, from))
  }

  /** The slot of its close alone decides whether a bar has any swap from a slot on. */
  lemma BarReachesSlotIff(h: seq<Input>, sel: Selector, from: nat)
    requires Fold(h, sel).Some?
    ensures Fold(h, sel).value.closeAt.slot >= from <==> exists i :: 0 <= i < |h| && sel(h[i]) && h[i].at.slot >= from
  {
    var c := Fold(h, sel).value;
    FoldIsOhlcv(h, sel);
    if exists i :: 0 <= i < |h| && sel(h[i]) && h[i].at.slot >= from {
      var i :| 0 <= i < |h| && sel(h[i]) && h[i].at.slot >= from;
      CompareIsTotalOrder(h[i].at, c.closeAt, c.closeAt);
    }
  }

  lemma {:induction false} RefoldLookup(m: BarMap, affected: set<BarKey>, survivors: seq<Input>, k: BarKey)
    requires affected !! m.Keys
    ensures Lookup(RefoldAll(m, affected, survivors), k) ==
            if k in affected then Fold(survivors, Selects(k)) else Lookup(m, k)
    decreases |survivors|
  {
    if survivors != [] {
      var n := |survivors| - 1;
      RefoldLookup(m, affected, survivors[..n], k);
      assert survivors == survivors[..n] + [survivors[n]];
      FoldSnoc(survivors[..n], survivors[n], Selects(k));
    }
  }

  /** The survivors of a cleared bucket are, in some order, exactly its swaps below the reorg. */
  ghost predicate SurvivorsOf(h: seq<Input>, from: nat, survivors: seq<Input>, k: BarKey) {
    multiset(Filter(survivors, Selects(k))) == multiset(Filter(Below(h, from), Selects(k)))
  }

  lemma UntouchedBucket(m: BarMap, h: seq<Input>, from: nat, k: BarKey)
    requires Derived(m, h) && k !in Affected(m, from)
    ensures Fold(Below(h, from), Selects(k)) == Lookup(m, k)
  {
    var keep: Selector := (x: Input) => IsBelow(x, from);
    var sel := Selects(k);
    FoldOfFilter(h, keep, sel);
    FoldComesFrom(h, sel);
    assert Lookup(m, k) == Fold(h, sel);
    if Fold(h, sel).Some? { BarReachesSlotIff(h, sel, from); }
    FoldAgrees(h, (x: Input) => keep(x) && sel(x), sel);
  }

  lemma RebuiltBucket(h: seq<Input>, from: nat, survivors: seq<Input>, k: BarKey)
    requires Clean(h, Selects(k)) && SurvivorsOf(h, from, survivors, k)
    ensures Fold(survivors, Selects(k)) == Fold(Below(h, from), Selects(k))
  {
    var sel := Selects(k);
    FilterClean(h, (x: Input) => IsBelow(x, from), sel);
    FilterClean(Below(h, from), sel, sel);
    FoldPermutation(Filter(Below(h, from), sel), Filter(survivors, sel), sel);
    FoldOfOwn(survivors, sel);
    FoldOfOwn(Below(h, from), sel);
  }

  /**
   Recomputing after a reorg is deriving afresh from the swaps below it. Survivors in buckets the
   reorg did not reach may be supplied or not: they are never counted twice.
   */
  lemma RecomputeIsFreshDerivation(m: BarMap, h: seq<Input>, from: nat, survivors: seq<Input>)
    requires Derived(m, h) && CleanHistory(h)
    requires forall k | k in Affected(m, from) :: SurvivorsOf(h, from, survivors, k)
    ensures Derived(Recompute(m, from, survivors), Below(h, from))
  {
    var affected := Affected(m, from);
    forall k ensures Lookup(Recompute(m, from, survivors), k) == Fold(Below(h, from), Selects(k)) {
      RefoldLookup(m - affected, affected, survivors, k);
      if k in affected {
        RebuiltBucket(h, from, survivors, k);
      } else {
        UntouchedBucket(m, h, from, k);
      }
    }
  }

  // ---------------------------------------------------------------- the registry

  class Registry {
    var bars: BarMap

    constructor ()
      ensures bars == map[]
    {
      bars := map[];
    }

    /** `observe_interval`. */
    method ObserveInterval(x: Input, interval: Interval)
      modifies this
      ensures bars == ObserveKey(old(bars), x, interval)
    {
      var key := KeyOf(x, interval);
      if key in bars {
        var bar := bars[key];
        if x.price > bar.high {
          bar := bar.(high := x.price);
        }
        if x.price < bar.low {
          bar := bar.(low := x.price);
        }
        if Compare(x.at, bar.openAt) < 0 {
          bar := bar.(open := x.price, openAt := x.at);
        }
        if Compare(x.at, bar.closeAt) > 0 {
          bar := bar.(close := x.price, closeAt := x.at);
        }
        bar := bar.(baseVolume := bar.baseVolume + BaseVolume(x), quoteVolume := bar.quoteVolume + QuoteVolume(x));
        bar := bar.(swaps := bar.swaps + 1);
        bars := bars[key := bar];
        return;
      }
      bars := bars[key := Single(x)];
    }

    /** `idx_bar_registry_observe`. */
    method ObserveOne(x: Input)
      modifies this
      ensures bars == ObserveSwap(old(bars), x)
    {
      if !Foldable(x) {
        return;
      }
      ObserveInterval(x, Second);
      ObserveInterval(x, Minute);
    }

    /** `refold_if_affected`. */
    method RefoldIfAffected(affected: set<BarKey>, x: Input, interval: Interval)
      modifies this
      ensures bars == Refold(old(bars), affected, x, interval)
    {
      if KeyOf(x, interval) !in affected {
        return;
      }
      ObserveInterval(x, interval);
    }

    /** `idx_bar_registry_recompute_range`. */
    method RecomputeRange(from: nat, survivors: seq<Input>) returns (dropped: nat)
      modifies this
      ensures bars == Recompute(old(bars), from, survivors)
      ensures dropped == |Affected(old(bars), from)|
    {
      var affected: set<BarKey> := {};
      var todo := bars.Keys;
      while todo != {}
        invariant todo <= bars.Keys && bars == old(bars)
        invariant affected == set k | k in bars && k !in todo && bars[k].closeAt.slot >= from
        decreases |todo|
      {
        var key :| key in todo;
        if bars[key].closeAt.slot >= from {
          affected := affected + {key};
        }
        todo := todo - {key};
      }
      assert affected == Affected(bars, from);
      bars := bars - affected;
      dropped := |affected|;
      ghost var cleared := bars;
      for i := 0 to |survivors|
        invariant bars == RefoldAll(cleared, affected, survivors[..i])
      {
        assert survivors[..i + 1][..i] == survivors[..i];
        var x := survivors[i];
        if !Foldable(x) {
          continue;
        }
        RefoldIfAffected(affected, x, Second);
        RefoldIfAffected(affected, x, Minute);
      }
      assert survivors[..|survivors|] == survivors;
    }
  }
}
