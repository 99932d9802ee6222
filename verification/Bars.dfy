/**
 OHLCV bars (`src/bar.c`): the fold of priced swaps, its independent meaning, and the merge that
 `src/pg_store.c` writes as an ON CONFLICT clause. Prices and volumes are exact.
 */
module Bars {
  import opened BarKeys
  import opened Numbers
  import opened Options

  datatype Input = Input(
    pool: Pubkey,
    hasPrice: bool,
    price: real,
    quote: nat,
    baseAmount: nat,
    baseDecimals: nat,
    quoteAmount: nat,
    quoteDecimals: nat,
    blockTime: int,
    at: BarSeq
  )

  datatype Candle = Candle(
    quote: nat,
    open: real,
    high: real,
    low: real,
    close: real,
    baseVolume: real,
    quoteVolume: real,
    swaps: nat,
    openAt: BarSeq,
    closeAt: BarSeq
  )

  function Pow10(n: nat): (p: real)
    ensures p > 0.0
  {
    if n == 0 then 1.0 else 10.0 * Pow10(n - 1)
  }

  function BaseVolume(x: Input): real { x.baseAmount as real / Pow10(x.baseDecimals) }
  function QuoteVolume(x: Input): real { x.quoteAmount as real / Pow10(x.quoteDecimals) }

  predicate Foldable(x: Input) { x.hasPrice && x.blockTime > 0 }

  /** Rounds a time down to its interval; `Foldable` lets only positive times get this far. */
  function BucketOf(time: int, interval: Interval): int {
    time / Width(interval) * Width(interval)
  }

  function KeyOf(x: Input, interval: Interval): BarKey {
    BarKey(x.pool, interval, BucketOf(x.blockTime, interval))
  }

  // ---------------------------------------------------------------- one swap, two candles

  function Single(x: Input): Candle {
    Candle(x.quote, x.price, x.price, x.price, x.price, BaseVolume(x), QuoteVolume(x), 1, x.at, x.at)
  }

  /** `observe_interval` on an existing bar. */
  function Update(c: Candle, x: Input): Candle {
    var first, last := Compare(x.at, c.openAt) < 0, Compare(x.at, c.closeAt) > 0;
    Candle(
      c.quote,
      if first then x.price else c.open,
      if x.price > c.high then x.price else c.high,
      if x.price < c.low then x.price else c.low,
      if last then x.price else c.close,
      c.baseVolume + BaseVolume(x),
      c.quoteVolume + QuoteVolume(x),
      c.swaps + 1,
      if first then x.at else c.openAt,
      if last then x.at else c.closeAt)
  }

  function Observe(c: Option<Candle>, x: Input): Candle {
    if c == None then Single(x) else Update(c.value, x)
  }

  /** The `put_bar` conflict clause: `bars` is the stored row, `excluded` the one being written. */
  function Merge(bars: Candle, excluded: Candle): Candle {
    Candle(
      excluded.quote,
      if Compare(excluded.openAt, bars.openAt) < 0 then excluded.open else bars.open,
      if bars.high >= excluded.high then bars.high else excluded.high,
      if bars.low <= excluded.low then bars.low else excluded.low,
      if Compare(excluded.closeAt, bars.closeAt) > 0 then excluded.close else bars.close,
      bars.baseVolume + excluded.baseVolume,
      bars.quoteVolume + excluded.quoteVolume,
      bars.swaps + excluded.swaps,
      if Compare(excluded.openAt, bars.openAt) < 0 then excluded.openAt else bars.openAt,
      if Compare(excluded.closeAt, bars.closeAt) > 0 then excluded.closeAt else bars.closeAt)
  }

  function MergeOpt(a: Option<Candle>, b: Option<Candle>): Option<Candle> {
    if a == None then b else if b == None then a else Some(Merge(a.value, b.value))
  }

  lemma MergeAssociative(a: Candle, b: Candle, c: Candle)
    ensures Merge(Merge(a, b), c) == Merge(a, Merge(b, c))
  {
    CompareIsTotalOrder(a.openAt, b.openAt, c.openAt);
    CompareIsTotalOrder(c.openAt, b.openAt, a.openAt);
    CompareIsTotalOrder(b.openAt, a.openAt, c.openAt);
    CompareIsTotalOrder(a.closeAt, b.closeAt, c.closeAt);
    CompareIsTotalOrder(c.closeAt, b.closeAt, a.closeAt);
  }

  lemma MergeCommutative(a: Candle, b: Candle)
    requires a.quote == b.quote && a.openAt != b.openAt && a.closeAt != b.closeAt
    ensures Merge(a, b) == Merge(b, a)
  {
  }

  /** Folding a swap in is merging with the bar of that swap alone. */
  lemma UpdateIsMerge(c: Candle, x: Input)
    requires c.quote == x.quote
    ensures Update(c, x) == Merge(c, Single(x))
  {
  }

  // ---------------------------------------------------------------- the fold

  type Selector = Input -> bool

  /** The bar of the selected swaps, folded in the order they arrive. */
  function Fold(h: seq<Input>, sel: Selector): Option<Candle>
    decreases |h|
  {
    if h == [] then None
    else
      var before, x := Fold(h[..|h| - 1], sel), h[|h| - 1];
      if sel(x) then Some(Observe(before, x)) else before
  }

  /** Distinct places and one quote among the selected swaps. */
  ghost predicate Clean(h: seq<Input>, sel: Selector) {
    && (forall i, j | 0 <= i < j < |h| && sel(h[i]) && sel(h[j]) :: h[i].at != h[j].at)
    && (forall i, j | 0 <= i < |h| && 0 <= j < |h| && sel(h[i]) && sel(h[j]) :: h[i].quote == h[j].quote)
  }

  lemma FoldSnoc(h: seq<Input>, x: Input, sel: Selector)
    ensures Fold(h + [x], sel) == if sel(x) then Some(Observe(Fold(h, sel), x)) else Fold(h, sel)
  {
    assert (h + [x])[..|h|] == h;
  }

  /** Open, close and quote come from swaps that were folded. */
  lemma {:induction false} FoldComesFrom(h: seq<Input>, sel: Selector)
    ensures Fold(h, sel) == None <==> forall i | 0 <= i < |h| :: !sel(h[i])
    ensures Fold(h, sel).Some? ==>
              var c := Fold(h, sel).value;
              && (exists i :: 0 <= i < |h| && sel(h[i]) && c.openAt == h[i].at)
              && (exists i :: 0 <= i < |h| && sel(h[i]) && c.closeAt == h[i].at)
              && (exists i :: 0 <= i < |h| && sel(h[i]) && c.quote == h[i].quote)
    decreases |h|
  {
    if h != [] {
      var n := |h| - 1;
      FoldComesFrom(h[..n], sel);
      assert forall i | 0 <= i < n :: h[..n][i] == h[i];
      assert sel(h[n]) ==> h[n] == h[|h| - 1];
    }
  }

  // ---------------------------------------------------------------- what a bar means

  ghost function Sum(h: seq<Input>, sel: Selector, f: Input -> real): real
    decreases |h|
  {
    if h == [] then 0.0 else Sum(h[..|h| - 1], sel, f) + if sel(h[|h| - 1]) then f(h[|h| - 1]) else 0.0
  }

  ghost function Number(h: seq<Input>, sel: Selector): nat
    decreases |h|
  {
    if h == [] then 0 else Number(h[..|h| - 1], sel) + if sel(h[|h| - 1]) then 1 else 0
  }

  /** `amount` of the smallest unit, in whole ones. */
  ghost function Units(amount: nat, decimals: nat): (r: real)
    ensures r * (Pow(10, decimals) as real) == amount as real
  {
    PowPositive(10, decimals);
    amount as real / (Pow(10, decimals) as real)
  }

  ghost function BaseUnits(x: Input): real { Units(x.baseAmount, x.baseDecimals) }
  ghost function QuoteUnits(x: Input): real { Units(x.quoteAmount, x.quoteDecimals) }

  lemma {:induction false} Pow10IsPow(n: nat)
    ensures Pow10(n) == Pow(10, n) as real
  {
    if n > 0 { Pow10IsPow(n - 1); }
  }

  /** Each amount is scaled by its own side's decimals. */
  lemma VolumesScale(x: Input)
    ensures BaseVolume(x) == BaseUnits(x) && QuoteVolume(x) == QuoteUnits(x)
    ensures BaseVolume(x) * (Pow(10, x.baseDecimals) as real) == x.baseAmount as real
    ensures QuoteVolume(x) * (Pow(10, x.quoteDecimals) as real) == x.quoteAmount as real
  {
    Pow10IsPow(x.baseDecimals);
    Pow10IsPow(x.quoteDecimals);
  }

  /** Selected swap `i` is the first to arrive of those at `at`, and has this price. */
  ghost predicate ArrivesFirst(h: seq<Input>, sel: Selector, i: int, at: BarSeq, price: real) {
    && 0 <= i < |h| && sel(h[i]) && h[i].at == at && h[i].price == price
    && forall j | 0 <= j < i && sel(h[j]) :: h[j].at != at
  }

  /** The earliest selected swap is at `at` and has this price. */
  ghost predicate OpensWith(at: BarSeq, price: real, h: seq<Input>, sel: Selector) {
    && (exists i :: ArrivesFirst(h, sel, i, at, price))
    && (forall i | 0 <= i < |h| && sel(h[i]) :: Compare(at, h[i].at) <= 0)
  }

  /** The latest selected swap is at `at` and has this price. */
  ghost predicate ClosesWith(at: BarSeq, price: real, h: seq<Input>, sel: Selector) {
    && (exists i :: ArrivesFirst(h, sel, i, at, price))
    && (forall i | 0 <= i < |h| && sel(h[i]) :: Compare(h[i].at, at) <= 0)
  }

  ghost predicate HighestIs(price: real, h: seq<Input>, sel: Selector) {
    && (exists i :: 0 <= i < |h| && sel(h[i]) && h[i].price == price)
    && (forall i | 0 <= i < |h| && sel(h[i]) :: h[i].price <= price)
  }

  ghost predicate LowestIs(price: real, h: seq<Input>, sel: Selector) {
    && (exists i :: 0 <= i < |h| && sel(h[i]) && h[i].price == price)
    && (forall i | 0 <= i < |h| && sel(h[i]) :: price <= h[i].price)
  }

  /** The first selected swap to arrive has this quote mint. */
  ghost predicate QuotedAs(quote: nat, h: seq<Input>, sel: Selector) {
    exists i :: 0 <= i < |h| && sel(h[i]) && h[i].quote == quote && NoneSelected(h[..i], sel)
  }

  lemma QuoteStays(h: seq<Input>, x: Input, sel: Selector, quote: nat)
    requires QuotedAs(quote, h, sel) || (sel(x) && x.quote == quote && NoneSelected(h, sel))
    ensures QuotedAs(quote, h + [x], sel)
  {
    var i := |h|;
    if QuotedAs(quote, h, sel) {
      i :| 0 <= i < |h| && sel(h[i]) && h[i].quote == quote && NoneSelected(h[..i], sel);
    }
    var all := h + [x];
    assert all[..i] == h[..i] && h[..|h|] == h;
    assert sel(all[i]) && all[i].quote == quote && NoneSelected(all[..i], sel);
  }

  /** The bar of a set of swaps, said without folding anything. */
  ghost predicate IsOhlcv(c: Candle, h: seq<Input>, sel: Selector) {
    && OpensWith(c.openAt, c.open, h, sel) && ClosesWith(c.closeAt, c.close, h, sel)
    && HighestIs(c.high, h, sel) && LowestIs(c.low, h, sel)
    && c.baseVolume == Sum(h, sel, BaseUnits) && c.quoteVolume == Sum(h, sel, QuoteUnits)
    && c.swaps == Number(h, sel) && QuotedAs(c.quote, h, sel)
  }

  ghost predicate NoneSelected(h: seq<Input>, sel: Selector) {
    forall i | 0 <= i < |h| :: !sel(h[i])
  }

  lemma OpenStep(h: seq<Input>, sel: Selector, x: Input, was: Candle, now: Candle)
    requires sel(x) && now == Update(was, x) && OpensWith(was.openAt, was.open, h, sel)
    ensures OpensWith(now.openAt, now.open, h + [x], sel)
  {
    var all := h + [x];
    assert all[|h|] == x && forall i | 0 <= i < |h| :: all[i] == h[i];
    var k :| ArrivesFirst(h, sel, k, was.openAt, was.open);
    CompareIsTotalOrder(x.at, was.openAt, x.at);
    assert ArrivesFirst(all, sel, if Compare(x.at, was.openAt) < 0 then |h| else k, now.openAt, now.open);
    forall i | 0 <= i < |all| && sel(all[i]) ensures Compare(now.openAt, all[i].at) <= 0 {
      CompareIsTotalOrder(now.openAt, was.openAt, all[i].at);
    }
  }

  lemma CloseStep(h: seq<Input>, sel: Selector, x: Input, was: Candle, now: Candle)
    requires sel(x) && now == Update(was, x) && ClosesWith(was.closeAt, was.close, h, sel)
    ensures ClosesWith(now.closeAt, now.close, h + [x], sel)
  {
    var all := h + [x];
    assert all[|h|] == x && forall i | 0 <= i < |h| :: all[i] == h[i];
    var k :| ArrivesFirst(h, sel, k, was.closeAt, was.close);
    CompareIsTotalOrder(x.at, was.closeAt, x.at);
    assert ArrivesFirst(all, sel, if Compare(x.at, was.closeAt) > 0 then |h| else k, now.closeAt, now.close);
    forall i | 0 <= i < |all| && sel(all[i]) ensures Compare(all[i].at, now.closeAt) <= 0 {
      CompareIsTotalOrder(all[i].at, was.closeAt, now.closeAt);
    }
  }

  lemma RangeStep(h: seq<Input>, sel: Selector, x: Input, was: Candle, now: Candle)
    requires sel(x) && now == Update(was, x) && HighestIs(was.high, h, sel) && LowestIs(was.low, h, sel)
    ensures HighestIs(now.high, h + [x], sel) && LowestIs(now.low, h + [x], sel)
  {
    var all := h + [x];
    assert all[|h|] == x && forall i | 0 <= i < |h| :: all[i] == h[i];
  }

  lemma TotalsSnoc(h: seq<Input>, x: Input, sel: Selector)
    ensures Sum(h + [x], sel, BaseUnits) == Sum(h, sel, BaseUnits) + if sel(x) then BaseVolume(x) else 0.0
    ensures Sum(h + [x], sel, QuoteUnits) == Sum(h, sel, QuoteUnits) + if sel(x) then QuoteVolume(x) else 0.0
    ensures Number(h + [x], sel) == Number(h, sel) + if sel(x) then 1 else 0
  {
    assert (h + [x])[..|h|] == h;
    VolumesScale(x);
  }

  lemma FirstSwap(h: seq<Input>, x: Input, sel: Selector)
    requires sel(x) && NoneSelected(h, sel)
    requires Sum(h, sel, BaseUnits) == 0.0 && Sum(h, sel, QuoteUnits) == 0.0 && Number(h, sel) == 0
    ensures IsOhlcv(Single(x), h + [x], sel)
  {
    hide OpensWith, ClosesWith, HighestIs, LowestIs, QuotedAs, NoneSelected;
    hide Sum, Number, BaseVolume, QuoteVolume, BaseUnits, QuoteUnits;
    TotalsSnoc(h, x, sel);
    QuoteStays(h, x, sel, x.quote);
    FirstExtremes(h, x, sel);
  }

  lemma FirstExtremes(h: seq<Input>, x: Input, sel: Selector)
    requires sel(x) && NoneSelected(h, sel)
    ensures OpensWith(x.at, x.price, h + [x], sel) && ClosesWith(x.at, x.price, h + [x], sel)
    ensures HighestIs(x.price, h + [x], sel) && LowestIs(x.price, h + [x], sel)
  {
    var all := h + [x];
    assert all[|h|] == x && forall i | 0 <= i < |h| :: all[i] == h[i];
    CompareIsTotalOrder(x.at, x.at, x.at);
    assert ArrivesFirst(all, sel, |h|, x.at, x.price);
  }

  lemma NextSwap(h: seq<Input>, x: Input, sel: Selector, was: Candle)
    requires sel(x) && IsOhlcv(was, h, sel)
    ensures IsOhlcv(Update(was, x), h + [x], sel)
  {
    hide OpensWith, ClosesWith, HighestIs, LowestIs, QuotedAs;
    hide Sum, Number, BaseVolume, QuoteVolume, BaseUnits, QuoteUnits;
    QuoteStays(h, x, sel, was.quote);
    OpenStep(h, sel, x, was, Update(was, x));
    CloseStep(h, sel, x, was, Update(was, x));
    RangeStep(h, sel, x, was, Update(was, x));
    TotalsSnoc(h, x, sel);
  }

  lemma OtherSwap(h: seq<Input>, x: Input, sel: Selector, was: Candle)
    requires !sel(x) && IsOhlcv(was, h, sel)
    ensures IsOhlcv(was, h + [x], sel)
  {
    hide QuotedAs, Sum, Number, BaseUnits, QuoteUnits, BaseVolume, QuoteVolume;
    TotalsSnoc(h, x, sel);
    QuoteStays(h, x, sel, was.quote);
    var all := h + [x];
    assert all[|h|] == x && forall i | 0 <= i < |h| :: all[i] == h[i];
    var k :| ArrivesFirst(h, sel, k, was.openAt, was.open);
    var m :| ArrivesFirst(h, sel, m, was.closeAt, was.close);
    assert ArrivesFirst(all, sel, k, was.openAt, was.open) && ArrivesFirst(all, sel, m, was.closeAt, was.close);
  }

  /**
   A bar opens at the price of the earliest swap in execution order and closes at that of the
   latest, whatever order they arrived in; high and low are the extremes, volumes and count sums, and
   the quote is that of the first swap to arrive.
   */
  lemma {:induction false} FoldIsOhlcv(h: seq<Input>, sel: Selector)
    ensures Fold(h, sel).Some? ==> IsOhlcv(Fold(h, sel).value, h, sel)
    ensures Fold(h, sel) == None ==>
              NoneSelected(h, sel)
              && Sum(h, sel, BaseUnits) == 0.0 && Sum(h, sel, QuoteUnits) == 0.0 && Number(h, sel) == 0
    decreases |h|
  {
    hide IsOhlcv;
    if h != [] {
      var before, x := h[..|h| - 1], h[|h| - 1];
      assert h == before + [x];
      FoldIsOhlcv(before, sel);
      TotalsSnoc(before, x, sel);
      if Fold(before, sel).Some? {
        if sel(x) { NextSwap(before, x, sel, Fold(before, sel).value); }
        else { OtherSwap(before, x, sel, Fold(before, sel).value); }
      } else if sel(x) {
        FirstSwap(before, x, sel);
      }
    }
  }

  // ---------------------------------------------------------------- arrival order

  lemma ObserveCommutes(c: Option<Candle>, x: Input, y: Input)
    requires x.at != y.at && x.quote == y.quote && (c.Some? ==> c.value.quote == x.quote)
    ensures Observe(Some(Observe(c, x)), y) == Observe(Some(Observe(c, y)), x)
  {
    UpdateIsMerge(Single(x), y);
    UpdateIsMerge(Single(y), x);
    MergeCommutative(Single(x), Single(y));
    if c.Some? {
      UpdateIsMerge(c.value, x);
      UpdateIsMerge(Update(c.value, x), y);
      UpdateIsMerge(c.value, y);
      UpdateIsMerge(Update(c.value, y), x);
      MergeAssociative(c.value, Single(x), Single(y));
      MergeAssociative(c.value, Single(y), Single(x));
    }
  }

  /** A swap may as well have arrived last. */
  lemma {:induction false} FoldMovesToEnd(a: seq<Input>, x: Input, b: seq<Input>, sel: Selector)
    requires Clean(a + [x] + b, sel)
    ensures Fold(a + [x] + b, sel) == Fold(a + b + [x], sel)
    decreases |b|
  {
    var all := a + [x] + b;
    if b == [] {
      assert all == a + [x] && a + b + [x] == a + [x];
    } else {
      var n := |b| - 1;
      var y, mid := b[n], b[..n];
      assert all == (a + [x] + mid) + [y] && a + b == (a + mid) + [y];
      assert forall i | 0 <= i < |all| - 1 :: (a + [x] + mid)[i] == all[i];
      FoldMovesToEnd(a, x, mid, sel);
      FoldSnoc(a + [x] + mid, y, sel);
      FoldSnoc(a + mid, x, sel);
      FoldSnoc(a + mid, y, sel);
      FoldSnoc(a + b, x, sel);
      if sel(x) && sel(y) {
        assert all[|a|] == x && all[|all| - 1] == y;
        QuoteOfPart(all, a + mid, x, sel);
        ObserveCommutes(Fold(a + mid, sel), x, y);
      }
    }
  }

  lemma QuoteOfPart(all: seq<Input>, part: seq<Input>, x: Input, sel: Selector)
    requires Clean(all, sel) && x in all && sel(x)
    requires forall y | y in part :: y in all
    ensures Fold(part, sel).Some? ==> Fold(part, sel).value.quote == x.quote
  {
    FoldComesFrom(part, sel);
    if Fold(part, sel).Some? {
      var i :| 0 <= i < |part| && sel(part[i]) && Fold(part, sel).value.quote == part[i].quote;
      assert part[i] in part;
      var j :| 0 <= j < |all| && all[j] == part[i];
      var k :| 0 <= k < |all| && all[k] == x;
    }
  }

  /** `x` may join the selected swaps of `h`. */
  ghost predicate Joins(h: seq<Input>, x: Input, sel: Selector) {
    forall y | y in h && sel(y) && sel(x) :: y.at != x.at && y.quote == x.quote
  }

  lemma CleanSnoc(h: seq<Input>, x: Input, sel: Selector)
    requires Clean(h, sel) && Joins(h, x, sel)
    ensures Clean(h + [x], sel)
  {
    var all := h + [x];
    assert all[|h|] == x && forall i | 0 <= i < |h| :: all[i] == h[i] && h[i] in h;
  }

  lemma JoinsRest(h: seq<Input>, i: nat, sel: Selector)
    requires i < |h| && Clean(h, sel)
    ensures Joins(h[..i] + h[i + 1..], h[i], sel)
  {
    var rest := h[..i] + h[i + 1..];
    forall y | y in rest && sel(y) && sel(h[i]) ensures y.at != h[i].at && y.quote == h[i].quote {
      var k :| 0 <= k < |rest| && rest[k] == y;
      assert y == h[if k < i then k else k + 1];
    }
  }

  lemma TakeOut(h: seq<Input>, i: nat, sel: Selector)
    requires i < |h| && Clean(h, sel)
    ensures var rest := h[..i] + h[i + 1..];
            && Clean(rest, sel) && Fold(h, sel) == Fold(rest + [h[i]], sel)
            && multiset(h) == multiset(rest) + multiset{h[i]}
  {
    var a, b := h[..i], h[i + 1..];
    assert h == a + [h[i]] + b;
    FoldMovesToEnd(a, h[i], b, sel);
    CleanWithout(a, h[i], b, sel);
  }

  lemma CancelOne(a: multiset<Input>, b: multiset<Input>, x: Input)
    requires a + multiset{x} == b + multiset{x}
    ensures a == b
  {
    assert a == (a + multiset{x}) - multiset{x};
    assert b == (b + multiset{x}) - multiset{x};
  }

  /** Bars do not depend on the order their swaps arrive in. */
  lemma {:induction false} FoldPermutation(h: seq<Input>, h': seq<Input>, sel: Selector)
    requires multiset(h) == multiset(h') && Clean(h, sel)
    ensures Fold(h, sel) == Fold(h', sel)
    decreases |h'|
  {
    if h' == [] {
      assert |multiset(h)| == |h| == 0;
    } else {
      hide Clean;
      hide Fold;
      var n := |h'| - 1;
      var x := h'[n];
      assert h' == h'[..n] + [x];
      assert x in multiset(h);
      var i :| 0 <= i < |h| && h[i] == x;
      var rest := h[..i] + h[i + 1..];
      TakeOut(h, i, sel);
      CancelOne(multiset(rest), multiset(h'[..n]), x);
      FoldPermutation(rest, h'[..n], sel);
      FoldSnoc(rest, x, sel);
      FoldSnoc(h'[..n], x, sel);
    }
  }

  lemma CleanWithout(a: seq<Input>, x: Input, b: seq<Input>, sel: Selector)
    requires Clean(a + [x] + b, sel)
    ensures Clean(a + b, sel)
  {
    var all, less := a + [x] + b, a + b;
    assert forall i | 0 <= i < |less| :: less[i] == all[if i < |a| then i else i + 1];
  }

  // ---------------------------------------------------------------- merging bars

  lemma ObserveIsMerge(c: Option<Candle>, x: Input)
    requires c.Some? ==> c.value.quote == x.quote
    ensures Some(Observe(c, x)) == MergeOpt(c, Some(Single(x)))
  {
    if c.Some? { UpdateIsMerge(c.value, x); }
  }

  lemma MergeOptAssociative(a: Option<Candle>, b: Option<Candle>, c: Option<Candle>)
    ensures MergeOpt(MergeOpt(a, b), c) == MergeOpt(a, MergeOpt(b, c))
  {
    if a.Some? && b.Some? && c.Some? { MergeAssociative(a.value, b.value, c.value); }
  }

  /** merge(fold A, fold B) == fold(A then B). */
  lemma {:induction false} MergeOfFolds(a: seq<Input>, b: seq<Input>, sel: Selector)
    requires Clean(a + b, sel)
    ensures MergeOpt(Fold(a, sel), Fold(b, sel)) == Fold(a + b, sel)
    decreases |b|
  {
    if b == [] {
      assert a + b == a;
    } else {
      var n := |b| - 1;
      var x, mid := b[n], b[..n];
      assert a + b == (a + mid) + [x] && b == mid + [x];
      assert forall i | 0 <= i < |a + mid| :: (a + mid)[i] == (a + b)[i];
      MergeOfFolds(a, mid, sel);
      FoldSnoc(a + mid, x, sel);
      FoldSnoc(mid, x, sel);
      if sel(x) {
        assert (a + b)[|a| + n] == x;
        QuoteOfPart(a + b, a + mid, x, sel);
        QuoteOfPart(a + b, mid, x, sel);
        ObserveIsMerge(Fold(a + mid, sel), x);
        ObserveIsMerge(Fold(mid, sel), x);
        MergeOptAssociative(Fold(a, sel), Fold(mid, sel), Some(Single(x)));
      }
    }
  }

  /** The stored merge is the bar of the union, for swap sets that share no place. */
  lemma MergeIsUnion(a: seq<Input>, b: seq<Input>, union: seq<Input>, sel: Selector)
    requires Clean(union, sel) && multiset(union) == multiset(a) + multiset(b)
    ensures MergeOpt(Fold(a, sel), Fold(b, sel)) == Fold(union, sel)
  {
    assert multiset(a + b) == multiset(union);
    CleanPermutation(union, a + b, sel);
    MergeOfFolds(a, b, sel);
    FoldPermutation(union, a + b, sel);
  }

  lemma CleanNothing(sel: Selector)
    ensures Clean([], sel)
  {
  }

  /** Distinct places and one quote do not depend on the order either. */
  lemma {:induction false} CleanPermutation(h: seq<Input>, h': seq<Input>, sel: Selector)
    requires multiset(h) == multiset(h') && Clean(h, sel)
    ensures Clean(h', sel)
    decreases |h'|
  {
    hide Clean;
    if h' == [] { CleanNothing(sel); return; }
    hide Fold;
    var n := |h'| - 1;
    var x := h'[n];
    assert h' == h'[..n] + [x];
    assert x in multiset(h);
    var i :| 0 <= i < |h| && h[i] == x;
    var rest := h[..i] + h[i + 1..];
    TakeOut(h, i, sel);
    JoinsRest(h, i, sel);
    CancelOne(multiset(rest), multiset(h'[..n]), x);
    CleanPermutation(rest, h'[..n], sel);
    forall y | y in h'[..n] ensures y in rest {
      assert y in multiset(h'[..n]);
    }
    CleanSnoc(h'[..n], x, sel);
  }

  // ---------------------------------------------------------------- seconds and minutes

  function Window(pool: Pubkey, from: int, to: int): Selector {
    (x: Input) => Foldable(x) && x.pool == pool && from <= x.blockTime < to
  }

  /** What a bar's key selects. */
  function Selects(k: BarKey): Selector {
    (x: Input) => Foldable(x) && KeyOf(x, k.interval) == k
  }

  lemma {:induction false} FoldAgrees(h: seq<Input>, p: Selector, q: Selector)
    requires forall i | 0 <= i < |h| :: p(h[i]) == q(h[i])
    ensures Fold(h, p) == Fold(h, q)
    decreases |h|
  {
    if h != [] {
      var n := |h| - 1;
      assert forall i | 0 <= i < n :: h[..n][i] == h[i];
      FoldAgrees(h[..n], p, q);
    }
  }

  /** Splitting the swaps of a bar in two and merging the two bars gives the bar back. */
  lemma {:induction false} MergeOfParts(h: seq<Input>, p: Selector, q: Selector, both: Selector)
    requires Clean(h, both)
    requires forall i | 0 <= i < |h| :: (both(h[i]) <==> p(h[i]) || q(h[i])) && !(p(h[i]) && q(h[i]))
    ensures MergeOpt(Fold(h, p), Fold(h, q)) == Fold(h, both)
    decreases |h|
  {
    if h != [] {
      var n := |h| - 1;
      var before, x := h[..n], h[n];
      assert forall i | 0 <= i < n :: before[i] == h[i];
      MergeOfParts(before, p, q, both);
      if both(x) { PartsStep(before, x, p, q, both); }
    }
  }

  lemma PartsStep(h: seq<Input>, x: Input, p: Selector, q: Selector, both: Selector)
    requires Clean(h, both) && both(x) && (p(x) <==> !q(x))
    requires forall i | 0 <= i < |h| && both(h[i]) :: h[i].at != x.at && h[i].quote == x.quote
    requires forall i | 0 <= i < |h| :: (both(h[i]) <==> p(h[i]) || q(h[i])) && !(p(h[i]) && q(h[i]))
    requires MergeOpt(Fold(h, p), Fold(h, q)) == Fold(h, both)
    ensures MergeOpt(if p(x) then Some(Observe(Fold(h, p), x)) else Fold(h, p),
                     if q(x) then Some(Observe(Fold(h, q), x)) else Fold(h, q)) == Some(Observe(Fold(h, both), x))
  {
    var P, Q, X := Fold(h, p), Fold(h, q), Some(Single(x));
    FoldComesFrom(h, p);
    FoldComesFrom(h, q);
    FoldComesFrom(h, both);
    ObserveIsMerge(P, x);
    ObserveIsMerge(Q, x);
    ObserveIsMerge(Fold(h, both), x);
    MergeOptAssociative(P, Q, X);
    if p(x) {
      MergeOptAssociative(P, X, Q);
      if Q.Some? { MergeCommutative(X.value, Q.value); }
    }
  }

  /** The merge of `n` consecutive 1-second bars. */
  function MergeSeconds(h: seq<Input>, pool: Pubkey, from: int, n: nat): Option<Candle> {
    if n == 0 then None
    else MergeOpt(MergeSeconds(h, pool, from, n - 1), Fold(h, Selects(BarKey(pool, Second, from + n - 1))))
  }

  lemma {:induction false} SecondsMakeWindow(h: seq<Input>, pool: Pubkey, from: int, n: nat)
    requires Clean(h, Window(pool, from, from + n))
    ensures MergeSeconds(h, pool, from, n) == Fold(h, Window(pool, from, from + n))
  {
    if n == 0 {
      FoldComesFrom(h, Window(pool, from, from));
    } else {
      SecondsMakeWindow(h, pool, from, n - 1);
      var last := Selects(BarKey(pool, Second, from + n - 1));
      MergeOfParts(h, Window(pool, from, from + n - 1), last, Window(pool, from, from + n));
    }
  }

  /** Merging the sixty 1-second bars of a minute gives that minute's 1-minute bar. */
  lemma SixtySecondsMakeAMinute(h: seq<Input>, pool: Pubkey, minute: int)
    requires minute % 60 == 0 && minute >= 0
    requires Clean(h, Selects(BarKey(pool, Minute, minute)))
    ensures MergeSeconds(h, pool, minute, 60) == Fold(h, Selects(BarKey(pool, Minute, minute)))
  {
    var k := BarKey(pool, Minute, minute);
    forall i | 0 <= i < |h| ensures Selects(k)(h[i]) == Window(pool, minute, minute + 60)(h[i]) {
      if Foldable(h[i]) { assert BucketOf(h[i].blockTime, Minute) == h[i].blockTime / 60 * 60; }
    }
    FoldAgrees(h, Selects(k), Window(pool, minute, minute + 60));
    SecondsMakeWindow(h, pool, minute, 60);
  }

  // ---------------------------------------------------------------- filters

  function Filter(h: seq<Input>, keep: Selector): seq<Input>
    decreases |h|
  {
    if h == [] then [] else Filter(h[..|h| - 1], keep) + if keep(h[|h| - 1]) then [h[|h| - 1]] else []
  }

  /** Folding what a filter left is folding with the filter as a further condition. */
  lemma {:induction false} FoldOfFilter(h: seq<Input>, keep: Selector, sel: Selector)
    ensures Fold(Filter(h, keep), sel) == Fold(h, (x: Input) => keep(x) && sel(x))
    decreases |h|
  {
    if h != [] {
      var before, x := h[..|h| - 1], h[|h| - 1];
      var both := (x: Input) => keep(x) && sel(x);
      FoldOfFilter(before, keep, sel);
      FoldAgrees(before, (x: Input) => keep(x) && sel(x), both);
      assert h == before + [x];
      FoldSnoc(before, x, both);
      FoldSnoc(Filter(before, keep), x, sel);
      FoldAgrees(h, (x: Input) => keep(x) && sel(x), both);
      assert Filter(before, keep) + [] == Filter(before, keep);
    }
  }

  /** A bar depends on nothing but its own swaps. */
  lemma FoldOfOwn(h: seq<Input>, sel: Selector)
    ensures Fold(Filter(h, sel), sel) == Fold(h, sel)
  {
    FoldOfFilter(h, sel, sel);
    FoldAgrees(h, (x: Input) => sel(x) && sel(x), sel);
  }

  lemma {:induction false} FilterMembers(h: seq<Input>, keep: Selector)
    ensures forall x :: x in Filter(h, keep) <==> x in h && keep(x)
    decreases |h|
  {
    if h != [] {
      FilterMembers(h[..|h| - 1], keep);
      assert h == h[..|h| - 1] + [h[|h| - 1]];
    }
  }

  lemma {:induction false} FilterClean(h: seq<Input>, keep: Selector, sel: Selector)
    requires Clean(h, sel)
    ensures Clean(Filter(h, keep), sel)
    decreases |h|
  {
    if h != [] {
      var n := |h| - 1;
      var before, x := h[..n], h[n];
      assert forall i | 0 <= i < n :: before[i] == h[i];
      FilterClean(before, keep, sel);
      FilterMembers(before, keep);
      JoinsRest(h, n, sel);
      assert h[..n] + h[n + 1..] == before;
      if keep(x) {
        CleanSnoc(Filter(before, keep), x, sel);
      } else {
        assert Filter(before, keep) + [] == Filter(before, keep);
      }
    }
  }
}
