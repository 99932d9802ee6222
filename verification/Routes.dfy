/**
 Netting the legs of an aggregator route (`src/swap.c`): a bounded table of per-mint totals, and the
 scan that reads the two ends of the trade off it. Totals are 64-bit and wrap.
 */
module Routes {
  import opened BarKeys
  import opened Options
  import opened Words

  type Mint = Pubkey

  const MAX_ROUTE_MINTS: nat := 24

  datatype Leg = Leg(inputMint: Mint, inputAmount: U64, outputMint: Mint, outputAmount: U64)
  datatype Side = Side(mint: Mint, amount: U64, isInput: bool)
  datatype RouteMint = RouteMint(mint: Mint, inSum: U64, outSum: U64)
  datatype Net = Net(mints: seq<RouteMint>, overflow: bool)
  datatype Row = Row(inputMint: Mint, inputAmount: U64, outputMint: Mint, outputAmount: U64)

  // ---------------------------------------------------------------- adding a leg

  /** Where `mint` is in the table, or where it would go. */
  function Position(net: seq<RouteMint>, mint: Mint): (i: nat)
    ensures i <= |net| && (i < |net| ==> net[i].mint == mint)
    ensures forall j | 0 <= j < i :: net[j].mint != mint
  {
    if net == [] then 0
    else
      var before := Position(net[..|net| - 1], mint);
      if before < |net| - 1 then before
      else if net[|net| - 1].mint == mint then |net| - 1 else |net|
  }

  function Bump(m: RouteMint, s: Side): RouteMint {
    if s.isInput then m.(inSum := (m.inSum + s.amount) % WORD)
    else m.(outSum := (m.outSum + s.amount) % WORD)
  }

  function AddSide(net: seq<RouteMint>, s: Side): Option<seq<RouteMint>> {
    var at := Position(net, s.mint);
    if at < |net| then Some(net[at := Bump(net[at], s)])
    else if |net| >= MAX_ROUTE_MINTS then None
    else Some(net + [Bump(RouteMint(s.mint, 0, 0), s)])
  }

  function Input(leg: Leg): Side { Side(leg.inputMint, leg.inputAmount, true) }
  function Output(leg: Leg): Side { Side(leg.outputMint, leg.outputAmount, false) }

  /** `add_route_leg`: a full table ends the leg where it stands. */
  function AddLeg(net: Net, leg: Leg): Net {
    match AddSide(net.mints, Input(leg))
    case None => net.(overflow := true)
    case Some(paid) =>
      match AddSide(paid, Output(leg))
      case None => Net(paid, true)
      case Some(both) => net.(mints := both)
  }

  function AddLegs(legs: seq<Leg>): Net {
    if legs == [] then Net([], false) else AddLeg(AddLegs(legs[..|legs| - 1]), legs[|legs| - 1])
  }

  // ---------------------------------------------------------------- what the totals should be

  function Sides(legs: seq<Leg>): seq<Side> {
    if legs == [] then []
    else Sides(legs[..|legs| - 1]) + [Input(legs[|legs| - 1]), Output(legs[|legs| - 1])]
  }

  /** The unbounded total of one mint on one side of the route. */
  function Total(sides: seq<Side>, mint: Mint, isInput: bool): nat {
    if sides == [] then 0
    else
      var s := sides[|sides| - 1];
      Total(sides[..|sides| - 1], mint, isInput) + if s.mint == mint && s.isInput == isInput then s.amount else 0
  }

  function MintsOf(sides: seq<Side>): set<Mint> {
    set i | 0 <= i < |sides| :: sides[i].mint
  }

  function TableMints(net: seq<RouteMint>): set<Mint> {
    set i | 0 <= i < |net| :: net[i].mint
  }

  ghost predicate Distinct(net: seq<RouteMint>) {
    forall i, j | 0 <= i < j < |net| :: net[i].mint != net[j].mint
  }

  /** One entry per mint, carrying its totals as far as 64 bits hold them. */
  ghost predicate Tallied(net: seq<RouteMint>, sides: seq<Side>) {
    && Distinct(net) && |net| <= MAX_ROUTE_MINTS
    && TableMints(net) == MintsOf(sides)
    && forall i | 0 <= i < |net| ::
         && net[i].inSum == Total(sides, net[i].mint, true) % WORD
         && net[i].outSum == Total(sides, net[i].mint, false) % WORD
  }

  lemma TotalSnoc(sides: seq<Side>, s: Side, mint: Mint, isInput: bool)
    ensures Total(sides + [s], mint, isInput) ==
            Total(sides, mint, isInput) + if s.mint == mint && s.isInput == isInput then s.amount else 0
  {
    assert (sides + [s])[..|sides|] == sides;
  }

  lemma MintsSnoc(sides: seq<Side>, s: Side)
    ensures MintsOf(sides + [s]) == MintsOf(sides) + {s.mint}
  {
    var now := sides + [s];
    forall m | m in MintsOf(sides) ensures m in MintsOf(now) {
      var i :| 0 <= i < |sides| && sides[i].mint == m;
      assert now[i].mint == m;
    }
    assert now[|sides|].mint == s.mint;
  }

  lemma TableSnoc(net: seq<RouteMint>, m: RouteMint)
    ensures TableMints(net + [m]) == TableMints(net) + {m.mint}
  {
    var now := net + [m];
    forall x | x in TableMints(net) ensures x in TableMints(now) {
      var i :| 0 <= i < |net| && net[i].mint == x;
      assert now[i].mint == x;
    }
    assert now[|net|].mint == m.mint;
  }

  lemma {:induction false} UnseenTotal(sides: seq<Side>, mint: Mint, isInput: bool)
    requires mint !in MintsOf(sides)
    ensures Total(sides, mint, isInput) == 0
  {
    if sides != [] {
      var n := |sides| - 1;
      assert sides[..n] + [sides[n]] == sides;
      MintsSnoc(sides[..n], sides[n]);
      UnseenTotal(sides[..n], mint, isInput);
    }
  }

  lemma {:induction false} DistinctCount(net: seq<RouteMint>)
    requires Distinct(net)
    ensures |TableMints(net)| == |net|
  {
    if net == [] {
      assert TableMints(net) == {};
    } else {
      hide TableMints();
      var n := |net| - 1;
      NotBefore(net);
      DistinctCount(net[..n]);
      TableSnoc(net[..n], net[n]);
      assert net == net[..n] + [net[n]];
    }
  }

  lemma NotBefore(net: seq<RouteMint>)
    requires Distinct(net) && net != []
    ensures net[|net| - 1].mint !in TableMints(net[..|net| - 1])
  {
  }

  lemma SameTableMints(a: seq<RouteMint>, b: seq<RouteMint>)
    requires |a| == |b| && forall i | 0 <= i < |a| :: a[i].mint == b[i].mint
    ensures TableMints(a) == TableMints(b)
  {
    forall x | x in TableMints(a) ensures x in TableMints(b) {
      var i :| 0 <= i < |a| && a[i].mint == x;
      assert b[i].mint == x;
    }
    forall x | x in TableMints(b) ensures x in TableMints(a) {
      var i :| 0 <= i < |a| && b[i].mint == x;
      assert a[i].mint == x;
    }
  }

  lemma WrapAdd(total: nat, sum: nat, amount: nat)
    requires sum == total % WORD
    ensures (sum + amount) % WORD == (total + amount) % WORD
  {
  }

  lemma BumpTallies(m: RouteMint, sides: seq<Side>, s: Side)
    requires m.mint == s.mint
    requires m.inSum == Total(sides, m.mint, true) % WORD && m.outSum == Total(sides, m.mint, false) % WORD
    ensures Bump(m, s).inSum == Total(sides + [s], m.mint, true) % WORD
    ensures Bump(m, s).outSum == Total(sides + [s], m.mint, false) % WORD
  {
    TotalSnoc(sides, s, m.mint, true);
    TotalSnoc(sides, s, m.mint, false);
    WrapAdd(Total(sides, m.mint, true), m.inSum, s.amount);
    WrapAdd(Total(sides, m.mint, false), m.outSum, s.amount);
  }

  lemma KnownMint(net: seq<RouteMint>, sides: seq<Side>, s: Side)
    requires Tallied(net, sides) && Position(net, s.mint) < |net|
    ensures AddSide(net, s).Some? && Tallied(AddSide(net, s).value, sides + [s])
  {
    hide Position(), MintsOf(), Total();
    var at := Position(net, s.mint);
    var now := AddSide(net, s).value;
    BumpTallies(net[at], sides, s);
    MintsSnoc(sides, s);
    forall i | 0 <= i < |now|
      ensures now[i].mint == net[i].mint
      ensures now[i].inSum == Total(sides + [s], now[i].mint, true) % WORD
      ensures now[i].outSum == Total(sides + [s], now[i].mint, false) % WORD
    {
      TotalSnoc(sides, s, net[i].mint, true);
      TotalSnoc(sides, s, net[i].mint, false);
    }
    SameTableMints(now, net);
    assert s.mint in TableMints(net);
  }

  lemma NewMint(net: seq<RouteMint>, sides: seq<Side>, s: Side)
    requires Tallied(net, sides) && Position(net, s.mint) == |net| < MAX_ROUTE_MINTS
    ensures AddSide(net, s).Some? && Tallied(AddSide(net, s).value, sides + [s])
  {
    hide MintsOf(), Total();
    var now := AddSide(net, s).value;
    MintsSnoc(sides, s);
    assert s.mint !in TableMints(net);
    UnseenTotal(sides, s.mint, true);
    UnseenTotal(sides, s.mint, false);
    BumpTallies(RouteMint(s.mint, 0, 0), sides, s);
    forall i | 0 <= i < |net|
      ensures now[i].inSum == Total(sides + [s], now[i].mint, true) % WORD
      ensures now[i].outSum == Total(sides + [s], now[i].mint, false) % WORD
    {
      TotalSnoc(sides, s, net[i].mint, true);
      TotalSnoc(sides, s, net[i].mint, false);
    }
    TableSnoc(net, Bump(RouteMint(s.mint, 0, 0), s));
  }

  /** A side either tallies, or is the twenty-fifth mint of the route. */
  lemma SideTallies(net: seq<RouteMint>, sides: seq<Side>, s: Side)
    requires Tallied(net, sides)
    ensures match AddSide(net, s)
            case Some(now) => Tallied(now, sides + [s])
            case None => |MintsOf(sides + [s])| > MAX_ROUTE_MINTS
  {
    var at := Position(net, s.mint);
    if at < |net| {
      KnownMint(net, sides, s);
    } else if |net| < MAX_ROUTE_MINTS {
      NewMint(net, sides, s);
    } else {
      MintsSnoc(sides, s);
      DistinctCount(net);
      assert s.mint !in TableMints(net);
    }
  }

  lemma TalliedFits(net: seq<RouteMint>, sides: seq<Side>)
    requires Tallied(net, sides)
    ensures |MintsOf(sides)| <= MAX_ROUTE_MINTS
  {
    DistinctCount(net);
  }

  lemma MintsGrow(sides: seq<Side>, s: Side)
    ensures |MintsOf(sides)| <= |MintsOf(sides + [s])|
  {
    MintsSnoc(sides, s);
    if s.mint in MintsOf(sides) { assert MintsOf(sides) + {s.mint} == MintsOf(sides); }
  }

  /** The table gives up exactly on a route of more than 24 mints; short of that it holds every total. */
  lemma {:induction false} LegsTally(legs: seq<Leg>)
    ensures AddLegs(legs).overflow <==> |MintsOf(Sides(legs))| > MAX_ROUTE_MINTS
    ensures !AddLegs(legs).overflow ==> Tallied(AddLegs(legs).mints, Sides(legs))
  {
    if legs != [] {
      var n := |legs| - 1;
      var before, sides, leg := AddLegs(legs[..n]), Sides(legs[..n]), legs[n];
      LegsTally(legs[..n]);
      var paid := sides + [Input(leg)];
      assert Sides(legs) == paid + [Output(leg)];
      MintsGrow(sides, Input(leg));
      MintsGrow(paid, Output(leg));
      if !before.overflow {
        SideTallies(before.mints, sides, Input(leg));
        var half := AddSide(before.mints, Input(leg));
        if half.Some? {
          SideTallies(half.value, paid, Output(leg));
          var both := AddSide(half.value, Output(leg));
          if both.Some? { TalliedFits(both.value, Sides(legs)); }
        }
      }
    } else {
      assert MintsOf(Sides(legs)) == {};
    }
  }

  // ---------------------------------------------------------------- reading the ends off the table

  /** What the route consumed of a mint on net (`consumed`), or delivered (otherwise). */
  function Surplus(m: RouteMint, consumed: bool): U64 {
    if consumed then (if m.inSum > m.outSum then m.inSum - m.outSum else 0)
    else (if m.outSum > m.inSum then m.outSum - m.inSum else 0)
  }

  function Leader(net: seq<RouteMint>, n: nat, consumed: bool): (r: Option<nat>)
    requires n <= |net|
    ensures r.Some? ==> r.value < n
  {
    if n == 0 then None
    else
      var best := Leader(net, n - 1, consumed);
      if Surplus(net[n - 1], consumed) > Held(net, best, consumed) then Some(n - 1) else best
  }

  function Held(net: seq<RouteMint>, best: Option<nat>, consumed: bool): U64
    requires best.Some? ==> best.value < |net|
  {
    if best == None then 0 else Surplus(net[best.value], consumed)
  }

  /** The first mint with the largest surplus, if any has one. */
  lemma {:induction false} LeaderIsFirstLargest(net: seq<RouteMint>, n: nat, consumed: bool)
    requires n <= |net|
    ensures Leader(net, n, consumed) == None <==> forall i | 0 <= i < n :: Surplus(net[i], consumed) == 0
    ensures forall i | 0 <= i < n :: Surplus(net[i], consumed) <= Held(net, Leader(net, n, consumed), consumed)
    ensures Leader(net, n, consumed).Some? ==>
              forall i | 0 <= i < Leader(net, n, consumed).value ::
                Surplus(net[i], consumed) < Held(net, Leader(net, n, consumed), consumed)
    ensures Leader(net, n, consumed).Some? ==> Held(net, Leader(net, n, consumed), consumed) > 0
  {
    if n > 0 {
      LeaderIsFirstLargest(net, n - 1, consumed);
    }
  }

  /** `flush_route`: the row of a route, unless nothing nets on one of its ends. */
  function Route(net: seq<RouteMint>): Option<Row> {
    var paid, got := Leader(net, |net|, true), Leader(net, |net|, false);
    if paid == None || got == None then None
    else Some(Row(net[paid.value].mint, Held(net, paid, true), net[got.value].mint, Held(net, got, false)))
  }

  // ---------------------------------------------------------------- what the row means

  /** No total of the route reaches 64 bits. */
  ghost predicate Exact(legs: seq<Leg>) {
    forall m, isInput | m in MintsOf(Sides(legs)) :: Total(Sides(legs), m, isInput) < WORD
  }

  /** The table holds the true totals exactly when none of them reaches 64 bits. */
  lemma TableIsExactIff(legs: seq<Leg>)
    requires !AddLegs(legs).overflow
    ensures Exact(legs) <==>
            forall i | 0 <= i < |AddLegs(legs).mints| :: var m := AddLegs(legs).mints[i];
              m.inSum == Total(Sides(legs), m.mint, true) && m.outSum == Total(Sides(legs), m.mint, false)
  {
    LegsTally(legs);
    hide AddLegs(), Sides(), Total(), MintsOf();
    var net := AddLegs(legs).mints;
    forall i | 0 <= i < |net| ensures net[i].mint in MintsOf(Sides(legs)) {
      assert net[i].mint in TableMints(net);
    }
    forall m | m in MintsOf(Sides(legs)) ensures exists i :: 0 <= i < |net| && net[i].mint == m {
      assert m in TableMints(net);
    }
  }

  /** What the route took of a mint beyond what it gave back, or, not `consumed`, the reverse. */
  ghost function NetOf(legs: seq<Leg>, m: Mint, consumed: bool): int {
    Total(Sides(legs), m, consumed) - Total(Sides(legs), m, !consumed)
  }

  /** `m` has the largest net of the route on one end, and it is `amount`. */
  ghost predicate LargestNet(legs: seq<Leg>, m: Mint, amount: nat, consumed: bool) {
    && m in MintsOf(Sides(legs)) && NetOf(legs, m, consumed) == amount > 0
    && forall x | x in MintsOf(Sides(legs)) :: NetOf(legs, x, consumed) <= amount
  }

  ghost predicate SomeNet(legs: seq<Leg>, consumed: bool) {
    exists m | m in MintsOf(Sides(legs)) :: NetOf(legs, m, consumed) > 0
  }

  /** Both totals of every mint wrap equally often: not at all, when none reaches 64 bits. */
  ghost predicate WrapsEvenly(legs: seq<Leg>) {
    forall m | m in MintsOf(Sides(legs)) :: Total(Sides(legs), m, true) / WORD == Total(Sides(legs), m, false) / WORD
  }

  lemma RemaindersDiffer(a: nat, b: nat)
    ensures a % WORD - b % WORD == a - b <==> a / WORD == b / WORD
  {
    assert a == WORD * (a / WORD) + a % WORD && b == WORD * (b / WORD) + b % WORD;
  }

  /** The table holds the true net of every mint exactly when both its totals wrap equally often. */
  lemma NetsAreExactIff(legs: seq<Leg>)
    requires !AddLegs(legs).overflow
    ensures WrapsEvenly(legs) <==>
            forall i | 0 <= i < |AddLegs(legs).mints| :: var m := AddLegs(legs).mints[i];
              m.inSum - m.outSum == NetOf(legs, m.mint, true)
  {
    LegsTally(legs);
    hide AddLegs(), Sides(), Total(), MintsOf();
    var net := AddLegs(legs).mints;
    forall i | 0 <= i < |net|
      ensures net[i].mint in MintsOf(Sides(legs))
      ensures net[i].inSum - net[i].outSum == NetOf(legs, net[i].mint, true) <==>
              Total(Sides(legs), net[i].mint, true) / WORD == Total(Sides(legs), net[i].mint, false) / WORD
    {
      assert net[i].mint in TableMints(net);
      RemaindersDiffer(Total(Sides(legs), net[i].mint, true), Total(Sides(legs), net[i].mint, false));
    }
    forall m | m in MintsOf(Sides(legs)) ensures exists i :: 0 <= i < |net| && net[i].mint == m {
      assert m in TableMints(net);
    }
  }

  lemma SurplusIsNet(legs: seq<Leg>, i: nat, consumed: bool)
    requires !AddLegs(legs).overflow && WrapsEvenly(legs) && i < |AddLegs(legs).mints|
    ensures var m := AddLegs(legs).mints[i];
            && m.mint in MintsOf(Sides(legs))
            && Surplus(m, consumed) == if NetOf(legs, m.mint, consumed) > 0 then NetOf(legs, m.mint, consumed) else 0
  {
    LegsTally(legs);
    hide AddLegs(), Sides(), Total(), MintsOf();
    var net := AddLegs(legs).mints;
    assert net[i].mint in TableMints(net);
    RemaindersDiffer(Total(Sides(legs), net[i].mint, true), Total(Sides(legs), net[i].mint, false));
  }

  lemma LeaderIsLargestNet(legs: seq<Leg>, consumed: bool)
    requires !AddLegs(legs).overflow && WrapsEvenly(legs)
    ensures var net := AddLegs(legs).mints;
            var best := Leader(net, |net|, consumed);
            && (best.Some? <==> SomeNet(legs, consumed))
            && (best.Some? ==> LargestNet(legs, net[best.value].mint, Held(net, best, consumed), consumed))
  {
    var net := AddLegs(legs).mints;
    var best := Leader(net, |net|, consumed);
    LeaderIsFirstLargest(net, |net|, consumed);
    LegsTally(legs);
    hide AddLegs(), Sides(), Total(), MintsOf(), Leader(), Surplus(), NetOf(), WrapsEvenly();
    forall i | 0 <= i < |net|
      ensures net[i].mint in MintsOf(Sides(legs))
      ensures Surplus(net[i], consumed) ==
              if NetOf(legs, net[i].mint, consumed) > 0 then NetOf(legs, net[i].mint, consumed) else 0
    {
      SurplusIsNet(legs, i, consumed);
    }
    forall x | x in MintsOf(Sides(legs)) ensures exists i :: 0 <= i < |net| && net[i].mint == x {
      assert x in TableMints(net);
    }
  }

  /**
   The row of a route that fits, and whose totals wrap evenly: it exists exactly when some mint was
   consumed and some mint delivered on net, and it names the largest of each with its net amount.
   */
  lemma RowIsLargestNets(legs: seq<Leg>)
    requires |MintsOf(Sides(legs))| <= MAX_ROUTE_MINTS && WrapsEvenly(legs)
    ensures var row := Route(AddLegs(legs).mints);
            && (row.Some? <==> SomeNet(legs, true) && SomeNet(legs, false))
            && (row.Some? ==> LargestNet(legs, row.value.inputMint, row.value.inputAmount, true))
            && (row.Some? ==> LargestNet(legs, row.value.outputMint, row.value.outputAmount, false))
  {
    LegsTally(legs);
    LeaderIsLargestNet(legs, true);
    LeaderIsLargestNet(legs, false);
  }

  /** Every mint but one source and one sink passes through: the row is the trade between them. */
  lemma RouteFromSourceToSink(legs: seq<Leg>, source: Mint, sink: Mint)
    requires |MintsOf(Sides(legs))| <= MAX_ROUTE_MINTS && WrapsEvenly(legs)
    requires source in MintsOf(Sides(legs)) && sink in MintsOf(Sides(legs))
    requires NetOf(legs, source, true) > 0 && NetOf(legs, sink, false) > 0
    requires forall m | m in MintsOf(Sides(legs)) && m != source && m != sink :: NetOf(legs, m, true) == 0
    ensures Route(AddLegs(legs).mints) == Some(Row(source, NetOf(legs, source, true), sink, NetOf(legs, sink, false)))
  {
    RowIsLargestNets(legs);
  }

  /** A route whose every mint cancels is a self-trade and yields no row. */
  lemma CancellingRouteHasNoRow(legs: seq<Leg>)
    requires |MintsOf(Sides(legs))| <= MAX_ROUTE_MINTS && WrapsEvenly(legs)
    requires forall m | m in MintsOf(Sides(legs)) :: NetOf(legs, m, true) == 0
    ensures Route(AddLegs(legs).mints) == None
  {
    RowIsLargestNets(legs);
  }

  // ---------------------------------------------------------------- the order of the legs

  /** What one leg adds to a mint's total. */
  function Share(leg: Leg, m: Mint, isInput: bool): nat {
    if isInput then (if leg.inputMint == m then leg.inputAmount else 0)
    else (if leg.outputMint == m then leg.outputAmount else 0)
  }

  lemma LegTotal(legs: seq<Leg>, leg: Leg, m: Mint, isInput: bool)
    ensures Total(Sides(legs + [leg]), m, isInput) == Total(Sides(legs), m, isInput) + Share(leg, m, isInput)
  {
    assert (legs + [leg])[..|legs|] == legs;
    var paid := Sides(legs) + [Input(leg)];
    assert Sides(legs + [leg]) == paid + [Output(leg)];
    TotalSnoc(Sides(legs), Input(leg), m, isInput);
    TotalSnoc(paid, Output(leg), m, isInput);
  }

  /** Each leg pays out exactly what the next one takes in. */
  ghost predicate Chained(legs: seq<Leg>) {
    forall i | 0 < i < |legs| ::
      legs[i].inputMint == legs[i - 1].outputMint && legs[i].inputAmount == legs[i - 1].outputAmount
  }

  /** What happens between the ends of a chain cancels, even where it passes the same mint again. */
  lemma {:induction false} ChainNets(legs: seq<Leg>, m: Mint)
    requires legs != [] && Chained(legs)
    ensures NetOf(legs, m, true) ==
            Share(legs[0], m, true) - Share(legs[|legs| - 1], m, false)
    ensures NetOf(legs, m, false) == -NetOf(legs, m, true)
  {
    var n := |legs| - 1;
    assert legs == legs[..n] + [legs[n]];
    hide Total(), Sides();
    LegTotal(legs[..n], legs[n], m, true);
    LegTotal(legs[..n], legs[n], m, false);
    if n == 0 {
      NothingYet(m);
      assert legs[..n] == [];
    } else {
      ChainNets(legs[..n], m);
    }
  }

  lemma NothingYet(m: Mint)
    ensures Total(Sides([]), m, true) == 0 && Total(Sides([]), m, false) == 0
  {
  }

  lemma ChainEnds(legs: seq<Leg>)
    requires legs != []
    ensures legs[0].inputMint in MintsOf(Sides(legs)) && legs[|legs| - 1].outputMint in MintsOf(Sides(legs))
  {
    MintsOfLegs(legs, legs[0].inputMint);
    MintsOfLegs(legs, legs[|legs| - 1].outputMint);
  }

  /**
   The row of a chain of legs: what the first leg took in against what the last paid out, and none when
   the chain ends where it began or one of the two amounts is zero.
   */
  lemma ChainIsOneTrade(legs: seq<Leg>)
    requires legs != [] && Chained(legs) && |MintsOf(Sides(legs))| <= MAX_ROUTE_MINTS && WrapsEvenly(legs)
    ensures var first, last := legs[0], legs[|legs| - 1];
            Route(AddLegs(legs).mints) ==
            if first.inputMint != last.outputMint && first.inputAmount > 0 && last.outputAmount > 0
            then Some(Row(first.inputMint, first.inputAmount, last.outputMint, last.outputAmount))
            else None
  {
    RowIsLargestNets(legs);
    hide AddLegs(), Sides(), Total(), MintsOf(), WrapsEvenly(), Route(), NetOf(), Chained();
    var first, last := legs[0], legs[|legs| - 1];
    forall m ensures NetOf(legs, m, true) == Share(first, m, true) - Share(last, m, false)
             ensures NetOf(legs, m, false) == -NetOf(legs, m, true) {
      ChainNets(legs, m);
    }
    ChainEnds(legs);
    if first.inputMint == last.outputMint || first.inputAmount == 0 {
      assert SomeNet(legs, true) ==> !SomeNet(legs, false);
    }
  }

  lemma {:induction false} TotalConcat(a: seq<Leg>, b: seq<Leg>, m: Mint, isInput: bool)
    ensures Total(Sides(a + b), m, isInput) == Total(Sides(a), m, isInput) + Total(Sides(b), m, isInput)
  {
    if b == [] {
      assert a + b == a;
    } else {
      hide Total(), Sides(), Share();
      var init, last := b[..|b| - 1], b[|b| - 1];
      assert b == init + [last];
      assert a + b == (a + init) + [last];
      TotalConcat(a, init, m, isInput);
      LegTotal(a + init, last, m, isInput);
      LegTotal(init, last, m, isInput);
    }
  }

  lemma TotalWithout(legs: seq<Leg>, i: nat, m: Mint, isInput: bool)
    requires i < |legs|
    ensures Total(Sides(legs), m, isInput) ==
            Total(Sides(legs[..i] + legs[i + 1..]), m, isInput) + Share(legs[i], m, isInput)
  {
    TotalConcat(legs[..i], legs[i + 1..], m, isInput);
    LegTotal(legs[..i], legs[i], m, isInput);
    TotalConcat(legs[..i] + [legs[i]], legs[i + 1..], m, isInput);
    assert legs == legs[..i] + [legs[i]] + legs[i + 1..];
  }

  lemma RestIsPermutation(a: seq<Leg>, b: seq<Leg>, i: nat)
    requires multiset(a) == multiset(b) && i < |b| && a != [] && b[i] == a[|a| - 1]
    ensures multiset(a[..|a| - 1]) == multiset(b[..i] + b[i + 1..])
  {
    var n := |a| - 1;
    assert a == a[..n] + [a[n]];
    assert b == b[..i] + ([b[i]] + b[i + 1..]);
    forall x ensures multiset(a[..n])[x] == multiset(b[..i] + b[i + 1..])[x] {
      assert multiset(a)[x] == multiset(a[..n])[x] + multiset([a[n]])[x];
      assert multiset(b)[x] == multiset(b[..i])[x] + (multiset([b[i]])[x] + multiset(b[i + 1..])[x]);
    }
  }

  lemma {:induction false} TotalsIgnoreOrder(a: seq<Leg>, b: seq<Leg>, m: Mint, isInput: bool)
    requires multiset(a) == multiset(b)
    ensures Total(Sides(a), m, isInput) == Total(Sides(b), m, isInput)
  {
    hide *;
    assert |multiset(a)| == |a| && |multiset(b)| == |b|;
    if a == [] {
      assert b == [];
    } else {
      var n := |a| - 1;
      assert a[n] in multiset(b);
      var i :| 0 <= i < |b| && b[i] == a[n];
      RestIsPermutation(a, b, i);
      TotalsIgnoreOrder(a[..n], b[..i] + b[i + 1..], m, isInput);
      TotalWithout(b, i, m, isInput);
      LegTotal(a[..n], a[n], m, isInput);
      assert a == a[..n] + [a[n]];
    }
  }

  lemma {:induction false} MintsOfLegs(legs: seq<Leg>, m: Mint)
    ensures m in MintsOf(Sides(legs)) <==> exists leg :: leg in legs && (leg.inputMint == m || leg.outputMint == m)
  {
    if legs != [] {
      var n := |legs| - 1;
      MintsOfLegs(legs[..n], m);
      var sides, leg := Sides(legs[..n]), legs[n];
      assert Sides(legs) == sides + [Input(leg)] + [Output(leg)];
      MintsSnoc(sides, Input(leg));
      MintsSnoc(sides + [Input(leg)], Output(leg));
      assert legs == legs[..n] + [leg];
    }
  }

  lemma MintsIgnoreOrder(a: seq<Leg>, b: seq<Leg>)
    requires multiset(a) == multiset(b)
    ensures MintsOf(Sides(a)) == MintsOf(Sides(b))
  {
    hide Sides(), MintsOf();
    forall m ensures m in MintsOf(Sides(a)) <==> m in MintsOf(Sides(b)) {
      MintsOfLegs(a, m);
      MintsOfLegs(b, m);
      assert forall leg :: leg in a <==> leg in multiset(a);
      assert forall leg :: leg in b <==> leg in multiset(b);
    }
  }

  lemma NetsIgnoreOrder(a: seq<Leg>, b: seq<Leg>)
    requires multiset(a) == multiset(b)
    ensures MintsOf(Sides(a)) == MintsOf(Sides(b)) && (WrapsEvenly(a) ==> WrapsEvenly(b))
    ensures forall m, consumed :: NetOf(a, m, consumed) == NetOf(b, m, consumed)
  {
    MintsIgnoreOrder(a, b);
    hide Sides(), Total(), MintsOf();
    forall m, isInput ensures Total(Sides(a), m, isInput) == Total(Sides(b), m, isInput) {
      TotalsIgnoreOrder(a, b, m, isInput);
    }
  }

  lemma EndIgnoresOrder(a: seq<Leg>, b: seq<Leg>, consumed: bool)
    requires multiset(a) == multiset(b)
    ensures SomeNet(a, consumed) <==> SomeNet(b, consumed)
    ensures forall m, x :: LargestNet(a, m, x, consumed) <==> LargestNet(b, m, x, consumed)
  {
    NetsIgnoreOrder(a, b);
    hide WrapsEvenly(), NetOf(), MintsOf(), Sides();
  }

  /** The largest net of the route on one end is one mint's alone. */
  ghost predicate UniqueEnd(legs: seq<Leg>, consumed: bool) {
    forall m, n, x, y :: LargestNet(legs, m, x, consumed) && LargestNet(legs, n, y, consumed) ==> m == n
  }

  lemma LargestNetAmount(legs: seq<Leg>, m: Mint, x: nat, n: Mint, y: nat, consumed: bool)
    requires LargestNet(legs, m, x, consumed) && LargestNet(legs, n, y, consumed)
    ensures x == y
  {
    hide NetOf(), MintsOf(), Sides();
  }

  /**
   The legs may come in any order: the amounts of the row are the same, and so is whether there is one;
   the mints too, where no two tie for the largest net.
   */
  lemma RowIgnoresOrder(a: seq<Leg>, b: seq<Leg>)
    requires multiset(a) == multiset(b) && |MintsOf(Sides(a))| <= MAX_ROUTE_MINTS && WrapsEvenly(a)
    ensures var x, y := Route(AddLegs(a).mints), Route(AddLegs(b).mints);
            && !AddLegs(b).overflow
            && (x.Some? <==> y.Some?)
            && (x.Some? ==> x.value.inputAmount == y.value.inputAmount && x.value.outputAmount == y.value.outputAmount)
            && (UniqueEnd(a, true) && UniqueEnd(a, false) ==> x == y)
  {
    NetsIgnoreOrder(a, b);
    EndIgnoresOrder(a, b, true);
    EndIgnoresOrder(a, b, false);
    hide WrapsEvenly(), NetOf(), MintsOf(), Sides(), AddLegs(), Route(), SomeNet(), LargestNet();
    RowIsLargestNets(a);
    RowIsLargestNets(b);
    LegsTally(b);
    var x, y := Route(AddLegs(a).mints), Route(AddLegs(b).mints);
    if x.Some? {
      LargestNetAmount(a, x.value.inputMint, x.value.inputAmount, y.value.inputMint, y.value.inputAmount, true);
      LargestNetAmount(a, x.value.outputMint, x.value.outputAmount, y.value.outputMint, y.value.outputAmount, false);
    }
  }

  // ---------------------------------------------------------------- a total that wraps

  lemma TwiceTotal(leg: Leg, m: Mint, isInput: bool)
    ensures Total(Sides([leg, leg]), m, isInput) == 2 * Share(leg, m, isInput)
  {
    LegTotal([], leg, m, isInput);
    LegTotal([leg], leg, m, isInput);
    assert [] + [leg] == [leg] && [leg] + [leg] == [leg, leg];
  }

  lemma TwiceMints(leg: Leg)
    ensures MintsOf(Sides([leg, leg])) == {leg.inputMint, leg.outputMint}
  {
    hide Sides(), MintsOf();
    forall m ensures m in MintsOf(Sides([leg, leg])) <==> m in {leg.inputMint, leg.outputMint} {
      MintsOfLegs([leg, leg], m);
      assert leg in [leg, leg];
    }
  }

  lemma NothingPaid(net: seq<RouteMint>, sides: seq<Side>)
    requires Tallied(net, sides)
    requires forall m | m in MintsOf(sides) :: Total(sides, m, true) % WORD == 0
    ensures Route(net) == None
  {
    hide MintsOf(), Total();
    forall i | 0 <= i < |net| ensures Surplus(net[i], true) == 0 {
      assert net[i].mint in TableMints(net);
    }
    LeaderIsFirstLargest(net, |net|, true);
  }

  lemma TwiceTrades(leg: Leg)
    requires leg.inputMint != leg.outputMint && leg.inputAmount > 0 && leg.outputAmount > 0
    ensures SomeNet([leg, leg], true) && SomeNet([leg, leg], false) && |MintsOf(Sides([leg, leg]))| <= MAX_ROUTE_MINTS
  {
    TwiceMints(leg);
    hide Sides(), MintsOf(), Total();
    var m, n := leg.inputMint, leg.outputMint;
    TwiceTotal(leg, m, true);
    TwiceTotal(leg, m, false);
    TwiceTotal(leg, n, true);
    TwiceTotal(leg, n, false);
    assert m in MintsOf(Sides([leg, leg])) && NetOf([leg, leg], m, true) > 0;
    assert n in MintsOf(Sides([leg, leg])) && NetOf([leg, leg], n, false) > 0;
  }

  lemma TwiceWraps(leg: Leg, m: Mint)
    requires leg.inputAmount == WORD / 2
    ensures Total(Sides([leg, leg]), m, true) % WORD == 0
  {
    TwiceTotal(leg, m, true);
    hide Sides(), Total();
    assert 2 * Share(leg, m, true) == 0 || 2 * Share(leg, m, true) == WORD;
  }

  /** Where a total wraps the trade can vanish: half of 2^64 paid twice is seen as nothing paid. */
  lemma WrappedTotalHidesTrade(paid: Mint, got: Mint)
    requires paid != got
    ensures var legs := [Leg(paid, WORD / 2, got, 1), Leg(paid, WORD / 2, got, 1)];
            && |MintsOf(Sides(legs))| <= MAX_ROUTE_MINTS && SomeNet(legs, true) && SomeNet(legs, false)
            && Route(AddLegs(legs).mints) == None
  {
    var leg := Leg(paid, WORD / 2, got, 1);
    var legs := [leg, leg];
    TwiceTrades(leg);
    hide Sides(), MintsOf(), Total(), AddLegs(), Route(), SomeNet();
    LegsTally(legs);
    hide Tallied();
    forall m ensures Total(Sides(legs), m, true) % WORD == 0 {
      TwiceWraps(leg, m);
    }
    hide Share();
    NothingPaid(AddLegs(legs).mints, Sides(legs));
  }

  // ---------------------------------------------------------------- the builder

  class Builder {
    const net: array<RouteMint>
    var netCount: nat
    var netOverflow: bool
    var sawRoute: bool
    const rows: array<Row>
    var count: nat

    ghost predicate Valid()
      reads this
    {
      net.Length == MAX_ROUTE_MINTS && netCount <= net.Length && count <= rows.Length
    }

    ghost function Legs(): Net
      requires Valid()
      reads this, net
    {
      Net(net[..netCount], netOverflow)
    }

    ghost function Emitted(): seq<Row>
      requires Valid()
      reads this, rows
    {
      rows[..count]
    }

    /** A builder with `capacity` rows to fill, and no route seen. */
    constructor (capacity: nat, blank: Mint)
      ensures Valid() && fresh(net) && fresh(rows) && rows.Length == capacity
      ensures Legs() == AddLegs([]) && Emitted() == [] && !sawRoute
    {
      net := new RouteMint[MAX_ROUTE_MINTS](_ => RouteMint(blank, 0, 0));
      netCount := 0;
      netOverflow := false;
      sawRoute := false;
      rows := new Row[capacity](_ => Row(blank, 0, blank, 0));
      count := 0;
    }

    /** One side of a leg; false when the table has no room for its mint. */
    method AddToTable(s: Side) returns (ok: bool)
      requires Valid()
      modifies net, `netCount
      ensures Valid() && netOverflow == old(netOverflow)
      ensures ok == AddSide(old(net[..netCount]), s).Some?
      ensures net[..netCount] == if ok then AddSide(old(net[..netCount]), s).value else old(net[..netCount])
    {
      var i := 0;
      while i < netCount && net[i].mint != s.mint
        invariant 0 <= i <= netCount && forall j | 0 <= j < i :: net[j].mint != s.mint
      {
        i := i + 1;
      }
      assert i == Position(net[..netCount], s.mint);
      ghost var before := net[..netCount];
      ok := true;
      if i == netCount {
        if netCount >= MAX_ROUTE_MINTS {
          ok := false;
          return;
        }
        net[i] := RouteMint(s.mint, 0, 0);
        netCount := netCount + 1;
        assert net[..netCount] == before + [RouteMint(s.mint, 0, 0)];
      }
      var slot := net[i];
      if s.isInput {
        net[i] := slot.(inSum := (slot.inSum + s.amount) % WORD);
      } else {
        net[i] := slot.(outSum := (slot.outSum + s.amount) % WORD);
      }
      assert net[..netCount] == (if i == |before| then before + [Bump(slot, s)] else before[i := Bump(slot, s)]);
    }

    method AddRouteLeg(leg: Leg)
      requires Valid()
      modifies this`netCount, this`netOverflow, this`sawRoute, net
      ensures Valid() && sawRoute && Legs() == AddLeg(old(Legs()), leg)
    {
      sawRoute := true;
      var ok := AddToTable(Input(leg));
      if ok {
        ok := AddToTable(Output(leg));
      }
      if !ok {
        netOverflow := true;
      }
    }

    /** The row of the route, if the table holds one and there is room for it. */
    method FlushRoute()
      requires Valid() && net != rows as object
      modifies this`count, rows
      ensures Valid()
      ensures var row := if !sawRoute || netOverflow || old(count) >= rows.Length then None else Route(net[..netCount]);
              Emitted() == old(Emitted()) + if row == None then [] else [row.value]
    {
      if !sawRoute || netOverflow || count >= rows.Length {
        return;
      }
      ghost var table := net[..netCount];
      var input: Option<nat>, output: Option<nat> := None, None;
      var inputNet: U64, outputNet: U64 := 0, 0;
      for i := 0 to netCount
        invariant input == Leader(table, i, true) && inputNet == Held(table, input, true)
        invariant output == Leader(table, i, false) && outputNet == Held(table, output, false)
      {
        var m := net[i];
        assert m == table[i];
        if m.inSum > m.outSum {
          if m.inSum - m.outSum > inputNet {
            inputNet := m.inSum - m.outSum;
            input := Some(i);
          }
        } else if m.outSum > m.inSum {
          if m.outSum - m.inSum > outputNet {
            outputNet := m.outSum - m.inSum;
            output := Some(i);
          }
        }
      }
      if input == None || output == None {
        return;
      }
      rows[count] := Row(net[input.value].mint, inputNet, net[output.value].mint, outputNet);
      count := count + 1;
    }
  }
}
