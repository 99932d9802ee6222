/**
 Bars in the two stores: the reference store's vector of bar rows (`src/store.c`) and the table whose
 ON CONFLICT clause merges (`src/pg_store.c`). Reorged with the bars the registry rebuilt, both again
 hold exactly the registry's bars.
 */
module BarStores {
  import opened BarKeys
  import opened Bars
  import opened BarRegistry
  import opened Stores
  import opened Options

  // ---------------------------------------------------------------- rows that hold a registry's bars

  ghost predicate KeysDistinct(rows: seq<Row>) {
    forall i, j | 0 <= i < j < |rows| && rows[i].Bar? && rows[j].Bar? :: rows[i].key != rows[j].key
  }

  /** The rows are the bars of `m`, each once. */
  ghost predicate HoldsBars(rows: seq<Row>, m: BarMap) {
    && KeysDistinct(rows)
    && (forall i | 0 <= i < |rows| :: rows[i].Bar? && rows[i].key in m && m[rows[i].key] == rows[i].candle)
    && forall k | k in m :: Bar(k, m[k]) in rows
  }

  /** The bars a reorg rebuilt: the recomputed registry, where it was affected. */
  function Rebuilt(m: BarMap, from: nat, survivors: seq<Input>): BarMap {
    var now := Recompute(m, from, survivors);
    map k | k in now && k in Affected(m, from) :: now[k]
  }

  lemma {:induction false} KeptDistinct(rows: seq<Row>, below: bool, pivot: nat)
    requires KeysDistinct(rows)
    ensures KeysDistinct(Kept(rows, below, pivot))
  {
    if rows != [] {
      var n := |rows| - 1;
      KeptDistinct(rows[..n], below, pivot);
      var kept := Kept(rows[..n], below, pivot);
      forall i | 0 <= i < |kept| && kept[i].Bar? && rows[n].Bar? ensures kept[i].key != rows[n].key {
        KeptMembers(rows[..n], below, pivot, kept[i]);
        var j :| 0 <= j < n && rows[j] == kept[i];
      }
    }
  }

  /** Deleting what the reorg reaches leaves exactly the bars it did not affect. */
  lemma KeptHoldsUnaffected(rows: seq<Row>, m: BarMap, from: nat)
    requires HoldsBars(rows, m)
    ensures HoldsBars(Kept(rows, true, from), m - Affected(m, from))
  {
    KeptDistinct(rows, true, from);
    var kept, rest := Kept(rows, true, from), m - Affected(m, from);
    forall i | 0 <= i < |kept|
      ensures kept[i].Bar? && kept[i].key in rest && rest[kept[i].key] == kept[i].candle
    {
      KeptMembers(rows, true, from, kept[i]);
    }
    forall k | k in rest ensures Bar(k, rest[k]) in kept {
      KeptMembers(rows, true, from, Bar(k, m[k]));
    }
  }

  lemma JoinedRowsHold(a: seq<Row>, b: seq<Row>, m: BarMap, n: BarMap)
    requires HoldsBars(a, m) && HoldsBars(b, n) && m.Keys !! n.Keys
    ensures HoldsBars(a + b, m + n)
  {
    var all, both := a + b, m + n;
    forall i, j | 0 <= i < j < |all| ensures all[i].key != all[j].key {
      if i < |a| <= j { assert a[i].key in m && b[j - |a|].key in n; }
    }
    forall k | k in both ensures Bar(k, both[k]) in all {
      if k in n { assert Bar(k, n[k]) in b; } else { assert Bar(k, m[k]) in a; }
    }
  }

  lemma RecomputeSplits(m: BarMap, from: nat, survivors: seq<Input>)
    ensures Recompute(m, from, survivors) == (m - Affected(m, from)) + Rebuilt(m, from, survivors)
  {
    var affected := Affected(m, from);
    var now, rest, rebuilt := Recompute(m, from, survivors), m - affected, Rebuilt(m, from, survivors);
    forall k ensures Lookup(now, k) == Lookup(rest + rebuilt, k) {
      RefoldLookup(rest, affected, survivors, k);
    }
    forall k ensures k in now <==> k in rest + rebuilt {
      assert Lookup(now, k) == Lookup(rest + rebuilt, k);
    }
    forall k | k in now ensures now[k] == (rest + rebuilt)[k] {
      assert Lookup(now, k) == Lookup(rest + rebuilt, k);
    }
  }

  /**
   A store holding exactly the registry's bars, reorged with the rebuilt bars, holds exactly the
   registry's bars again.
   */
  lemma ReorgKeepsStoreAndRegistryTogether(
    rows: seq<Row>, m: BarMap, from: nat, survivors: seq<Input>, replacement: seq<Row>)
    requires HoldsBars(rows, m) && HoldsBars(replacement, Rebuilt(m, from, survivors))
    ensures HoldsBars(Kept(rows, true, from) + replacement, Recompute(m, from, survivors))
  {
    KeptHoldsUnaffected(rows, m, from);
    RecomputeSplits(m, from, survivors);
    JoinedRowsHold(Kept(rows, true, from), replacement, m - Affected(m, from), Rebuilt(m, from, survivors));
  }

  // ---------------------------------------------------------------- the table that merges

  /** `put_bar`. */
  function PutBar(table: BarMap, key: BarKey, candle: Candle): BarMap {
    table[key := if key in table then Merge(table[key], candle) else candle]
  }

  function PutBars(table: BarMap, rows: seq<Row>): BarMap {
    if rows == [] then table
    else
      var before, row := PutBars(table, rows[..|rows| - 1]), rows[|rows| - 1];
      if row.Bar? then PutBar(before, row.key, row.candle) else before
  }

  /** `del_bars`. */
  function DeleteBars(table: BarMap, from: nat): BarMap {
    table - Affected(table, from)
  }

  /** `close_seq_slot`, kept by `greatest` on its own, stays the slot of the close. */
  lemma CloseSlotIsGreatest(bars: Candle, excluded: Candle)
    ensures var slot := Merge(bars, excluded).closeAt.slot;
            slot == if bars.closeAt.slot >= excluded.closeAt.slot then bars.closeAt.slot else excluded.closeAt.slot
  {
    CompareIsTotalOrder(bars.closeAt, excluded.closeAt, excluded.closeAt);
    CompareIsTotalOrder(excluded.closeAt, bars.closeAt, bars.closeAt);
  }

  /** The candle the rows bring for a key, if any. */
  function Brought(rows: seq<Row>, k: BarKey): Option<Candle> {
    if rows == [] then None
    else
      var row := rows[|rows| - 1];
      if row.Bar? && row.key == k then Some(row.candle) else Brought(rows[..|rows| - 1], k)
  }

  lemma {:induction false} NotBrought(rows: seq<Row>, k: BarKey)
    ensures Brought(rows, k) == None <==> forall i | 0 <= i < |rows| && rows[i].Bar? :: rows[i].key != k
    ensures Brought(rows, k).Some? ==> Bar(k, Brought(rows, k).value) in rows
  {
    if rows != [] { NotBrought(rows[..|rows| - 1], k); }
  }

  lemma {:induction false} PutBarsLookup(table: BarMap, rows: seq<Row>, k: BarKey)
    requires KeysDistinct(rows)
    ensures Lookup(PutBars(table, rows), k) == MergeOpt(Lookup(table, k), Brought(rows, k))
  {
    if rows != [] {
      var n := |rows| - 1;
      PutBarsLookup(table, rows[..n], k);
      if rows[n].Bar? && rows[n].key == k { NotBrought(rows[..n], k); }
    }
  }

  lemma BroughtIsLookup(rows: seq<Row>, m: BarMap, k: BarKey)
    requires HoldsBars(rows, m)
    ensures Brought(rows, k) == Lookup(m, k)
  {
    NotBrought(rows, k);
    if k in m {
      var i :| 0 <= i < |rows| && rows[i] == Bar(k, m[k]);
    }
  }

  /** A row's quote is that of the last bar written for it. */
  lemma {:induction false} LastWriteQuotes(table: BarMap, rows: seq<Row>, k: BarKey)
    ensures k in PutBars(table, rows) <==> k in table || Brought(rows, k).Some?
    ensures k in PutBars(table, rows) ==>
              PutBars(table, rows)[k].quote ==
              (if Brought(rows, k).Some? then Brought(rows, k).value else table[k]).quote
  {
    if rows != [] { LastWriteQuotes(table, rows[..|rows| - 1], k); }
  }

  /** Writing a registry's bars merges each with what the table holds. */
  lemma PutHeldBars(table: BarMap, rows: seq<Row>, m: BarMap, k: BarKey)
    requires HoldsBars(rows, m)
    ensures Lookup(PutBars(table, rows), k) == MergeOpt(Lookup(table, k), Lookup(m, k))
  {
    PutBarsLookup(table, rows, k);
    BroughtIsLookup(rows, m, k);
  }

  /**
   Bars written in parts add up: a table derived from one set of swaps, given the bars of another,
   is derived from both, though neither writer knew of the other.
   */
  lemma WritesAddUp(table: BarMap, rows: seq<Row>, m: BarMap, a: seq<Input>, b: seq<Input>, union: seq<Input>)
    requires Derived(table, a) && Derived(m, b) && HoldsBars(rows, m)
    requires CleanHistory(union) && multiset(union) == multiset(a) + multiset(b)
    ensures Derived(PutBars(table, rows), union)
  {
    forall k ensures Lookup(PutBars(table, rows), k) == Fold(union, Selects(k)) {
      PutHeldBars(table, rows, m, k);
      MergeIsUnion(a, b, union, Selects(k));
    }
  }

  lemma SameLookups(m: BarMap, n: BarMap)
    requires forall k :: Lookup(m, k) == Lookup(n, k)
    ensures m == n
  {
    forall k ensures k in m <==> k in n {
      assert Lookup(m, k) == Lookup(n, k);
    }
    forall k | k in m ensures m[k] == n[k] {
      assert Lookup(m, k) == Lookup(n, k);
    }
  }

  /** The table, reorged with the rebuilt bars, is the recomputed registry: nothing is left to merge with. */
  lemma TableReorgIsRecompute(table: BarMap, from: nat, survivors: seq<Input>, replacement: seq<Row>)
    requires HoldsBars(replacement, Rebuilt(table, from, survivors))
    ensures PutBars(DeleteBars(table, from), replacement) == Recompute(table, from, survivors)
  {
    var rest, rebuilt := DeleteBars(table, from), Rebuilt(table, from, survivors);
    RecomputeSplits(table, from, survivors);
    forall k ensures Lookup(PutBars(rest, replacement), k) == Lookup(rest + rebuilt, k) {
      PutHeldBars(rest, replacement, rebuilt, k);
    }
    SameLookups(PutBars(rest, replacement), rest + rebuilt);
  }

  /** After a reorg the table is what deriving afresh from the swaps below it would give. */
  lemma TableReorgIsFreshDerivation(
    table: BarMap, h: seq<Input>, from: nat, survivors: seq<Input>, replacement: seq<Row>)
    requires Derived(table, h) && CleanHistory(h)
    requires forall k | k in Affected(table, from) :: SurvivorsOf(h, from, survivors, k)
    requires HoldsBars(replacement, Rebuilt(table, from, survivors))
    ensures Derived(PutBars(DeleteBars(table, from), replacement), Below(h, from))
  {
    RecomputeIsFreshDerivation(table, h, from, survivors);
    TableReorgIsRecompute(table, from, survivors, replacement);
  }

  /**
   Writing to the reference store agrees with the merging table exactly when no bar is already there:
   its rows are appended, never merged.
   */
  lemma AppendAgreesIff(rows: seq<Row>, m: BarMap, more: seq<Row>, n: BarMap)
    requires HoldsBars(rows, m) && HoldsBars(more, n)
    ensures HoldsBars(rows + more, PutBars(m, more)) <==> m.Keys !! n.Keys
  {
    if m.Keys !! n.Keys {
      JoinedRowsHold(rows, more, m, n);
      forall k ensures Lookup(PutBars(m, more), k) == Lookup(m + n, k) {
        PutHeldBars(m, more, n, k);
      }
      SameLookups(PutBars(m, more), m + n);
    } else {
      var k :| k in m && k in n;
      var i :| 0 <= i < |rows| && rows[i] == Bar(k, m[k]);
      var j :| 0 <= j < |more| && more[j] == Bar(k, n[k]);
      var all := rows + more;
      assert all[i].key == all[|rows| + j].key;
    }
  }

  // ---------------------------------------------------------------- the transactional store

  class PgBars {
    var bars: BarMap

    constructor ()
      ensures bars == map[]
    {
      bars := map[];
    }

    /** One statement; `answer` is the database's. */
    method Put(key: BarKey, candle: Candle, answer: bool) returns (ok: bool)
      modifies this
      ensures ok == answer && bars == if ok then PutBar(old(bars), key, candle) else old(bars)
    {
      if !answer {
        return false;
      }
      if key in bars {
        var stored := bars[key];
        bars := bars[key := Merge(stored, candle)];
      } else {
        bars := bars[key := candle];
      }
      ok := true;
    }

    /** The bars of `apply_write_set`, up to the first failure. */
    method ApplyWriteSet(rows: seq<Row>, answers: nat -> bool) returns (ok: bool)
      modifies this
      ensures ok <==> forall i | 0 <= i < |rows| && rows[i].Bar? :: answers(i)
      ensures ok ==> bars == PutBars(old(bars), rows)
    {
      for i := 0 to |rows|
        invariant forall j | 0 <= j < i && rows[j].Bar? :: answers(j)
        invariant bars == PutBars(old(bars), rows[..i])
      {
        assert rows[..i + 1][..i] == rows[..i];
        if rows[i].Bar? {
          ok := Put(rows[i].key, rows[i].candle, answers(i));
          if !ok {
            return;
          }
        }
      }
      assert rows[..|rows|] == rows;
      ok := true;
    }

    /** `store_write`: all the bars merged in, or, at the first statement or commit that fails, none. */
    method StoreWrite(rows: seq<Row>, answers: nat -> bool, committed: bool) returns (ok: bool)
      modifies this
      ensures ok <==> committed && forall i | 0 <= i < |rows| && rows[i].Bar? :: answers(i)
      ensures bars == if ok then PutBars(old(bars), rows) else old(bars)
    {
      var before := bars;
      ok := ApplyWriteSet(rows, answers);
      if ok {
        ok := committed;
      }
      if !ok {
        bars := before;
      }
    }

    /** `store_reorg`: one transaction, rolled back at the first statement that fails. */
    method StoreReorg(from: nat, replacement: seq<Row>, deleted: bool, answers: nat -> bool, committed: bool)
      returns (ok: bool)
      modifies this
      ensures ok <==> deleted && committed && forall i | 0 <= i < |replacement| && replacement[i].Bar? :: answers(i)
      ensures bars == if ok then PutBars(DeleteBars(old(bars), from), replacement) else old(bars)
    {
      var before := bars;
      if !deleted {
        return false;
      }
      bars := DeleteBars(bars, from);
      ok := ApplyWriteSet(replacement, answers);
      if ok {
        ok := committed;
      }
      if !ok {
        bars := before;
      }
    }
  }
}
