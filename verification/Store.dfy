/**
 The reference store of `src/store.c`, rows in growable vectors compacted in place, and the bars
 table of `src/pg_store.c`; and that either, reorged, still agrees with the bar registry.
 */
module Stores {
  import opened BarKeys
  import opened Bars
  import opened Numbers
  import opened BarRegistry
  import opened Words

  const MIN_CAPACITY: nat := 8
  const KINDS: nat := 8

  /** A row of any kind; a bar is read and deleted by the slot of its latest swap. */
  datatype Row = Plain(slot: nat, body: nat) | Bar(key: BarKey, candle: Candle)

  function SlotOf(row: Row): nat {
    if row.Plain? then row.slot else row.candle.closeAt.slot
  }

  /** One list of rows for each of the eight kinds. */
  type WriteSet = s: seq<seq<Row>> | |s| == KINDS witness seq(KINDS, _ => [])

  // ---------------------------------------------------------------- keeping rows by slot

  predicate Keeps(row: Row, below: bool, pivot: nat) {
    if below then SlotOf(row) < pivot else SlotOf(row) >= pivot
  }

  function Kept(rows: seq<Row>, below: bool, pivot: nat): (r: seq<Row>)
    ensures |r| <= |rows|
  {
    if rows == [] then []
    else
      var n := |rows| - 1;
      Kept(rows[..n], below, pivot) + if Keeps(rows[n], below, pivot) then [rows[n]] else []
  }

  lemma KeptStep(rows: seq<Row>, r: nat, below: bool, pivot: nat)
    requires r < |rows|
    ensures Kept(rows[..r + 1], below, pivot) ==
            Kept(rows[..r], below, pivot) + if Keeps(rows[r], below, pivot) then [rows[r]] else []
  {
    assert rows[..r + 1][..r] == rows[..r];
  }

  /** The rows kept are the rows on the right side of the pivot. */
  lemma {:induction false} KeptMembers(rows: seq<Row>, below: bool, pivot: nat, row: Row)
    ensures row in Kept(rows, below, pivot) <==> row in rows && Keeps(row, below, pivot)
  {
    if rows != [] {
      var n := |rows| - 1;
      KeptMembers(rows[..n], below, pivot, row);
      assert rows == rows[..n] + [rows[n]];
    }
  }

  /**
   Which rows are kept, field by field: a plain row by its own slot, a bar by the slot of its close; those
   strictly below the pivot on the one side, and the rest, the pivot's own, on the other.
   */
  lemma KeptBySlot(rows: seq<Row>, pivot: nat, row: Row)
    ensures row.Plain? ==> (row in Kept(rows, true, pivot) <==> row in rows && row.slot < pivot)
    ensures row.Plain? ==> (row in Kept(rows, false, pivot) <==> row in rows && row.slot >= pivot)
    ensures row.Bar? ==> (row in Kept(rows, true, pivot) <==> row in rows && row.candle.closeAt.slot < pivot)
    ensures row.Bar? ==> (row in Kept(rows, false, pivot) <==> row in rows && row.candle.closeAt.slot >= pivot)
  {
    KeptMembers(rows, true, pivot, row);
    KeptMembers(rows, false, pivot, row);
  }

  /** After a reorg at `from`: the replacement, and of what there was exactly the rows of slots below it. */
  ghost predicate ReplacedBySlot(was: seq<Row>, from: nat, replacement: seq<Row>, now: seq<Row>) {
    forall row ::
      row in now <==>
      row in replacement || (row in was && (if row.Plain? then row.slot else row.candle.closeAt.slot) < from)
  }

  /** After a prune below `from`: exactly the rows of that slot and later ones. */
  ghost predicate PrunedBySlot(was: seq<Row>, from: nat, now: seq<Row>) {
    forall row ::
      row in now <==> row in was && (if row.Plain? then row.slot else row.candle.closeAt.slot) >= from
  }

  lemma KeptThenReplaced(was: seq<Row>, from: nat, replacement: seq<Row>)
    ensures ReplacedBySlot(was, from, replacement, Kept(was, true, from) + replacement)
  {
    forall row ensures row in Kept(was, true, from) <==>
                       row in was && (if row.Plain? then row.slot else row.candle.closeAt.slot) < from {
      KeptBySlot(was, from, row);
    }
  }

  lemma KeptIsPruned(was: seq<Row>, from: nat)
    ensures PrunedBySlot(was, from, Kept(was, false, from))
  {
    forall row ensures row in Kept(was, false, from) <==>
                       row in was && (if row.Plain? then row.slot else row.candle.closeAt.slot) >= from {
      KeptBySlot(was, from, row);
    }
  }

  /** Each row stands on one side of the pivot, as often as it was there. */
  lemma {:induction false} KeptSplits(rows: seq<Row>, pivot: nat)
    ensures multiset(Kept(rows, true, pivot)) + multiset(Kept(rows, false, pivot)) == multiset(rows)
  {
    if rows != [] {
      var n := |rows| - 1;
      KeptSplits(rows[..n], pivot);
      var init := rows[..n];
      SplitSnoc(Kept(init, true, pivot), Kept(init, false, pivot), init, rows[n], Keeps(rows[n], true, pivot));
      assert rows == rows[..n] + [rows[n]];
    }
  }

  lemma SplitSnoc(a: seq<Row>, b: seq<Row>, all: seq<Row>, row: Row, first: bool)
    requires multiset(a) + multiset(b) == multiset(all)
    ensures multiset(if first then a + [row] else a) + multiset(if first then b else b + [row]) == multiset(all + [row])
  {
  }

  /** The rows kept stay in the order they were in. */
  lemma {:induction false} KeptInOrder(rows: seq<Row>, below: bool, pivot: nat) returns (at: seq<nat>)
    ensures |at| == |Kept(rows, below, pivot)|
    ensures forall i | 0 <= i < |at| :: at[i] < |rows| && rows[at[i]] == Kept(rows, below, pivot)[i]
    ensures forall i, j | 0 <= i < j < |at| :: at[i] < at[j]
  {
    if rows == [] {
      at := [];
    } else {
      var n := |rows| - 1;
      at := KeptInOrder(rows[..n], below, pivot);
      if Keeps(rows[n], below, pivot) { at := at + [n]; }
    }
  }

  // ---------------------------------------------------------------- vectors

  /** `capacity`, doubled until it holds `needed`, or `needed` itself where it cannot be doubled. */
  function Doubled(capacity: nat, needed: nat): nat
    requires capacity > 0
    decreases needed - capacity
  {
    if capacity >= needed then capacity
    else if capacity > SIZE_MAX / 2 then needed
    else Doubled(2 * capacity, needed)
  }

  function Growth(capacity: nat, needed: nat): nat {
    Doubled(if capacity > 0 then capacity else MIN_CAPACITY, needed)
  }

  /** Growing makes room, never shrinks, and where it grows stays below twice what is needed. */
  lemma {:induction false} DoubledBounds(capacity: nat, needed: nat)
    requires capacity > 0
    ensures Doubled(capacity, needed) >= needed && Doubled(capacity, needed) >= capacity
    ensures Doubled(capacity, needed) == capacity || Doubled(capacity, needed) < 2 * needed
    ensures capacity <= SIZE_MAX && needed <= SIZE_MAX ==> Doubled(capacity, needed) <= SIZE_MAX
    decreases needed - capacity
  {
    if capacity < needed && capacity <= SIZE_MAX / 2 { DoubledBounds(2 * capacity, needed); }
  }

  /**
   The capacity is the first doubling that holds what is needed; where the doubling before it is too large
   to double again, it is what is needed and no more.
   */
  lemma {:induction false} DoubledIsFirst(capacity: nat, needed: nat) returns (k: nat)
    requires capacity > 0
    ensures Doubled(capacity, needed) == if capacity * Pow(2, k) >= needed then capacity * Pow(2, k) else needed
    ensures capacity * Pow(2, k) < needed ==> capacity * Pow(2, k) > SIZE_MAX / 2
    ensures k > 0 ==> capacity * Pow(2, k - 1) < needed && capacity * Pow(2, k - 1) <= SIZE_MAX / 2
    decreases needed - capacity
  {
    if capacity >= needed || capacity > SIZE_MAX / 2 {
      k := 0;
      assert Pow(2, 0) == 1;
    } else {
      var j := DoubledIsFirst(2 * capacity, needed);
      k := j + 1;
      PowDoubles(capacity, j);
      if j > 0 { PowDoubles(capacity, j - 1); } else { assert Pow(2, 0) == 1; }
      hide Pow();
    }
  }

  lemma PowDoubles(capacity: nat, k: nat)
    ensures capacity * Pow(2, k + 1) == 2 * capacity * Pow(2, k)
  {
  }

  class Vec {
    var data: array<Row>
    var len: nat
    const elemSize: nat

    ghost predicate Valid()
      reads this
    {
      len <= data.Length && elemSize > 0
    }

    ghost function Rows(): seq<Row>
      requires Valid()
      reads this, data
    {
      data[..len]
    }

    ghost function Room(): nat
      requires Valid()
      reads this
    {
      data.Length - len
    }

    /** Whether there is room for that many more rows, or the vector can grow when `memory` is to be had. */
    ghost predicate CanTake(additional: nat, memory: bool)
      requires Valid()
      reads this
    {
      || Room() >= additional
      || (memory && len + additional <= SIZE_MAX && Growth(data.Length, len + additional) <= SIZE_MAX / elemSize)
    }

    /** With memory to be had, only what 64 bits cannot address is refused. */
    lemma RefusedOnlyWhenHuge(additional: nat)
      requires Valid() && !CanTake(additional, true)
      ensures len + additional > SIZE_MAX || 2 * (len + additional) > SIZE_MAX / elemSize
              || data.Length > SIZE_MAX / elemSize || MIN_CAPACITY > SIZE_MAX / elemSize
    {
      DoubledBounds(if data.Length > 0 then data.Length else MIN_CAPACITY, len + additional);
    }

    constructor (size: nat)
      requires size > 0
      ensures Valid() && fresh(data) && Rows() == [] && data.Length == 0 && elemSize == size
    {
      data := new Row[0];
      len := 0;
      elemSize := size;
    }

    /** The capacity to grow to: doubled until it holds `needed`. */
    method GrowthFor(needed: nat) returns (capacity: nat)
      requires Valid()
      ensures capacity == Growth(data.Length, needed)
    {
      capacity := if data.Length > 0 then data.Length else MIN_CAPACITY;
      while capacity < needed
        invariant capacity > 0 && Doubled(capacity, needed) == Growth(data.Length, needed)
        decreases needed - capacity
      {
        if capacity > SIZE_MAX / 2 {
          capacity := needed;
          break;
        }
        capacity := capacity * 2;
      }
    }

    /** Room for `additional` rows; refused only when the vector has to grow and cannot. */
    method Reserve(additional: nat, memory: bool) returns (ok: bool)
      requires Valid()
      modifies `data
      ensures Valid() && Rows() == old(Rows()) && (data == old(data) || fresh(data))
      ensures ok <==> old(CanTake(additional, memory))
      ensures ok ==> Room() >= additional
      ensures !ok || old(Room()) >= additional ==> data == old(data)
      ensures Room() >= old(Room())
    {
      if additional <= data.Length - len {
        return true;
      }
      if additional > SIZE_MAX - len {
        return false;
      }
      var capacity := GrowthFor(len + additional);
      if capacity > SIZE_MAX / elemSize {
        return false;
      }
      if !memory {
        return false;
      }
      DoubledBounds(if data.Length > 0 then data.Length else MIN_CAPACITY, len + additional);
      var grown := new Row[capacity](_ => Plain(0, 0));
      forall i | 0 <= i < len {
        grown[i] := data[i];
      }
      data := grown;
      ok := true;
    }

    method Push(row: Row, memory: bool) returns (ok: bool)
      requires Valid()
      modifies this, data
      ensures Valid() && (data == old(data) || fresh(data))
      ensures ok <==> old(CanTake(1, memory))
      ensures old(Room()) > 0 ==> ok && data == old(data) && Room() == old(Room()) - 1
      ensures Rows() == if ok then old(Rows()) + [row] else old(Rows())
    {
      ok := Reserve(1, memory);
      if !ok {
        return;
      }
      data[len] := row;
      len := len + 1;
    }

    /** Rows pushed where room was reserved: no push can fail. */
    method PushAll(rows: seq<Row>)
      requires Valid() && Room() >= |rows|
      modifies this, data
      ensures Valid() && data == old(data) && Rows() == old(Rows()) + rows
    {
      for i := 0 to |rows|
        invariant Valid() && data == old(data) && Room() >= |rows| - i
        invariant Rows() == old(Rows()) + rows[..i]
      {
        var ok := Push(rows[i], false);
        assert rows[..i + 1] == rows[..i] + [rows[i]];
      }
      assert rows[..|rows|] == rows;
    }

    /** One vector of `mem_rows_retain`: compacted in place, in order. */
    method Retain(below: bool, pivot: nat)
      requires Valid()
      modifies `len, data
      ensures Valid() && Rows() == Kept(old(Rows()), below, pivot) && len <= old(len)
    {
      ghost var before := data[..len];
      ghost var kept := Kept(before[..0], below, pivot);
      hide Kept(), Keeps();
      var w := 0;
      for r := 0 to len
        invariant w == |kept| <= r && len == old(len) == |before|
        invariant kept == Kept(before[..r], below, pivot)
        invariant forall k | 0 <= k < w :: data[k] == kept[k]
        invariant forall k | r <= k < len :: data[k] == before[k]
      {
        KeptStep(before, r, below, pivot);
        if Keeps(data[r], below, pivot) {
          if w != r {
            data[w] := data[r];
          }
          w := w + 1;
          kept := kept + [before[r]];
        }
      }
      assert before[..|before|] == before;
      len := w;
      assert data[..len] == kept;
    }
  }

  // ---------------------------------------------------------------- the reference store

  class MemRows {
    const vecs: seq<Vec>

    ghost predicate Valid()
      reads vecs
    {
      && |vecs| == KINDS
      && (forall e | 0 <= e < KINDS :: vecs[e].Valid())
      && (forall e, f | 0 <= e < f < KINDS :: vecs[e] != vecs[f])
      && (forall e, f | 0 <= e < f < KINDS :: vecs[e].data != vecs[f].data)
    }

    ghost function Arrays(): set<object>
      reads vecs
    {
      set v | v in vecs :: v.data
    }

    constructor (sizes: seq<nat>)
      requires |sizes| == KINDS && forall e | 0 <= e < KINDS :: sizes[e] > 0
      ensures Valid() && fresh(Arrays()) && forall e | 0 <= e < KINDS :: fresh(vecs[e])
      ensures forall e | 0 <= e < KINDS :: vecs[e].Rows() == []
    {
      var all: seq<Vec> := [];
      for e := 0 to KINDS
        invariant |all| == e
        invariant forall k | 0 <= k < e :: fresh(all[k]) && fresh(all[k].data) && all[k].Valid() && all[k].Rows() == []
        invariant forall k, m | 0 <= k < m < e :: all[k] != all[m] && all[k].data != all[m].data
      {
        var v := new Vec(sizes[e]);
        all := all + [v];
      }
      vecs := all;
    }

    // One vector at a time: the others stay as they are.

    method ReserveAt(e: nat, additional: nat, memory: bool) returns (ok: bool)
      requires Valid() && e < KINDS
      modifies vecs
      ensures Valid() && forall k | 0 <= k < KINDS :: vecs[k].data == old(vecs[k].data) || fresh(vecs[k].data)
      ensures forall k | 0 <= k < KINDS ::
                vecs[k].Rows() == old(vecs[k].Rows()) && vecs[k].Room() >= old(vecs[k].Room())
      ensures ok ==> vecs[e].Room() >= additional
      ensures ok <==> old(vecs[e].CanTake(additional, memory))
      ensures forall k | 0 <= k < KINDS && k != e ::
                vecs[k].data == old(vecs[k].data) && vecs[k].len == old(vecs[k].len)
    {
      ok := vecs[e].Reserve(additional, memory);
    }

    method PushAt(e: nat, rows: seq<Row>)
      requires Valid() && e < KINDS && vecs[e].Room() >= |rows|
      modifies vecs, Arrays()
      ensures Valid() && forall k | 0 <= k < KINDS :: vecs[k].data == old(vecs[k].data)
      ensures vecs[e].Rows() == old(vecs[e].Rows()) + rows
      ensures forall k | 0 <= k < KINDS && k != e ::
                vecs[k].Rows() == old(vecs[k].Rows()) && vecs[k].Room() == old(vecs[k].Room())
    {
      vecs[e].PushAll(rows);
    }

    method RetainAt(e: nat, below: bool, pivot: nat)
      requires Valid() && e < KINDS
      modifies vecs, Arrays()
      ensures Valid() && forall k | 0 <= k < KINDS :: vecs[k].data == old(vecs[k].data)
      ensures vecs[e].Rows() == Kept(old(vecs[e].Rows()), below, pivot) && vecs[e].Room() >= old(vecs[e].Room())
      ensures forall k | 0 <= k < KINDS && k != e ::
                vecs[k].Rows() == old(vecs[k].Rows()) && vecs[k].Room() == old(vecs[k].Room())
    {
      vecs[e].Retain(below, pivot);
    }

    /** Every vector has room for its share of `rows`, or can grow to it when its `memory` is to be had. */
    ghost predicate CanTakeAll(rows: WriteSet, memory: nat -> bool)
      requires Valid()
      reads vecs
    {
      forall e | 0 <= e < KINDS :: vecs[e].CanTake(|rows[e]|, memory(e))
    }

    /** Room in every vector for its share of `rows`; a refusal leaves every row where it was. */
    method ReserveAll(rows: WriteSet, memory: nat -> bool) returns (ok: bool)
      requires Valid()
      modifies vecs
      ensures Valid() && forall e | 0 <= e < KINDS :: vecs[e].data == old(vecs[e].data) || fresh(vecs[e].data)
      ensures forall e | 0 <= e < KINDS ::
                vecs[e].Rows() == old(vecs[e].Rows()) && vecs[e].Room() >= old(vecs[e].Room())
      ensures ok ==> forall e | 0 <= e < KINDS :: vecs[e].Room() >= |rows[e]|
      ensures ok <==> old(CanTakeAll(rows, memory))
    {
      hide Growth;
      for e := 0 to KINDS
        invariant Valid()
        invariant forall k | e <= k < KINDS :: vecs[k].data == old(vecs[k].data) && vecs[k].len == old(vecs[k].len)
        invariant forall k | 0 <= k < e :: old(vecs[k].CanTake(|rows[k]|, memory(k)))
        invariant forall k | 0 <= k < KINDS :: vecs[k].data == old(vecs[k].data) || fresh(vecs[k].data)
        invariant forall k | 0 <= k < KINDS ::
          vecs[k].Rows() == old(vecs[k].Rows()) && vecs[k].Room() >= old(vecs[k].Room())
        invariant forall k | 0 <= k < e :: vecs[k].Room() >= |rows[k]|
      {
        ok := ReserveAt(e, |rows[e]|, memory(e));
        if !ok {
          return;
        }
      }
      ok := true;
    }

    method PushEach(rows: WriteSet)
      requires Valid() && forall e | 0 <= e < KINDS :: vecs[e].Room() >= |rows[e]|
      modifies vecs, Arrays()
      ensures Valid() && forall e | 0 <= e < KINDS :: vecs[e].data == old(vecs[e].data)
      ensures forall e | 0 <= e < KINDS :: vecs[e].Rows() == old(vecs[e].Rows()) + rows[e]
    {
      for e := 0 to KINDS
        invariant Valid()
        invariant forall k | 0 <= k < KINDS :: vecs[k].data == old(vecs[k].data)
        invariant forall k | e <= k < KINDS :: vecs[k].Rows() == old(vecs[k].Rows()) && vecs[k].Room() >= |rows[k]|
        invariant forall k | 0 <= k < e :: vecs[k].Rows() == old(vecs[k].Rows()) + rows[k]
      {
        PushAt(e, rows[e]);
      }
    }

    /** `mem_rows_append`: all the rows, or none of them. */
    method Append(rows: WriteSet, memory: nat -> bool) returns (ok: bool)
      requires Valid()
      modifies vecs, Arrays()
      ensures Valid()
      ensures forall e | 0 <= e < KINDS :: vecs[e].Rows() == old(vecs[e].Rows()) + if ok then rows[e] else []
      ensures ok <==> old(CanTakeAll(rows, memory))
    {
      ok := ReserveAll(rows, memory);
      if ok {
        PushEach(rows);
      }
    }

    /** `mem_rows_retain`. */
    method Retain(below: bool, pivot: nat)
      requires Valid()
      modifies vecs, Arrays()
      ensures Valid() && forall e | 0 <= e < KINDS :: vecs[e].data == old(vecs[e].data)
      ensures forall e | 0 <= e < KINDS ::
                vecs[e].Rows() == Kept(old(vecs[e].Rows()), below, pivot) && vecs[e].Room() >= old(vecs[e].Room())
    {
      hide Kept();
      for e := 0 to KINDS
        invariant Valid()
        invariant forall k | 0 <= k < KINDS :: vecs[k].data == old(vecs[k].data)
        invariant forall k | e <= k < KINDS ::
                    vecs[k].Rows() == old(vecs[k].Rows()) && vecs[k].Room() == old(vecs[k].Room())
        invariant forall k | 0 <= k < e ::
          vecs[k].Rows() == Kept(old(vecs[k].Rows()), below, pivot) && vecs[k].Room() >= old(vecs[k].Room())
      {
        RetainAt(e, below, pivot);
      }
    }

    /** The rows at or above `from` replaced; once anything is deleted nothing can fail. */
    method ReplaceFrom(from: nat, replacement: WriteSet, memory: nat -> bool) returns (ok: bool)
      requires Valid()
      modifies vecs, Arrays()
      ensures Valid() && (ok <==> old(CanTakeAll(replacement, memory)))
      ensures forall e | 0 <= e < KINDS ::
                vecs[e].Rows() ==
                if ok then Kept(old(vecs[e].Rows()), true, from) + replacement[e] else old(vecs[e].Rows())
    {
      hide Growth, Kept;
      ok := ReserveAll(replacement, memory);
      if !ok {
        return;
      }
      Retain(true, from);
      ok := Append(replacement, memory);
    }

    /**
     `mem_confirmed_reorg`: the rows at or above `from` replaced, or, with no memory to be had, every
     row where it was.
     */
    method Reorg(from: nat, replacement: WriteSet, memory: nat -> bool) returns (ok: bool)
      requires Valid()
      modifies vecs, Arrays()
      ensures Valid() && (ok <==> old(CanTakeAll(replacement, memory)))
      ensures forall e | 0 <= e < KINDS ::
                vecs[e].Rows() ==
                if ok then Kept(old(vecs[e].Rows()), true, from) + replacement[e] else old(vecs[e].Rows())
      ensures ok ==> forall e | 0 <= e < KINDS ::
                ReplacedBySlot(old(vecs[e].Rows()), from, replacement[e], vecs[e].Rows())
    {
      hide Growth, Kept, ReplacedBySlot;
      ok := ReplaceFrom(from, replacement, memory);
      forall e | 0 <= e < KINDS
        ensures ok ==> ReplacedBySlot(old(vecs[e].Rows()), from, replacement[e], vecs[e].Rows())
      {
        KeptThenReplaced(old(vecs[e].Rows()), from, replacement[e]);
      }
    }

    /** `mem_confirmed_prune`. */
    method Prune(from: nat)
      requires Valid()
      modifies vecs, Arrays()
      ensures Valid() && forall e | 0 <= e < KINDS :: vecs[e].Rows() == Kept(old(vecs[e].Rows()), false, from)
      ensures forall e | 0 <= e < KINDS :: PrunedBySlot(old(vecs[e].Rows()), from, vecs[e].Rows())
    {
      hide Kept, PrunedBySlot;
      Retain(false, from);
      forall e | 0 <= e < KINDS ensures PrunedBySlot(old(vecs[e].Rows()), from, vecs[e].Rows()) {
        KeptIsPruned(old(vecs[e].Rows()), from);
      }
    }
  }
}
