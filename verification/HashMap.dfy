/**
 The open-addressing hash map of `src/map.c`: linear probing, tombstones, and a rebuild at the same
 or twice the size. `HashMap` keeps a ghost map as its abstract value; the hash is any function.
 */
module HashMaps {
  import opened Bits
  import opened Circular
  import opened Options
  import opened Numbers
  import opened Words

  datatype Cell<K, V> = Empty | Tombstone | Occupied(hash: nat, key: K, value: V)

  const MIN_CAPACITY: nat := 16

  // ---------------------------------------------------------------- probing

  /** How many probes it takes from `home` to cell `i`. */
  function Reach(home: nat, i: nat, capacity: nat): (d: nat)
    requires home < capacity && i < capacity
    ensures d < capacity && Around(home, d, capacity) == i
  {
    if home <= i then i - home else i + capacity - home
  }

  /** A table holds exactly the keys of `place`, each at its place and reachable from its home. */
  ghost predicate Table<K, V>(cells: seq<Cell<K, V>>, place: map<K, nat>, hash: K -> nat) {
    && (forall k | k in place :: place[k] < |cells| && cells[place[k]].Occupied? && cells[place[k]].key == k)
    && (forall i | 0 <= i < |cells| && cells[i].Occupied? ::
          cells[i].key in place && place[cells[i].key] == i && cells[i].hash == hash(cells[i].key))
    && (forall i | 0 <= i < |cells| && cells[i].Occupied? :: Reachable(cells, Landing(cells[i].hash, |cells|), i))
  }

  /** No empty cell lies on the way from `home` to `i`. */
  ghost predicate Reachable<K, V>(cells: seq<Cell<K, V>>, home: nat, i: nat)
    requires home < |cells| && i < |cells|
  {
    forall d | 0 <= d < Reach(home, i, |cells|) :: !cells[Around(home, d, |cells|)].Empty?
  }

  ghost function Value<K, V>(cells: seq<Cell<K, V>>, place: map<K, nat>, hash: K -> nat): map<K, V>
    requires Table(cells, place, hash)
  {
    map k | k in place :: cells[place[k]].value
  }

  /** What a search along the probe sequence can answer. */
  datatype Search = Found(index: nat) | Vacant(index: nat) | Absent

  /** The first `n` probes meet no empty cell and not the key. */
  ghost predicate Passed<K, V>(cells: seq<Cell<K, V>>, home: nat, key: K, n: nat)
    requires home < |cells| && n <= |cells|
  {
    forall d | 0 <= d < n ::
      var cell := cells[Around(home, d, |cells|)];
      !cell.Empty? && (cell.Occupied? ==> cell.key != key)
  }

  /** Meeting an empty cell, or running out of probes, proves the key absent. */
  lemma EmptyEndsSearch<K, V>(cells: seq<Cell<K, V>>, place: map<K, nat>, hash: K -> nat, key: K, n: nat)
    requires Table(cells, place, hash) && |cells| > 0 && n <= |cells|
    requires Passed(cells, Landing(hash(key), |cells|), key, n)
    requires n < |cells| ==> cells[Around(Landing(hash(key), |cells|), n, |cells|)].Empty?
    ensures key !in place
  {
    var home := Landing(hash(key), |cells|);
    forall i | 0 <= i < |cells| && cells[i].Occupied? && cells[i].hash == hash(key) ensures cells[i].key != key {
      assert Reachable(cells, home, i);
      assert Around(home, Reach(home, i, |cells|), |cells|) == i;
    }
  }

  /** Storing a key in a free cell its probes can reach keeps the table. */
  lemma StoreKeepsTable<K, V>(cells: seq<Cell<K, V>>, place: map<K, nat>, hash: K -> nat, key: K, value: V, n: nat)
    requires Table(cells, place, hash) && n < |cells| && key !in place
    requires Passed(cells, Landing(hash(key), |cells|), key, n)
    requires !cells[Around(Landing(hash(key), |cells|), n, |cells|)].Occupied?
    ensures var i := Around(Landing(hash(key), |cells|), n, |cells|);
            var after := cells[i := Occupied(hash(key), key, value)];
            && Table(after, place[key := i], hash)
            && Value(after, place[key := i], hash) == Value(cells, place, hash)[key := value]
  {
    var home := Landing(hash(key), |cells|);
    var i := Around(home, n, |cells|);
    var after := cells[i := Occupied(hash(key), key, value)];
    forall j | 0 <= j < |cells| && after[j].Occupied? ensures Reachable(after, Landing(after[j].hash, |after|), j) {
      if j != i { assert Reachable(cells, Landing(cells[j].hash, |cells|), j); }
    }
  }

  /** Overwriting a cell's value keeps the table. */
  lemma OverwriteKeepsTable<K, V>(cells: seq<Cell<K, V>>, place: map<K, nat>, hash: K -> nat, key: K, value: V)
    requires Table(cells, place, hash) && key in place
    ensures var after := cells[place[key] := cells[place[key]].(value := value)];
            Table(after, place, hash) && Value(after, place, hash) == Value(cells, place, hash)[key := value]
  {
    var after := cells[place[key] := cells[place[key]].(value := value)];
    forall j | 0 <= j < |cells| && after[j].Occupied? ensures Reachable(after, Landing(after[j].hash, |after|), j) {
      assert Reachable(cells, Landing(cells[j].hash, |cells|), j);
    }
  }

  /** A tombstone keeps every other key reachable, where an empty cell would not. */
  lemma BuryKeepsTable<K, V>(cells: seq<Cell<K, V>>, place: map<K, nat>, hash: K -> nat, key: K)
    requires Table(cells, place, hash) && key in place
    ensures var after := cells[place[key] := Tombstone];
            Table(after, place - {key}, hash) && Value(after, place - {key}, hash) == Value(cells, place, hash) - {key}
  {
    var after := cells[place[key] := Tombstone];
    forall j | 0 <= j < |cells| && after[j].Occupied? ensures Reachable(after, Landing(after[j].hash, |after|), j) {
      assert Reachable(cells, Landing(cells[j].hash, |cells|), j);
    }
  }

  // ---------------------------------------------------------------- counting

  predicate IsEmpty<K, V>(c: Cell<K, V>) { c.Empty? }
  predicate IsTombstone<K, V>(c: Cell<K, V>) { c.Tombstone? }
  predicate IsOccupied<K, V>(c: Cell<K, V>) { c.Occupied? }

  /** How many of the first `n` cells are of the given kind. */
  ghost function Count<K, V>(cells: seq<Cell<K, V>>, n: nat, kind: Cell<K, V> -> bool): nat
    requires n <= |cells|
  {
    if n == 0 then 0 else Count(cells, n - 1, kind) + if kind(cells[n - 1]) then 1 else 0
  }

  lemma {:induction false} CountUpdate<K, V>(
    cells: seq<Cell<K, V>>, n: nat, i: nat, c: Cell<K, V>, kind: Cell<K, V> -> bool)
    requires n <= |cells| && i < |cells|
    ensures Count(cells[i := c], n, kind) ==
            Count(cells, n, kind) + if i >= n || kind(c) == kind(cells[i]) then 0 else if kind(c) then 1 else -1
  {
    if n > 0 { CountUpdate(cells, n - 1, i, c, kind); }
  }

  lemma {:induction false} CountsAddUp<K, V>(cells: seq<Cell<K, V>>, n: nat)
    requires n <= |cells|
    ensures Count(cells, n, IsOccupied) + Count(cells, n, IsTombstone) + Count(cells, n, IsEmpty) == n
  {
    if n > 0 { CountsAddUp(cells, n - 1); }
  }

  lemma {:induction false} SomeEmpty<K, V>(cells: seq<Cell<K, V>>, n: nat) returns (i: nat)
    requires n <= |cells| && Count(cells, n, IsEmpty) > 0
    ensures i < n && cells[i].Empty?
  {
    if cells[n - 1].Empty? { i := n - 1; } else { i := SomeEmpty(cells, n - 1); }
  }

  // ---------------------------------------------------------------- the map

  /** Capacities start at 16 and double. */
  ghost predicate Capacity(n: nat) {
    n == MIN_CAPACITY || (n > MIN_CAPACITY && n % 2 == 0 && Capacity(n / 2))
  }

  lemma {:induction false} CapacityByFours(n: nat)
    requires Capacity(n)
    ensures n >= 16 && n % 4 == 0
  {
    if n > MIN_CAPACITY { CapacityByFours(n / 2); }
  }

  lemma CapacityStarts()
    ensures Capacity(MIN_CAPACITY)
  {
  }

  lemma CapacityDoubles(n: nat)
    requires Capacity(n)
    ensures Capacity(2 * n)
  {
    CapacityByFours(n);
    assert 2 * n / 2 == n;
  }

  lemma {:induction false} CapacityIsPower(n: nat) returns (k: nat)
    requires Capacity(n)
    ensures n == Pow(2, k)
  {
    if n == MIN_CAPACITY {
      k := 4;
      assert Pow(2, 4) == 16;
    } else {
      k := CapacityIsPower(n / 2);
      k := k + 1;
    }
  }

  /** What the source computes with a mask is the home cell, and the next probe with its wrap. */
  lemma MaskFindsCells(h: nat, i: nat, n: nat)
    requires Capacity(n) && i < n
    ensures n > 0 && And(h, n - 1) == Landing(h, n) && And(i + 1, n - 1) == Around(i, 1, n)
  {
    var k := CapacityIsPower(n);
    CapacityByFours(n);
    hide And(), Pow(), Capacity();
    MaskIsRemainder(h, k);
    MaskIsRemainder(i + 1, k);
    if i + 1 < n { RemainderIs(i + 1, n, 0, i + 1); } else { RemainderIs(n, n, 1, 0); }
  }

  /**
   `find_slot`: the cell holding `key`, or else, for an insertion, the first reusable cell its
   probes meet, taken only once the key is known to be absent further along.
   */
  method FindSlot<K(==), V>(
    cells: array<Cell<K, V>>, key: K, h: nat, forInsert: bool, ghost place: map<K, nat>, ghost hash: K -> nat)
    returns (r: Search, ghost n: nat)
    requires Table(cells[..], place, hash) && h == hash(key)
    ensures r.Found? ==> key in place && r.index == place[key]
    ensures !r.Found? ==> key !in place
    ensures r.Vacant? ==>
              && forInsert && n < cells.Length && r.index == Around(Landing(h, cells.Length), n, cells.Length)
              && !cells[r.index].Occupied? && Passed(cells[..], Landing(h, cells.Length), key, n)
              && forall d | 0 <= d < n :: cells[Around(Landing(h, cells.Length), d, cells.Length)].Occupied?
    ensures r.Absent? && forInsert ==> forall i | 0 <= i < cells.Length :: !cells[i].Empty?
  {
    n := 0;
    if cells.Length == 0 {
      return Absent, 0;
    }
    var home := Landing(h, cells.Length);
    var index := home;
    var reusable := -1;
    var probe := 0;
    while probe < cells.Length
      invariant probe <= cells.Length
      invariant index == if probe < cells.Length then Around(home, probe, cells.Length) else home
      invariant Passed(cells[..], home, key, probe)
      invariant reusable == -1 ==> n == probe
      invariant n <= probe && forall d | 0 <= d < n :: cells[Around(home, d, cells.Length)].Occupied?
      invariant reusable != -1 ==> n < probe && reusable == Around(home, n, cells.Length) && cells[reusable].Tombstone?
    {
      var cell := cells[index];
      if cell.Empty? {
        EmptyEndsSearch(cells[..], place, hash, key, probe);
        if !forInsert {
          return Absent, n;
        }
        return Vacant(if reusable != -1 then reusable else index), n;
      }
      if cell.Tombstone? {
        if reusable == -1 {
          reusable := index;
        }
      } else if cell.hash == h && cell.key == key {
        return Found(index), n;
      }
      if reusable == -1 {
        n := n + 1;
      }
      index := if index + 1 == cells.Length then 0 else index + 1;
      probe := probe + 1;
    }
    EmptyEndsSearch(cells[..], place, hash, key, probe);
    forall i | 0 <= i < cells.Length ensures !cells[i].Empty? {
      assert !cells[..][Around(home, Reach(home, i, cells.Length), cells.Length)].Empty?;
    }
    if forInsert && reusable != -1 {
      return Vacant(reusable), n;
    }
    return Absent, n;
  }

  lemma {:induction false} AllEmpty<K, V>(cells: seq<Cell<K, V>>, n: nat)
    requires n <= |cells| && forall i | 0 <= i < n :: cells[i].Empty?
    ensures Count(cells, n, IsOccupied) == Count(cells, n, IsTombstone) == 0
  {
    if n > 0 { AllEmpty(cells, n - 1); }
  }

  /** One step of `rehash`: an entry moves wholesale into a table with room for it. */
  method MoveInto<K(==), V>(cells: array<Cell<K, V>>, cell: Cell<K, V>, ghost place: map<K, nat>, ghost hash: K -> nat)
    returns (ghost after: map<K, nat>)
    requires Table(cells[..], place, hash) && cell.Occupied? && cell.hash == hash(cell.key) && cell.key !in place
    requires Count(cells[..], cells.Length, IsTombstone) == 0
    requires Count(cells[..], cells.Length, IsOccupied) < cells.Length
    modifies cells
    ensures after.Keys == place.Keys + {cell.key} && Table(cells[..], after, hash)
    ensures Value(cells[..], after, hash) == old(Value(cells[..], place, hash))[cell.key := cell.value]
    ensures Count(cells[..], cells.Length, IsTombstone) == 0
    ensures Count(cells[..], cells.Length, IsOccupied) == old(Count(cells[..], cells.Length, IsOccupied)) + 1
  {
    CountsAddUp(cells[..], cells.Length);
    ghost var room := SomeEmpty(cells[..], cells.Length);
    var r;
    ghost var n;
    r, n := FindSlot(cells, cell.key, cell.hash, true, place, hash);
    assert r.Vacant? by { assert cells[room].Empty?; }
    StoreKeepsTable(cells[..], place, hash, cell.key, cell.value, n);
    CountUpdate(cells[..], cells.Length, r.index, cell, IsTombstone);
    CountUpdate(cells[..], cells.Length, r.index, cell, IsOccupied);
    NoTombstone(cells[..], cells.Length, r.index);
    after := place[cell.key := r.index];
    ghost var was := cells[..];
    cells[r.index] := cell;
    assert cells[..] == was[r.index := cell];
  }

  lemma {:induction false} NoTombstone<K, V>(cells: seq<Cell<K, V>>, n: nat, i: nat)
    requires i < n <= |cells| && Count(cells, n, IsTombstone) == 0
    ensures !cells[i].Tombstone?
  {
    if i < n - 1 { NoTombstone(cells, n - 1, i); }
  }

  class HashMap<K(==), V> {
    var cells: array<Cell<K, V>>
    var count: nat
    var tombstones: nat
    const hash: K -> nat

    ghost var place: map<K, nat> // where each key is

    ghost predicate Valid()
      reads this, cells
    {
      && Table(cells[..], place, hash)
      && count == |place| == Count(cells[..], cells.Length, IsOccupied)
      && tombstones == Count(cells[..], cells.Length, IsTombstone)
      && (cells.Length == 0 || Capacity(cells.Length))
      && (count + tombstones) * 4 <= cells.Length * 3
    }

    /** The abstract value. */
    ghost function Model(): map<K, V>
      reads this, cells
      requires Valid()
    {
      Value(cells[..], place, hash)
    }

    constructor (hash: K -> nat)
      ensures Valid() && Model() == map[] && fresh(cells) && this.hash == hash
    {
      this.hash := hash;
      cells := new Cell<K, V>[0];
      count, tombstones := 0, 0;
      place := map[];
    }

    lemma ModelKeys()
      requires Valid()
      ensures Model().Keys == place.Keys && |Model()| == |place.Keys| == count
    {
      assert |Model()| == |Model().Keys| && |place| == |place.Keys|;
    }

    /** The load limit leaves an empty cell, so a search for an insertion always ends at one. */
    lemma LoadLeavesRoom() returns (i: nat)
      requires Valid() && cells.Length > 0
      ensures i < cells.Length && cells[i].Empty?
    {
      CountsAddUp(cells[..], cells.Length);
      i := SomeEmpty(cells[..], cells.Length);
    }

    /** `rehash`: every entry moves to a table of the given size; tombstones do not. */
    method Rehash(capacity: nat)
      requires Valid() && Capacity(capacity) && count < capacity && count * 4 <= capacity * 3
      modifies this
      ensures Valid() && Model() == old(Model()) && fresh(cells) && cells.Length == capacity && tombstones == 0
      ensures count == old(count)
    {
      ghost var newPlace: map<K, nat>;
      cells, count, newPlace := MoveAll(cells, capacity, place, hash);
      tombstones := 0;
      place := newPlace;
    }

    /**
     `ensure_room`: below three quarters used nothing happens; a table heavy with tombstones is
     rebuilt at its size, and only real occupancy doubles it, as far as the size type goes.
     */
    method EnsureRoom() returns (ok: bool)
      requires Valid()
      modifies this
      ensures Valid() && Model() == old(Model()) && (cells == old(cells) || fresh(cells))
      ensures ok ==> cells.Length > 0 && (count + tombstones + 1) * 4 <= cells.Length * 3
      ensures !ok <==> old(cells.Length) > SIZE_MAX / 2 && old(count) * 4 >= old(cells.Length) * 3
      ensures var was, used := old(cells.Length), old(count + tombstones);
              && (cells == old(cells) <==> !ok || (was > 0 && used * 4 < was * 3))
              && (ok ==> cells.Length ==
                           if was == 0 then MIN_CAPACITY else if old(count) * 4 >= was * 3 then 2 * was else was)
    {
      hide Table;
      hide Count;
      hide Value;
      hide Capacity;
      CapacityStarts();
      if cells.Length == 0 {
        Rehash(MIN_CAPACITY);
        return true;
      }
      CapacityByFours(cells.Length);
      if (count + tombstones) * 4 < cells.Length * 3 {
        return true;
      }
      var target := cells.Length;
      if count * 4 >= cells.Length * 3 {
        if target > SIZE_MAX / 2 {
          return false;
        }
        target := 2 * target;
        CapacityDoubles(cells.Length);
      }
      Rehash(target);
      CapacityByFours(cells.Length);
      return true;
    }

    /** `idx_map_put`: inserts or replaces, reusing a tombstone when the probes meet one. */
    method Put(key: K, value: V) returns (ok: bool)
      requires Valid()
      modifies this, cells
      ensures Valid() && (cells == old(cells) || fresh(cells))
      ensures Model() == if ok then old(Model())[key := value] else old(Model())
      ensures !ok <==> old(cells.Length) > SIZE_MAX / 2 && old(count) * 4 >= old(cells.Length) * 3
    {
      ok := EnsureRoom();
      if !ok {
        return;
      }
      var h := hash(key);
      var r;
      ghost var n;
      r, n := FindSlot(cells, key, h, true, place, hash);
      ghost var room := LoadLeavesRoom();
      assert !r.Absent?;
      if r.Found? {
        Overwrite(key, value, r.index);
      } else {
        Store(key, value, r.index, n);
      }
    }

    method Overwrite(key: K, value: V, index: nat)
      requires Valid() && key in place && index == place[key]
      modifies cells
      ensures Valid() && Model() == old(Model())[key := value]
    {
      ghost var was := cells[..];
      OverwriteKeepsTable(was, place, hash, key, value);
      CountUpdate(was, cells.Length, index, was[index].(value := value), IsOccupied);
      CountUpdate(was, cells.Length, index, was[index].(value := value), IsTombstone);
      cells[index] := cells[index].(value := value);
      assert cells[..] == was[index := was[index].(value := value)];
    }

    method Store(key: K, value: V, index: nat, ghost n: nat)
      requires Valid() && key !in place && n < cells.Length
      requires index == Around(Landing(hash(key), cells.Length), n, cells.Length)
      requires Passed(cells[..], Landing(hash(key), cells.Length), key, n) && !cells[index].Occupied?
      requires (count + tombstones + 1) * 4 <= cells.Length * 3
      modifies this`count, this`tombstones, this`place, cells
      ensures Valid() && Model() == old(Model())[key := value]
    {
      ghost var was := cells[..];
      var entry := Occupied(hash(key), key, value);
      StoreKeepsTable(was, place, hash, key, value, n);
      CountUpdate(was, cells.Length, index, entry, IsOccupied);
      CountUpdate(was, cells.Length, index, entry, IsTombstone);
      if cells[index].Tombstone? {
        CountPositive(was, cells.Length, index, IsTombstone);
        tombstones := tombstones - 1;
      }
      cells[index] := entry;
      count := count + 1;
      place := place[key := index];
      assert cells[..] == was[index := entry];
    }

    /** `idx_map_get`. */
    method Get(key: K) returns (r: Option<V>)
      requires Valid()
      ensures r == if key in Model() then Some(Model()[key]) else None
    {
      var s;
      ghost var n;
      s, n := FindSlot(cells, key, hash(key), false, place, hash);
      if s.Found? {
        return Some(cells[s.index].value);
      }
      return None;
    }

    /** `idx_map_remove`: leaves a tombstone, so that keys further along stay reachable. */
    method Remove(key: K) returns (present: bool)
      requires Valid()
      modifies this`count, this`tombstones, this`place, cells
      ensures Valid()
      ensures present <==> key in old(Model())
      ensures Model() == old(Model()) - {key}
    {
      var s;
      ghost var n;
      s, n := FindSlot(cells, key, hash(key), false, place, hash);
      if !s.Found? {
        return false;
      }
      Bury(key, s.index);
      return true;
    }

    method Bury(key: K, index: nat)
      requires Valid() && key in place && index == place[key]
      modifies this`count, this`tombstones, this`place, cells
      ensures Valid() && Model() == old(Model()) - {key}
    {
      ghost var was := cells[..];
      BuryKeepsTable(was, place, hash, key);
      CountUpdate(was, cells.Length, index, Tombstone, IsOccupied);
      CountUpdate(was, cells.Length, index, Tombstone, IsTombstone);
      CountPositive(was, cells.Length, index, IsOccupied);
      cells[index] := Tombstone;
      count := count - 1;
      tombstones := tombstones + 1;
      place := place - {key};
      assert cells[..] == was[index := Tombstone];
    }

    /** `idx_map_next`: the first entry at or after `cursor`, or the end. */
    method Next(cursor: nat) returns (found: bool, key: Option<K>, next: nat)
      requires Valid()
      ensures found ==> cursor < next <= cells.Length && key.Some? && key.value in place && place[key.value] == next - 1
      ensures found ==> forall k | k in place && cursor <= place[k] < next :: k == key.value
      ensures !found ==> next == cursor && forall k | k in place :: place[k] < cursor
    {
      var i := cursor;
      while i < cells.Length
        invariant cursor <= i
        invariant forall k | k in place && place[k] >= cursor :: place[k] >= i
      {
        if cells[i].Occupied? {
          return true, Some(cells[i].key), i + 1;
        }
        i := i + 1;
      }
      return false, None, cursor;
    }

    /** Iterating from 0 until `Next` says no: every key once, and nothing else. */
    method Keys() returns (keys: seq<K>)
      requires Valid()
      ensures forall k :: k in keys <==> k in Model()
      ensures forall i, j | 0 <= i < j < |keys| :: keys[i] != keys[j]
      ensures |keys| == count == |Model()|
    {
      hide Table;
      hide Count;
      hide Value;
      ModelKeys();
      keys := [];
      var cursor := 0;
      ghost var seen: set<K> := {};
      while true
        invariant cursor <= cells.Length && seen <= place.Keys && |seen| == |keys|
        invariant forall k | k in place :: k in seen <==> place[k] < cursor
        invariant forall k :: k in keys <==> k in seen
        invariant forall i, j | 0 <= i < j < |keys| :: keys[i] != keys[j]
        decreases cells.Length - cursor
      {
        var found, key, next := Next(cursor);
        if !found {
          assert seen == place.Keys;
          return;
        }
        keys := keys + [key.value];
        seen := seen + {key.value};
        cursor := next;
      }
    }
  }

  lemma {:induction false} CountPositive<K, V>(cells: seq<Cell<K, V>>, n: nat, i: nat, kind: Cell<K, V> -> bool)
    requires i < n <= |cells| && kind(cells[i])
    ensures Count(cells, n, kind) > 0
  {
    if i < n - 1 { CountPositive(cells, n - 1, i, kind); }
  }

  lemma {:induction false} CountGrows<K, V>(cells: seq<Cell<K, V>>, m: nat, n: nat, kind: Cell<K, V> -> bool)
    requires m <= n <= |cells|
    ensures Count(cells, m, kind) <= Count(cells, n, kind)
  {
    if m < n { CountGrows(cells, m, n - 1, kind); }
  }

  lemma CountStep<K, V>(cells: seq<Cell<K, V>>, i: nat)
    requires i < |cells|
    ensures Count(cells, i + 1, IsOccupied) == Count(cells, i, IsOccupied) + if cells[i].Occupied? then 1 else 0
    ensures Count(cells, i + 1, IsOccupied) <= Count(cells, |cells|, IsOccupied)
  {
    CountGrows(cells, i + 1, |cells|, IsOccupied);
  }

  /** What has been moved once the first `i` cells are done. */
  ghost predicate Moved<K, V>(cells: seq<Cell<K, V>>, place: map<K, nat>, i: nat,
                              rebuilt: seq<Cell<K, V>>, newPlace: map<K, nat>, hash: K -> nat)
    requires Table(cells, place, hash)
  {
    && Table(rebuilt, newPlace, hash)
    && newPlace.Keys <= place.Keys
    && (forall k | k in place :: k in newPlace <==> place[k] < i)
    && (forall k | k in newPlace :: rebuilt[newPlace[k]].value == cells[place[k]].value)
  }

  lemma MovedOne<K, V>(cells: seq<Cell<K, V>>, place: map<K, nat>, i: nat, before: seq<Cell<K, V>>, was: map<K, nat>,
                       rebuilt: seq<Cell<K, V>>, newPlace: map<K, nat>, hash: K -> nat)
    requires Table(cells, place, hash) && i < |cells| && cells[i].Occupied? && Moved(cells, place, i, before, was, hash)
    requires Table(rebuilt, newPlace, hash) && newPlace.Keys == was.Keys + {cells[i].key}
    requires Value(rebuilt, newPlace, hash) == Value(before, was, hash)[cells[i].key := cells[i].value]
    ensures Moved(cells, place, i + 1, rebuilt, newPlace, hash)
  {
    var now, past := Value(rebuilt, newPlace, hash), Value(before, was, hash);
    forall k | k in place ensures k in newPlace <==> place[k] < i + 1 {
      assert k in newPlace.Keys <==> k in was.Keys || k == cells[i].key;
    }
    forall k | k in newPlace ensures rebuilt[newPlace[k]].value == cells[place[k]].value {
      assert k in newPlace.Keys;
      assert now[k] == rebuilt[newPlace[k]].value;
      if k != cells[i].key {
        assert k in was.Keys;
        assert past[k] == before[was[k]].value;
      }
    }
  }

  lemma MovedNone<K, V>(cells: seq<Cell<K, V>>, place: map<K, nat>, i: nat,
                        rebuilt: seq<Cell<K, V>>, newPlace: map<K, nat>, hash: K -> nat)
    requires Table(cells, place, hash) && i < |cells| && !cells[i].Occupied?
    requires Moved(cells, place, i, rebuilt, newPlace, hash)
    ensures Moved(cells, place, i + 1, rebuilt, newPlace, hash)
  {
  }

  /** The loop of `rehash`. */
  method MoveAll<K(==), V>(cells: array<Cell<K, V>>, capacity: nat, ghost place: map<K, nat>, ghost hash: K -> nat)
    returns (rebuilt: array<Cell<K, V>>, newCount: nat, ghost newPlace: map<K, nat>)
    requires Table(cells[..], place, hash) && Count(cells[..], cells.Length, IsOccupied) < capacity
    requires |place| == Count(cells[..], cells.Length, IsOccupied)
    ensures fresh(rebuilt) && rebuilt.Length == capacity && Table(rebuilt[..], newPlace, hash)
    ensures Value(rebuilt[..], newPlace, hash) == Value(cells[..], place, hash)
    ensures newCount == |place| == |newPlace| == Count(rebuilt[..], capacity, IsOccupied)
    ensures Count(rebuilt[..], capacity, IsTombstone) == 0
  {
    hide Count;
    hide Value;
    rebuilt := new Cell<K, V>[capacity](_ => Empty);
    newPlace := map[];
    newCount := 0;
    AllEmpty(rebuilt[..], capacity);
    AllEmpty(cells[..], 0);
    ghost var all := cells[..];
    var i := 0;
    while i < cells.Length
      invariant i <= cells.Length && fresh(rebuilt) && rebuilt.Length == capacity && cells[..] == all
      invariant Moved(all, place, i, rebuilt[..], newPlace, hash)
      invariant newCount == Count(all, i, IsOccupied) == Count(rebuilt[..], capacity, IsOccupied)
      invariant Count(rebuilt[..], capacity, IsTombstone) == 0
    {
      var cell := cells[i];
      CountStep(all, i);
      if cell.Occupied? {
        ghost var before, was := rebuilt[..], newPlace;
        newPlace := MoveInto(rebuilt, cell, newPlace, hash);
        MovedOne(all, place, i, before, was, rebuilt[..], newPlace, hash);
        newCount := newCount + 1;
      } else {
        MovedNone(all, place, i, rebuilt[..], newPlace, hash);
      }
      i := i + 1;
    }
    MovedAll(all, place, rebuilt[..], newPlace, hash);
  }

  lemma MovedAll<K, V>(cells: seq<Cell<K, V>>, place: map<K, nat>,
                       rebuilt: seq<Cell<K, V>>, newPlace: map<K, nat>, hash: K -> nat)
    requires Table(cells, place, hash) && Moved(cells, place, |cells|, rebuilt, newPlace, hash)
    ensures Value(rebuilt, newPlace, hash) == Value(cells, place, hash)
    ensures |newPlace| == |place|
  {
    assert newPlace.Keys == place.Keys;
    assert |newPlace.Keys| == |newPlace| && |place.Keys| == |place|;
  }
}
