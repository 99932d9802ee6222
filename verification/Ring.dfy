/**
 The bounded hand-off of `src/ring.c`: a circular buffer that either drops its oldest entry when
 full or makes the producer wait, and that owns every document it holds.
 */
module Rings {
  import opened Circular
  import opened Options
  import opened Slots

  type Doc = nat

  datatype Entry = Entry(seqNo: nat, slot: Slot, doc: Option<Doc>)

  datatype PublishStatus = Queued | PublishClosed | MustWait
  datatype ConsumeResult = Taken(entry: Entry) | TimedOut | ConsumeClosed

  const DEFAULT_DEPTH: nat := 8

  /** A full unreliable queue forgets its oldest element to make room. */
  function Push<T>(q: seq<T>, depth: nat, x: T): seq<T>
    requires depth > 0
  {
    (if |q| >= depth then q[1..] else q) + [x]
  }

  // ---------------------------------------------------------------- histories

  /** The entries among the first `n` whose fate was `which`, in publication order. */
  ghost function Picked(history: seq<Entry>, fate: seq<bool>, n: nat, which: bool): seq<Entry>
    requires n <= |fate| && n <= |history|
  {
    if n == 0 then []
    else if fate[n - 1] == which then Picked(history, fate, n - 1, which) + [history[n - 1]]
    else Picked(history, fate, n - 1, which)
  }

  lemma {:induction false} PickedPrefix(h: seq<Entry>, f: seq<bool>, h': seq<Entry>, f': seq<bool>, n: nat, which: bool)
    requires n <= |f| && n <= |h| && h <= h' && f <= f'
    ensures Picked(h', f', n, which) == Picked(h, f, n, which)
  {
    if n != 0 { PickedPrefix(h, f, h', f', n - 1, which); }
  }

  /** Each entry has one fate. */
  lemma {:induction false} PickedSizes(history: seq<Entry>, fate: seq<bool>, n: nat)
    requires n <= |fate| && n <= |history|
    ensures |Picked(history, fate, n, true)| + |Picked(history, fate, n, false)| == n
  {
    if n != 0 { PickedSizes(history, fate, n - 1); }
  }

  ghost predicate Numbered(history: seq<Entry>) {
    forall k | 0 <= k < |history| :: history[k].seqNo == k
  }

  /** What the processor adds up: how far each sequence number is past the one it expected. */
  function JumpSum(entries: seq<Entry>, expected: nat): int
    decreases |entries|
  {
    if entries == [] then 0
    else (entries[0].seqNo - expected) + JumpSum(entries[1..], entries[0].seqNo + 1)
  }

  lemma JumpSumStep(entries: seq<Entry>, n: nat, expected: nat)
    requires n < |entries|
    ensures JumpSum(entries[n..], expected) ==
            entries[n].seqNo - expected + JumpSum(entries[n + 1..], entries[n].seqNo + 1)
  {
    assert entries[n..][1..] == entries[n + 1..];
  }

  lemma {:induction false} JumpSumTelescopes(entries: seq<Entry>, last: Entry, expected: nat)
    ensures JumpSum(entries + [last], expected) == last.seqNo - expected - |entries|
    decreases |entries|
  {
    var all := entries + [last];
    if entries == [] {
      assert all[1..] == [];
    } else {
      assert all[1..] == entries[1..] + [last];
      JumpSumTelescopes(entries[1..], last, entries[0].seqNo + 1);
    }
  }

  /** The jumps seen up to and including a consumed entry are exactly the older entries dropped. */
  lemma JumpsAreOlderDrops(history: seq<Entry>, fate: seq<bool>, k: nat)
    requires Numbered(history) && k < |fate| <= |history| && fate[k]
    ensures JumpSum(Picked(history, fate, k + 1, true), 0) == |Picked(history, fate, k, false)|
  {
    JumpSumTelescopes(Picked(history, fate, k, true), history[k], 0);
    PickedSizes(history, fate, k);
  }

  ghost function Owns(entry: Entry, doc: Doc): nat {
    if entry.doc == Some(doc) then 1 else 0
  }

  /** How many of the first `n` entries own `doc`. */
  ghost function OwnersAmong(entries: seq<Entry>, n: nat, doc: Doc): nat
    requires n <= |entries|
  {
    if n == 0 then 0 else OwnersAmong(entries, n - 1, doc) + Owns(entries[n - 1], doc)
  }

  ghost function Owners(entries: seq<Entry>, doc: Doc): nat {
    OwnersAmong(entries, |entries|, doc)
  }

  lemma {:induction false} OwnersPrefix(a: seq<Entry>, b: seq<Entry>, n: nat, doc: Doc)
    requires n <= |a|
    ensures OwnersAmong(a + b, n, doc) == OwnersAmong(a, n, doc)
  {
    if n != 0 { OwnersPrefix(a, b, n - 1, doc); }
  }

  lemma OwnersSnoc(a: seq<Entry>, e: Entry, doc: Doc)
    ensures Owners(a + [e], doc) == Owners(a, doc) + Owns(e, doc)
  {
    OwnersPrefix(a, [e], |a|, doc);
  }

  lemma {:induction false} OwnersConcat(a: seq<Entry>, b: seq<Entry>, n: nat, doc: Doc)
    requires n <= |b|
    ensures OwnersAmong(a + b, |a| + n, doc) == Owners(a, doc) + OwnersAmong(b, n, doc)
  {
    if n == 0 { OwnersPrefix(a, b, |a|, doc); } else { OwnersConcat(a, b, n - 1, doc); }
  }

  lemma {:induction false} OwnersPicked(history: seq<Entry>, fate: seq<bool>, n: nat, doc: Doc)
    requires n <= |fate| && n <= |history|
    ensures OwnersAmong(history, n, doc) ==
            Owners(Picked(history, fate, n, true), doc) + Owners(Picked(history, fate, n, false), doc)
  {
    if n != 0 {
      OwnersPicked(history, fate, n - 1, doc);
      OwnersSnoc(Picked(history, fate, n - 1, true), history[n - 1], doc);
      OwnersSnoc(Picked(history, fate, n - 1, false), history[n - 1], doc);
    }
  }

  lemma {:induction false} LandingAdvances(k: nat, j: nat, depth: nat)
    requires j <= depth && depth > 0
    ensures Landing(k + j, depth) == Around(Landing(k, depth), j, depth)
  {
    var q, r := k / depth, k % depth;
    assert k == depth * q + r;
    if r + j < depth {
      ModUnique(k + j, depth, q, r + j);
    } else {
      assert depth * (q + 1) == depth * q + depth;
      ModUnique(k + j, depth, q + 1, r + j - depth);
    }
  }

  lemma ModUnique(n: nat, d: nat, q: nat, r: nat)
    requires d > 0 && r < d && n == d * q + r
    ensures n % d == r
  {
    var e := n / d - q;
    assert n == d * (n / d) + n % d;
    assert d * e == r - n % d;
    assert e >= 1 ==> d * e >= d;
    assert e <= -1 ==> d * e + d <= 0;
  }

  /** The buffer holds `window` from `start` on, and owns no other document. */
  ghost predicate Holding(buffer: seq<Entry>, start: nat, window: seq<Entry>) {
    && start < |buffer| && |window| <= |buffer|
    && (forall j | 0 <= j < |window| :: buffer[Around(start, j, |buffer|)] == window[j])
    && (forall j | |window| <= j < |buffer| :: buffer[Around(start, j, |buffer|)].doc == None)
  }

  lemma HoldingPop(buffer: seq<Entry>, start: nat, window: seq<Entry>)
    requires Holding(buffer, start, window) && window != [] && 2 <= |buffer|
    ensures buffer[start] == window[0]
    ensures Holding(buffer[start := buffer[start].(doc := None)], Around(start, 1, |buffer|), window[1..])
  {
    var after, next, depth := buffer[start := buffer[start].(doc := None)], Around(start, 1, |buffer|), |buffer|;
    assert Around(start, 0, depth) == start;
    forall j | 0 <= j < depth
      ensures j < |window| - 1 ==> after[Around(next, j, depth)] == window[j + 1]
      ensures j >= |window| - 1 ==> after[Around(next, j, depth)].doc == None
    {
      assert Around(next, j, depth) == Around(start, j + 1, depth);
      assert j + 1 < depth ==> Around(start, j + 1, depth) != start;
    }
  }

  lemma HoldingPush(buffer: seq<Entry>, start: nat, window: seq<Entry>, e: Entry)
    requires Holding(buffer, start, window) && |window| < |buffer|
    ensures Holding(buffer[Around(start, |window|, |buffer|) := e], start, window + [e])
  {
    var index := Around(start, |window|, |buffer|);
    assert forall j | 0 <= j < |buffer| && j != |window| :: Around(start, j, |buffer|) != index;
  }

  // ---------------------------------------------------------------- the ring

  class Ring {
    const queue: array<Entry>
    var head: nat
    var tail: nat
    var nextSeq: nat
    var closed: bool
    const blockWhenFull: bool
    var statDropped: nat
    var statConsumed: nat

    ghost var history: seq<Entry>  // every entry accepted, numbered
    ghost var fate: seq<bool>      // for each entry no longer queued: was it consumed?
    ghost var refused: seq<Entry>  // entries offered after the close
    ghost var freed: seq<Entry>    // entries whose document the ring has freed

    /** The buffer: it owns the documents of the queued entries and no others. */
    ghost predicate Shape()
      reads this, queue
    {
      && 2 <= queue.Length
      && tail <= head <= tail + queue.Length
      && head == nextSeq == |history| && tail == |fate|
      && Numbered(history)
      && Holding(queue[..], Landing(tail, queue.Length), history[tail..head])
    }

    ghost predicate Valid()
      reads this, queue
      ensures Valid() ==> tail <= head <= |history| && tail == |fate|
    {
      && Shape()
      && statDropped == |Dropped()| && statConsumed == |Consumed()|
      && (forall d :: Owners(freed, d) == Owners(Dropped(), d) + Owners(refused, d))
      && (blockWhenFull ==> Dropped() == [])
    }

    ghost function Waiting(): seq<Entry>
      reads this
      requires tail <= head <= |history|
    {
      history[tail..head]
    }

    ghost function Consumed(): seq<Entry>
      reads this
      requires |fate| <= |history|
    {
      Picked(history, fate, |fate|, true)
    }

    ghost function Dropped(): seq<Entry>
      reads this
      requires |fate| <= |history|
    {
      Picked(history, fate, |fate|, false)
    }

    constructor (depth: nat, block: bool)
      requires depth == 0 || depth >= 2
      ensures Valid() && fresh(queue) && history == [] && fate == [] && !closed && refused == []
      ensures queue.Length == (if depth == 0 then DEFAULT_DEPTH else depth) && blockWhenFull == block
    {
      var size := if depth == 0 then DEFAULT_DEPTH else depth;
      queue := new Entry[size](_ => Entry(0, 0, None));
      head, tail, nextSeq, closed := 0, 0, 0, false;
      blockWhenFull := block;
      statDropped, statConsumed := 0, 0;
      history, fate, freed, refused := [], [], [], [];
    }

    /** Takes the oldest entry out of the buffer, which then no longer owns its document. */
    method PopOldest(ghost consumed: bool) returns (entry: Entry)
      requires Shape() && tail < head
      modifies this`tail, this`fate, queue
      ensures Shape() && tail == old(tail) + 1 && fate == old(fate) + [consumed]
      ensures entry == old(Waiting())[0] && Waiting() == old(Waiting())[1..]
    {
      var start := Landing(tail, queue.Length);
      LandingAdvances(tail, 1, queue.Length);
      entry := queue[start];
      queue[start] := entry.(doc := None);
      tail := tail + 1;
      fate := fate + [consumed];
      HoldingPop(old(queue[..]), start, old(history[tail..head]));
      assert queue[..] == old(queue[..])[start := entry.(doc := None)];
      assert history[tail..head] == old(history[tail..head])[1..];
    }

    /** Frees the oldest queued document. */
    method DropOldest()
      requires Valid() && tail < head && !blockWhenFull
      modifies this`tail, this`fate, this`freed, this`statDropped, queue
      ensures Valid() && tail == old(tail) + 1 && fate == old(fate) + [false]
      ensures Waiting() == old(Waiting())[1..]
    {
      ghost var dropped := Dropped();
      var oldest := PopOldest(false);
      PickedPrefix(history, old(fate), history, fate, old(tail), true);
      PickedPrefix(history, old(fate), history, fate, old(tail), false);
      forall d ensures Owners(freed + [oldest], d) == Owners(dropped + [oldest], d) + Owners(refused, d) {
        OwnersSnoc(dropped, oldest, d);
        OwnersSnoc(freed, oldest, d);
      }
      freed := freed + [oldest];
      statDropped := statDropped + 1;
    }

    /**
     One pass of `idx_ring_publish` under the lock. `MustWait` is the blocking ring finding no room;
     the caller tries again once woken.
     */
    method Publish(entry: Entry) returns (status: PublishStatus)
      requires Valid()
      modifies this, queue
      ensures Valid() && closed == old(closed)
      ensures status == PublishClosed <==> closed
      ensures status == MustWait <==> !closed && blockWhenFull && |old(Waiting())| == queue.Length
      ensures status == Queued ==>
                && history == old(history) + [entry.(seqNo := old(nextSeq))]
                && Waiting() == Push(old(Waiting()), queue.Length, entry.(seqNo := old(nextSeq)))
                && fate == old(fate) + (if |old(Waiting())| == queue.Length then [false] else [])
                && refused == old(refused)
      ensures status != Queued ==> history == old(history) && fate == old(fate) && Waiting() == old(Waiting())
      ensures status == PublishClosed ==>
                refused == old(refused) + [entry]
      ensures status == MustWait ==> refused == old(refused)
    {
      if closed {
        forall d ensures Owners(freed + [entry], d) == Owners(Dropped(), d) + Owners(refused + [entry], d) {
          OwnersSnoc(freed, entry, d);
          OwnersSnoc(refused, entry, d);
        }
        freed, refused := freed + [entry], refused + [entry];
        return PublishClosed;
      }
      if head - tail >= queue.Length {
        if blockWhenFull {
          return MustWait;
        }
        DropOldest();
      }
      Enqueue(entry);
      return Queued;
    }

    method Enqueue(entry: Entry)
      requires Valid() && head < tail + queue.Length
      modifies this`head, this`nextSeq, this`history, queue
      ensures Valid()
      ensures history == old(history) + [entry.(seqNo := old(nextSeq))]
      ensures Waiting() == old(Waiting()) + [entry.(seqNo := old(nextSeq))]
    {
      ghost var start := Landing(tail, queue.Length);
      LandingAdvances(tail, head - tail, queue.Length);
      HoldingPush(queue[..], start, history[tail..head], entry.(seqNo := nextSeq));
      var index := Landing(head, queue.Length);
      queue[index] := entry.(seqNo := nextSeq);
      history := history + [entry.(seqNo := nextSeq)];
      nextSeq := nextSeq + 1;
      head := head + 1;
      assert queue[..] == old(queue[..])[index := entry.(seqNo := old(nextSeq))];
      assert history[tail..head] == old(history[tail..head]) + [entry.(seqNo := old(nextSeq))];
      PickedPrefix(old(history), fate, history, fate, tail, true);
      PickedPrefix(old(history), fate, history, fate, tail, false);
    }

    /** `idx_ring_consume` with its wait already over: what is queued comes before the close. */
    method Consume() returns (r: ConsumeResult)
      requires Valid()
      modifies this, queue
      ensures Valid() && closed == old(closed) && history == old(history) && refused == old(refused)
      ensures r == ConsumeClosed <==> closed && old(Waiting()) == []
      ensures r == TimedOut <==> !closed && old(Waiting()) == []
      ensures r.Taken? ==>
                && r.entry == old(Waiting())[0] && Waiting() == old(Waiting())[1..]
                && fate == old(fate) + [true] && Consumed() == old(Consumed()) + [r.entry]
      ensures !r.Taken? ==> fate == old(fate) && Waiting() == old(Waiting())
    {
      if head == tail {
        return if closed then ConsumeClosed else TimedOut;
      }
      var entry := PopOldest(true);
      PickedPrefix(history, old(fate), history, fate, old(tail), true);
      PickedPrefix(history, old(fate), history, fate, old(tail), false);
      statConsumed := statConsumed + 1;
      return Taken(entry);
    }

    /** `idx_ring_close`: nothing more comes in; what is queued still goes out. */
    method Close()
      requires Valid()
      modifies this`closed
      ensures Valid() && closed && Waiting() == old(Waiting())
    {
      closed := true;
    }

    /**
     Everything ever handed to the ring has one owner: consumed, still queued, or freed once. The
     buffer holds the documents of the queued entries and no others.
     */
    lemma EveryDocumentHasOneOwner(doc: Doc)
      requires Valid()
      ensures Owners(history, doc) + Owners(refused, doc) ==
              Owners(Consumed(), doc) + Owners(Waiting(), doc) + Owners(freed, doc)
      ensures |history| == statConsumed + statDropped + |Waiting()|
      ensures |Waiting()| <= queue.Length
    {
      assert history == history[..tail] + Waiting();
      OwnersConcat(history[..tail], Waiting(), |Waiting()|, doc);
      OwnersPrefix(history[..tail], Waiting(), tail, doc);
      OwnersPicked(history, fate, tail, doc);
      PickedSizes(history, fate, tail);
    }
  }

  /** `idx_ring_new`: a depth of one is refused, a depth of zero selects the default. */
  method OpenRing(depth: nat, block: bool) returns (ring: Ring?)
    ensures ring == null <==> depth == 1
    ensures ring != null ==>
              && fresh(ring) && ring.Valid() && ring.Waiting() == [] && !ring.closed && ring.blockWhenFull == block
              && ring.queue.Length == if depth == 0 then DEFAULT_DEPTH else depth
  {
    if depth == 1 {
      return null;
    }
    ring := new Ring(depth, block);
  }
}
