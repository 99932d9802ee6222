/**
 The chunked bump allocator (`src/arena.c`). A pointer is a chunk and an offset into it; `malloc` is
 the address it answers with, or nothing.
 */
module Arenas {
  import opened Numbers
  import opened Options
  import opened Bits
  import opened Words

  type Size = U64

  const HEADER: Size := 32

  /** `base` is the address of the chunk's first data byte. */
  datatype Chunk = Chunk(base: Size, capacity: Size, used: Size)

  datatype State = State(chunks: seq<Chunk>, current: nat, bytesReserved: nat, bytesUsed: nat)

  /** What an allocation is handed: `size` bytes at `offset` in chunk `chunk`. */
  datatype Grant = Grant(chunk: nat, offset: nat, size: nat, align: nat)

  datatype Outcome = Granted(grant: Grant) | InvalidAlignment | TooLarge | NoMemory

  // ---------------------------------------------------------------- one allocation

  predicate Sound(c: Chunk) {
    c.used <= c.capacity && c.base + c.capacity < WORD
  }

  function PaddingFor(c: Chunk, align: Size): nat
    requires Sound(c) && align > 0
  {
    PaddingTo(c.base + c.used, align)
  }

  predicate Fits(c: Chunk, size: Size, align: Size)
    requires Sound(c) && align > 0
  {
    && PaddingFor(c, align) <= c.capacity - c.used
    && size <= c.capacity - c.used - PaddingFor(c, align)
  }

  predicate AllSound(chunks: seq<Chunk>) {
    forall i | 0 <= i < |chunks| :: Sound(chunks[i])
  }

  /** The first chunk from `i` on that the request fits in. */
  function FirstFit(chunks: seq<Chunk>, i: nat, size: Size, align: Size): (r: nat)
    requires i <= |chunks| && AllSound(chunks) && align > 0
    ensures i <= r <= |chunks|
    ensures forall j | i <= j < r :: !Fits(chunks[j], size, align)
    ensures r < |chunks| ==> Fits(chunks[r], size, align)
    decreases |chunks| - i
  {
    if i == |chunks| || Fits(chunks[i], size, align) then i else FirstFit(chunks, i + 1, size, align)
  }

  function Take(c: Chunk, size: Size, align: Size): Chunk
    requires Sound(c) && align > 0 && Fits(c, size, align)
  {
    c.(used := c.used + PaddingFor(c, align) + size)
  }

  function TakeFrom(s: State, i: nat, size: Size, align: Size): (State, Outcome)
    requires i < |s.chunks| && Sound(s.chunks[i]) && align > 0 && Fits(s.chunks[i], size, align)
  {
    var c := s.chunks[i];
    var padding := PaddingFor(c, align);
    (State(s.chunks[i := Take(c, size, align)], i, s.bytesReserved, s.bytesUsed + padding + size),
     Granted(Grant(i, c.used + padding, size, align)))
  }

  /** The capacity of a new chunk: room for the request wherever the chunk starts, if 64 bits hold that. */
  function CapacityFor(size: Size, align: Size, chunkSize: Size): Option<Size>
    requires align > 0
  {
    if size > SIZE_MAX - (align - 1) then None
    else
      var needed := size + (align - 1);
      var capacity := if needed > chunkSize then needed else chunkSize;
      if capacity > SIZE_MAX - HEADER then None else Some(capacity)
  }

  /** The bytes a new chunk is for: the chunk size, or what the request may take from any address if that is more. */
  function Needed(size: Size, align: Size, chunkSize: Size): int {
    if size + align - 1 > chunkSize then size + align - 1 else chunkSize
  }

  /** A new chunk has exactly those bytes, or is too large where they and its header pass 64 bits. */
  lemma CapacityIsNeeded(size: Size, align: Size, chunkSize: Size)
    requires align > 0
    ensures CapacityFor(size, align, chunkSize).Some? <==> Needed(size, align, chunkSize) + HEADER < WORD
    ensures CapacityFor(size, align, chunkSize).Some? ==>
              CapacityFor(size, align, chunkSize).value == Needed(size, align, chunkSize)
    ensures Needed(size, align, chunkSize) >= size + align - 1 && Needed(size, align, chunkSize) >= chunkSize
    ensures Needed(size, align, chunkSize) == size + align - 1 || Needed(size, align, chunkSize) == chunkSize
  {
  }

  /** What `malloc` may answer: a block that does not wrap around the address space. */
  predicate Mappable(memory: Option<Size>, size: Size, align: Size, chunkSize: Size) {
    memory.Some? && align > 0 && Needed(size, align, chunkSize) + HEADER < WORD ==>
      memory.value + Needed(size, align, chunkSize) < WORD
  }

  lemma NewChunkFits(base: Size, size: Size, align: Size, chunkSize: Size)
    requires IsPowerOfTwo(align) && CapacityFor(size, align, chunkSize).Some?
    requires base + CapacityFor(size, align, chunkSize).value < WORD
    ensures Fits(Chunk(base, CapacityFor(size, align, chunkSize).value, 0), size, align)
  {
    PaddingAligns(base, align);
  }

  /** An allocation no chunk has room for. */
  function AllocGrown(s: State, chunkSize: Size, size: Size, align: Size, memory: Option<Size>): (State, Outcome)
    requires IsPowerOfTwo(align) && Mappable(memory, size, align, chunkSize)
  {
    var capacity := CapacityFor(size, align, chunkSize);
    if capacity == None then (s, TooLarge)
    else if memory == None then (s, NoMemory)
    else
      NewChunkFits(memory.value, size, align, chunkSize);
      var chunk := Chunk(memory.value, capacity.value, 0);
      var grown := State(s.chunks + [chunk], s.current, s.bytesReserved + capacity.value, s.bytesUsed);
      TakeFrom(grown, |s.chunks|, size, align)
  }

  /** `idx_arena_alloc_aligned`. */
  function Alloc(s: State, chunkSize: Size, size: Size, align: Size, memory: Option<Size>): (State, Outcome)
    requires s.current <= |s.chunks| && AllSound(s.chunks) && Mappable(memory, size, align, chunkSize)
  {
    if !IsPowerOfTwo(align) then (s, InvalidAlignment)
    else
      var i := FirstFit(s.chunks, s.current, size, align);
      if i < |s.chunks| then TakeFrom(s, i, size, align) else AllocGrown(s, chunkSize, size, align, memory)
  }

  function Emptied(c: Chunk): Chunk { c.(used := 0) }

  function EmptyAll(chunks: seq<Chunk>): (r: seq<Chunk>)
    ensures |r| == |chunks| && forall i | 0 <= i < |chunks| :: r[i] == Emptied(chunks[i])
  {
    if chunks == [] then [] else EmptyAll(chunks[..|chunks| - 1]) + [Emptied(chunks[|chunks| - 1])]
  }

  /** `idx_arena_reset`: every chunk is kept, and empty. */
  function Reset(s: State): State {
    State(EmptyAll(s.chunks), 0, s.bytesReserved, 0)
  }

  function Init(): State { State([], 0, 0, 0) }

  // ---------------------------------------------------------------- what every step keeps

  function Reserved(chunks: seq<Chunk>): nat {
    if chunks == [] then 0 else Reserved(chunks[..|chunks| - 1]) + chunks[|chunks| - 1].capacity
  }

  function Used(chunks: seq<Chunk>): nat {
    if chunks == [] then 0 else Used(chunks[..|chunks| - 1]) + chunks[|chunks| - 1].used
  }

  /** Counters are the sums over the chunks, and the chunks past the current one are empty. */
  ghost predicate Valid(s: State) {
    && AllSound(s.chunks)
    && (if s.chunks == [] then s.current == 0 else s.current < |s.chunks|)
    && s.bytesReserved == Reserved(s.chunks) && s.bytesUsed == Used(s.chunks)
    && forall i | s.current < i < |s.chunks| :: s.chunks[i].used == 0
  }

  ghost predicate Inside(chunks: seq<Chunk>, g: Grant) {
    g.chunk < |chunks| && g.offset + g.size <= chunks[g.chunk].used
  }

  ghost predicate IsAligned(chunks: seq<Chunk>, g: Grant)
    requires g.chunk < |chunks|
  {
    g.align > 0 && (chunks[g.chunk].base + g.offset) % g.align == 0
  }

  ghost predicate Apart(g: Grant, h: Grant) {
    g.chunk != h.chunk || g.offset + g.size <= h.offset || h.offset + h.size <= g.offset
  }

  /** The grants of one round: inside what their chunks have handed out, aligned, and disjoint. */
  ghost predicate Lawful(chunks: seq<Chunk>, grants: seq<Grant>) {
    && (forall i | 0 <= i < |grants| :: Inside(chunks, grants[i]) && IsAligned(chunks, grants[i]))
    && forall i, j | 0 <= i < j < |grants| :: Apart(grants[i], grants[j])
  }

  lemma {:induction false} SumsAfterUpdate(chunks: seq<Chunk>, i: nat, c: Chunk)
    requires i < |chunks|
    ensures Used(chunks[i := c]) == Used(chunks) - chunks[i].used + c.used
    ensures Reserved(chunks[i := c]) == Reserved(chunks) - chunks[i].capacity + c.capacity
  {
    var n := |chunks| - 1;
    if i < n {
      SumsAfterUpdate(chunks[..n], i, c);
      assert chunks[i := c][..n] == chunks[..n][i := c];
    } else {
      assert chunks[i := c][..n] == chunks[..n];
    }
  }

  lemma SumsAfterGrowth(chunks: seq<Chunk>, c: Chunk)
    ensures Used(chunks + [c]) == Used(chunks) + c.used
    ensures Reserved(chunks + [c]) == Reserved(chunks) + c.capacity
  {
    assert (chunks + [c])[..|chunks|] == chunks;
  }

  lemma TakeKeepsValid(s: State, i: nat, size: Size, align: Size)
    requires Valid(s) && s.current <= i < |s.chunks| && align > 0 && Fits(s.chunks[i], size, align)
    ensures Valid(TakeFrom(s, i, size, align).0)
  {
    SumsAfterUpdate(s.chunks, i, Take(s.chunks[i], size, align));
  }

  lemma TakeKeepsLawful(s: State, grants: seq<Grant>, i: nat, size: Size, align: Size)
    requires Valid(s) && i < |s.chunks| && IsPowerOfTwo(align) && Fits(s.chunks[i], size, align)
    requires Lawful(s.chunks, grants)
    ensures Lawful(TakeFrom(s, i, size, align).0.chunks, grants + [TakeFrom(s, i, size, align).1.grant])
  {
    var c := s.chunks[i];
    PaddingAligns(c.base + c.used, align);
    hide PaddingTo(), IsPowerOfTwo();
    var g := TakeFrom(s, i, size, align).1.grant;
    forall k | 0 <= k < |grants| ensures Apart(grants[k], g) {
      assert Inside(s.chunks, grants[k]);
    }
  }

  lemma TakeKeeps(s: State, grants: seq<Grant>, i: nat, size: Size, align: Size)
    requires Valid(s) && s.current <= i < |s.chunks| && IsPowerOfTwo(align) && Fits(s.chunks[i], size, align)
    requires Lawful(s.chunks, grants)
    ensures var (t, outcome) := TakeFrom(s, i, size, align); Valid(t) && Lawful(t.chunks, grants + [outcome.grant])
  {
    TakeKeepsValid(s, i, size, align);
    TakeKeepsLawful(s, grants, i, size, align);
  }

  lemma GrowKeeps(s: State, grants: seq<Grant>, c: Chunk)
    requires Valid(s) && Lawful(s.chunks, grants) && Sound(c) && c.used == 0
    ensures Valid(State(s.chunks + [c], s.current, s.bytesReserved + c.capacity, s.bytesUsed))
    ensures Lawful(s.chunks + [c], grants)
  {
    SumsAfterGrowth(s.chunks, c);
  }

  /** An allocation keeps the arena and every grant of the round lawful; a refused one changes nothing. */
  lemma AllocKeeps(s: State, grants: seq<Grant>, chunkSize: Size, size: Size, align: Size, memory: Option<Size>)
    requires Valid(s) && Lawful(s.chunks, grants) && Mappable(memory, size, align, chunkSize)
    ensures var (t, outcome) := Alloc(s, chunkSize, size, align, memory);
            && Valid(t)
            && Lawful(t.chunks, if outcome.Granted? then grants + [outcome.grant] else grants)
            && (outcome.Granted? ==> outcome.grant.size == size && outcome.grant.align == align)
            && (!outcome.Granted? ==> t == s)
  {
    hide And(), PaddingTo(), Fits(), FirstFit(), Used(), Reserved(), Lawful();
    if IsPowerOfTwo(align) {
      var i := FirstFit(s.chunks, s.current, size, align);
      var capacity := CapacityFor(size, align, chunkSize);
      if i < |s.chunks| {
        TakeKeeps(s, grants, i, size, align);
      } else if capacity.Some? && memory.Some? {
        NewChunkFits(memory.value, size, align, chunkSize);
        var chunk := Chunk(memory.value, capacity.value, 0);
        GrowKeeps(s, grants, chunk);
        var grown := State(s.chunks + [chunk], s.current, s.bytesReserved + capacity.value, s.bytesUsed);
        TakeKeeps(grown, grants, |s.chunks|, size, align);
      }
    }
  }

  lemma {:induction false} EmptyChunksUseNothing(chunks: seq<Chunk>)
    requires forall i | 0 <= i < |chunks| :: chunks[i].used == 0
    ensures Used(chunks) == 0
  {
    if chunks != [] { EmptyChunksUseNothing(chunks[..|chunks| - 1]); }
  }

  lemma {:induction false} SameCapacities(a: seq<Chunk>, b: seq<Chunk>)
    requires |a| == |b| && forall i | 0 <= i < |a| :: a[i].capacity == b[i].capacity
    ensures Reserved(a) == Reserved(b)
  {
    if a != [] { SameCapacities(a[..|a| - 1], b[..|b| - 1]); }
  }

  lemma ResetKeepsValid(s: State)
    requires Valid(s)
    ensures Valid(Reset(s)) && Reset(s).bytesReserved == s.bytesReserved && Lawful(Reset(s).chunks, [])
  {
    EmptyChunksUseNothing(EmptyAll(s.chunks));
    SameCapacities(EmptyAll(s.chunks), s.chunks);
  }

  // ---------------------------------------------------------------- when a request is granted

  /** `size` bytes fit in the chunk at `offset`, after what is in use, at an aligned address. */
  ghost predicate FitsAt(c: Chunk, size: nat, align: nat, offset: nat)
    requires align > 0
  {
    c.used <= offset && offset + size <= c.capacity && (c.base + offset) % align == 0
  }

  ghost predicate HasRoom(c: Chunk, size: nat, align: nat)
    requires align > 0
  {
    exists offset: nat :: FitsAt(c, size, align, offset)
  }

  /** Between two multiples lies a whole step. */
  lemma MultiplesApart(a: nat, b: nat, d: nat)
    requires d > 0 && a % d == 0 && b % d == 0 && a < b
    ensures b - a >= d
  {
    var p, q := a / d, b / d;
    assert a == d * p && b == d * q;
    assert p >= q ==> d * p >= d * q;
    assert d * q >= d * (p + 1) == d * p + d by { assert q >= p + 1; }
  }

  /** The test for room is right: there is an aligned place for the request, and the padding leads to the lowest. */
  lemma FitsIff(c: Chunk, size: Size, align: Size)
    requires Sound(c) && IsPowerOfTwo(align)
    ensures Fits(c, size, align) <==> HasRoom(c, size, align)
    ensures Fits(c, size, align) ==> FitsAt(c, size, align, c.used + PaddingFor(c, align))
    ensures PaddingFor(c, align) < align
    ensures forall offset: nat | FitsAt(c, size, align, offset) :: c.used + PaddingFor(c, align) <= offset
  {
    PaddingAligns(c.base + c.used, align);
    var low := c.used + PaddingFor(c, align);
    hide PaddingTo(), IsPowerOfTwo();
    forall offset: nat | FitsAt(c, size, align, offset) ensures low <= offset {
      if offset < low { MultiplesApart(c.base + offset, c.base + low, align); }
    }
    if Fits(c, size, align) { assert FitsAt(c, size, align, low); }
  }

  /** From the current chunk on, chunk `i` is the first with room. */
  ghost predicate FirstWithRoom(s: State, i: nat, size: nat, align: nat)
    requires align > 0
  {
    && s.current <= i < |s.chunks| && HasRoom(s.chunks[i], size, align)
    && forall j | s.current <= j < i :: !HasRoom(s.chunks[j], size, align)
  }

  lemma FirstFitHasRoom(s: State, size: Size, align: Size)
    requires s.current <= |s.chunks| && AllSound(s.chunks) && IsPowerOfTwo(align)
    ensures var i := FirstFit(s.chunks, s.current, size, align);
            && (i < |s.chunks| ==> FirstWithRoom(s, i, size, align))
            && (i == |s.chunks| ==> forall j :: !FirstWithRoom(s, j, size, align))
    ensures forall j | FirstWithRoom(s, j, size, align) :: j == FirstFit(s.chunks, s.current, size, align)
  {
    assert align > 0;
    hide PaddingTo(), IsPowerOfTwo(), FirstFit(), Fits(), HasRoom();
    forall j | 0 <= j < |s.chunks| ensures Fits(s.chunks[j], size, align) <==> HasRoom(s.chunks[j], size, align) {
      FitsIff(s.chunks[j], size, align);
    }
  }

  /**
   Exactly when a request is granted, and which error it meets otherwise: the alignment is a power of two,
   and a chunk from the current one on has room, or the block a new chunk needs stays within 64 bits and
   `malloc` has it.
   */
  lemma AllocGrantedIff(s: State, chunkSize: Size, size: Size, align: Size, memory: Option<Size>)
    requires Valid(s) && Mappable(memory, size, align, chunkSize)
    ensures var outcome := Alloc(s, chunkSize, size, align, memory).1;
            var power := exists k: nat :: align == Pow(2, k);
            var room := align > 0 && exists i :: FirstWithRoom(s, i, size, align);
            var small := size + align - 1 + HEADER < WORD && chunkSize + HEADER < WORD;
            && (outcome.Granted? <==> power && (room || (small && memory.Some?)))
            && (outcome == InvalidAlignment <==> !power)
            && (outcome == TooLarge <==> power && !room && !small)
            && (outcome == NoMemory <==> power && !room && small && memory == None)
  {
    PowerOfTwoIff(align);
    if IsPowerOfTwo(align) {
      FirstFitHasRoom(s, size, align);
      CapacityIsNeeded(size, align, chunkSize);
      hide PaddingTo(), IsPowerOfTwo(), FirstFit(), Fits(), CapacityFor();
    }
  }

  /** A request granted from the chunks there are is at the lowest place with room, and changes nothing else. */
  lemma GrantedInPlace(s: State, chunkSize: Size, size: Size, align: Size, memory: Option<Size>, i: nat)
    requires Valid(s) && Mappable(memory, size, align, chunkSize)
    requires IsPowerOfTwo(align) && FirstWithRoom(s, i, size, align)
    ensures var (t, outcome) := Alloc(s, chunkSize, size, align, memory);
            && outcome.Granted? && outcome.grant.chunk == i && FitsAt(s.chunks[i], size, align, outcome.grant.offset)
            && (forall offset: nat | FitsAt(s.chunks[i], size, align, offset) :: outcome.grant.offset <= offset)
            && t.chunks == s.chunks[i := s.chunks[i].(used := outcome.grant.offset + size)] && t.current == i
  {
    FirstFitHasRoom(s, size, align);
    FitsIff(s.chunks[i], size, align);
    hide PaddingTo(), IsPowerOfTwo(), FirstFit(), FitsAt();
  }

  /** Otherwise it starts a new chunk, of the chunk size or, if it may take more from any address, of that. */
  lemma GrantedInNewChunk(s: State, chunkSize: Size, size: Size, align: Size, memory: Option<Size>)
    requires Valid(s) && Mappable(memory, size, align, chunkSize) && IsPowerOfTwo(align)
    requires !exists i :: FirstWithRoom(s, i, size, align)
    requires Alloc(s, chunkSize, size, align, memory).1.Granted?
    ensures var (t, outcome) := Alloc(s, chunkSize, size, align, memory);
            var n := |s.chunks|;
            && memory.Some? && |t.chunks| == n + 1 && t.chunks[..n] == s.chunks && t.current == n
            && t.chunks[n].base == memory.value && t.chunks[n].capacity == Needed(size, align, chunkSize)
            && outcome.grant.chunk == n && outcome.grant.offset < align
            && t.chunks[n].used == outcome.grant.offset + size
  {
    FirstFitHasRoom(s, size, align);
    CapacityIsNeeded(size, align, chunkSize);
    FitsIff(Chunk(memory.value, Needed(size, align, chunkSize), 0), size, align);
    NewChunkFits(memory.value, size, align, chunkSize);
    hide PaddingTo(), IsPowerOfTwo(), FirstFit(), CapacityFor();
  }

  // ---------------------------------------------------------------- whole rounds

  datatype Request = Request(size: Size, align: Size, memory: Option<Size>)

  ghost predicate AllMappable(requests: seq<Request>, chunkSize: Size) {
    forall i | 0 <= i < |requests| :: Mappable(requests[i].memory, requests[i].size, requests[i].align, chunkSize)
  }

  ghost function Run(s: State, requests: seq<Request>, chunkSize: Size): (State, seq<Outcome>)
    requires Valid(s) && AllMappable(requests, chunkSize)
    ensures Valid(Run(s, requests, chunkSize).0)
    decreases |requests|
  {
    if requests == [] then (s, [])
    else
      var (before, outcomes) := Run(s, requests[..|requests| - 1], chunkSize);
      var q := requests[|requests| - 1];
      AllocKeeps(before, [], chunkSize, q.size, q.align, q.memory);
      var (after, outcome) := Alloc(before, chunkSize, q.size, q.align, q.memory);
      (after, outcomes + [outcome])
  }

  ghost function Grants(outcomes: seq<Outcome>): seq<Grant> {
    if outcomes == [] then []
    else
      var last := outcomes[|outcomes| - 1];
      Grants(outcomes[..|outcomes| - 1]) + if last.Granted? then [last.grant] else []
  }

  lemma RunSnoc(s: State, requests: seq<Request>, chunkSize: Size)
    requires Valid(s) && AllMappable(requests, chunkSize) && requests != []
    ensures var n := |requests| - 1;
            var (before, outcomes) := Run(s, requests[..n], chunkSize);
            Run(s, requests, chunkSize) == Extend(before, outcomes, requests[n], chunkSize)
  {
  }

  ghost function Extend(before: State, outcomes: seq<Outcome>, q: Request, chunkSize: Size): (State, seq<Outcome>)
    requires Valid(before) && Mappable(q.memory, q.size, q.align, chunkSize)
  {
    var (after, outcome) := Alloc(before, chunkSize, q.size, q.align, q.memory);
    (after, outcomes + [outcome])
  }

  lemma GrantsSnoc(outcomes: seq<Outcome>, last: Outcome)
    ensures Grants(outcomes + [last]) == if last.Granted? then Grants(outcomes) + [last.grant] else Grants(outcomes)
  {
    assert (outcomes + [last])[..|outcomes|] == outcomes;
  }

  /** Everything granted since a reset is inside its chunk, aligned, and apart from everything else. */
  lemma {:induction false} RoundIsLawful(s: State, requests: seq<Request>, chunkSize: Size)
    requires Valid(s) && AllMappable(requests, chunkSize)
    ensures var (t, outcomes) := Run(s, requests, chunkSize); Lawful(t.chunks, Grants(outcomes))
    decreases |requests|
  {
    if requests != [] {
      var n := |requests| - 1;
      RoundIsLawful(s, requests[..n], chunkSize);
      RunSnoc(s, requests, chunkSize);
      var (before, outcomes) := Run(s, requests[..n], chunkSize);
      hide Run(), Valid(), Lawful(), Alloc(), Grants(), Mappable();
      var q := requests[n];
      AllocKeeps(before, Grants(outcomes), chunkSize, q.size, q.align, q.memory);
      GrantsSnoc(outcomes, Alloc(before, chunkSize, q.size, q.align, q.memory).1);
    }
  }

  /** Blocks `malloc` keeps apart. */
  ghost predicate BlocksApart(chunks: seq<Chunk>) {
    forall i, j | 0 <= i < j < |chunks| ::
      chunks[i].base + chunks[i].capacity <= chunks[j].base || chunks[j].base + chunks[j].capacity <= chunks[i].base
  }

  /** Lawful grants share no byte of memory, whatever chunks they are in. */
  lemma GrantsShareNoByte(chunks: seq<Chunk>, grants: seq<Grant>, i: nat, j: nat, x: nat)
    requires AllSound(chunks) && BlocksApart(chunks) && Lawful(chunks, grants) && i < j < |grants|
    ensures var p := chunks[grants[i].chunk].base + grants[i].offset;
            var q := chunks[grants[j].chunk].base + grants[j].offset;
            !(p <= x < p + grants[i].size && q <= x < q + grants[j].size)
  {
    var g, h := grants[i], grants[j];
    assert Inside(chunks, g) && Inside(chunks, h) && Apart(g, h);
    assert Sound(chunks[g.chunk]) && Sound(chunks[h.chunk]);
  }

  // ---------------------------------------------------------------- steady state

  /** The same blocks, and perhaps more of them. */
  ghost predicate Grows(a: seq<Chunk>, b: seq<Chunk>) {
    |a| <= |b| && forall i | 0 <= i < |a| :: Emptied(a[i]) == Emptied(b[i])
  }

  lemma AllocGrows(s: State, chunkSize: Size, size: Size, align: Size, memory: Option<Size>)
    requires Valid(s) && Mappable(memory, size, align, chunkSize)
    ensures Grows(s.chunks, Alloc(s, chunkSize, size, align, memory).0.chunks)
  {
    hide PaddingTo(), IsPowerOfTwo(), FirstFit();
  }

  /** `b` replays `a` on the blocks of `last`: equal where `a` has chunks, empty beyond. */
  ghost predicate Replays(a: State, b: State, last: seq<Chunk>) {
    && a.current == b.current && a.bytesUsed == b.bytesUsed
    && |a.chunks| <= |b.chunks| == |last|
    && (forall i | 0 <= i < |a.chunks| :: b.chunks[i] == a.chunks[i])
    && forall i | |a.chunks| <= i < |last| :: b.chunks[i] == Emptied(last[i])
  }

  lemma ReplayFit(a: State, b: State, last: seq<Chunk>, size: Size, align: Size)
    requires Valid(a) && Valid(b) && Replays(a, b, last) && IsPowerOfTwo(align)
    requires FirstFit(a.chunks, a.current, size, align) < |a.chunks|
    ensures FirstFit(b.chunks, b.current, size, align) == FirstFit(a.chunks, a.current, size, align)
  {
    hide PaddingTo(), And();
    var i, j := FirstFit(a.chunks, a.current, size, align), FirstFit(b.chunks, b.current, size, align);
    assert b.chunks[i] == a.chunks[i];
  }

  lemma ReplayGrowth(a: State, b: State, last: seq<Chunk>, size: Size, align: Size, chunk: Chunk)
    requires Valid(a) && Valid(b) && Replays(a, b, last) && IsPowerOfTwo(align)
    requires FirstFit(a.chunks, a.current, size, align) == |a.chunks| < |last|
    requires Sound(chunk) && Fits(chunk, size, align) && chunk == Emptied(last[|a.chunks|])
    ensures FirstFit(b.chunks, b.current, size, align) == |a.chunks|
  {
    hide PaddingTo(), And();
    var n, j := |a.chunks|, FirstFit(b.chunks, b.current, size, align);
    assert b.chunks[n] == chunk;
  }

  /** A granted request is granted again, at the same place, without `malloc`. */
  lemma ReplayStep(a: State, b: State, last: seq<Chunk>, q: Request, chunkSize: Size)
    requires Valid(a) && Valid(b) && Replays(a, b, last) && Mappable(q.memory, q.size, q.align, chunkSize)
    requires var (t, outcome) := Alloc(a, chunkSize, q.size, q.align, q.memory);
             outcome.Granted? && Grows(t.chunks, last)
    ensures var (t, outcome) := Alloc(a, chunkSize, q.size, q.align, q.memory);
            var (u, again) := Alloc(b, chunkSize, q.size, q.align, None);
            again == outcome && Replays(t, u, last)
  {
    var i := FirstFit(a.chunks, a.current, q.size, q.align);
    if i < |a.chunks| {
      ReplayFit(a, b, last, q.size, q.align);
    } else {
      var capacity := CapacityFor(q.size, q.align, chunkSize);
      NewChunkFits(q.memory.value, q.size, q.align, chunkSize);
      var chunk := Chunk(q.memory.value, capacity.value, 0);
      var t := Alloc(a, chunkSize, q.size, q.align, q.memory).0;
      assert Emptied(t.chunks[i]) == chunk;
      ReplayGrowth(a, b, last, q.size, q.align, chunk);
    }
  }

  /** The same requests, with nothing to be had from `malloc`. */
  function WithoutMemory(requests: seq<Request>): (r: seq<Request>)
    ensures |r| == |requests| && forall i | 0 <= i < |r| :: r[i] == requests[i].(memory := None)
  {
    seq(|requests|, i requires 0 <= i < |requests| => requests[i].(memory := None))
  }

  ghost predicate AllGranted(outcomes: seq<Outcome>) {
    forall i | 0 <= i < |outcomes| :: outcomes[i].Granted?
  }

  lemma ExtendGrows(a: State, outcomes: seq<Outcome>, q: Request, chunkSize: Size, last: seq<Chunk>)
    requires Valid(a) && Mappable(q.memory, q.size, q.align, chunkSize)
    requires var (t, all) := Extend(a, outcomes, q, chunkSize); AllGranted(all) && Grows(t.chunks, last)
    ensures AllGranted(outcomes) && Grows(a.chunks, last)
  {
    AllocGrows(a, chunkSize, q.size, q.align, q.memory);
    var all := Extend(a, outcomes, q, chunkSize).1;
    hide Alloc(), Valid(), Mappable();
    assert forall i | 0 <= i < |outcomes| :: outcomes[i] == all[i];
  }

  lemma ReplayExtend(a: State, b: State, outcomes: seq<Outcome>, q: Request, chunkSize: Size, last: seq<Chunk>)
    requires Valid(a) && Valid(b) && Replays(a, b, last) && Mappable(q.memory, q.size, q.align, chunkSize)
    requires var (t, all) := Extend(a, outcomes, q, chunkSize); AllGranted(all) && Grows(t.chunks, last)
    ensures var (t, all) := Extend(a, outcomes, q, chunkSize);
            var (u, again) := Extend(b, outcomes, q.(memory := None), chunkSize);
            again == all && Replays(t, u, last)
  {
    var outcome := Alloc(a, chunkSize, q.size, q.align, q.memory).1;
    assert (outcomes + [outcome])[|outcomes|] == outcome;
    hide Alloc(), Valid(), Replays();
    ReplayStep(a, b, last, q, chunkSize);
  }

  lemma {:induction false} ReplayRound(s: State, b: State, requests: seq<Request>, chunkSize: Size, last: seq<Chunk>)
    requires Valid(s) && Valid(b) && AllMappable(requests, chunkSize) && Replays(s, b, last)
    requires var (t, outcomes) := Run(s, requests, chunkSize); AllGranted(outcomes) && Grows(t.chunks, last)
    ensures var (t, outcomes) := Run(s, requests, chunkSize);
            var (u, again) := Run(b, WithoutMemory(requests), chunkSize);
            again == outcomes && Replays(t, u, last)
    decreases |requests|
  {
    if requests != [] {
      var n := |requests| - 1;
      RunSnoc(s, requests, chunkSize);
      RunSnoc(b, WithoutMemory(requests), chunkSize);
      assert WithoutMemory(requests)[..n] == WithoutMemory(requests[..n]);
      var (before, outcomes) := Run(s, requests[..n], chunkSize);
      hide Run(), Valid(), Extend(), Mappable(), Replays(), WithoutMemory(), Grows(), AllGranted();
      ExtendGrows(before, outcomes, requests[n], chunkSize, last);
      ReplayRound(s, b, requests[..n], chunkSize, last);
      ReplayExtend(before, Run(b, WithoutMemory(requests[..n]), chunkSize).0, outcomes, requests[n], chunkSize, last);
    }
  }

  lemma {:induction false} RunGrows(s: State, requests: seq<Request>, chunkSize: Size)
    requires Valid(s) && AllMappable(requests, chunkSize)
    ensures Grows(s.chunks, Run(s, requests, chunkSize).0.chunks)
    decreases |requests|
  {
    if requests != [] {
      var n := |requests| - 1;
      RunGrows(s, requests[..n], chunkSize);
      RunSnoc(s, requests, chunkSize);
      var before := Run(s, requests[..n], chunkSize).0;
      hide Run(), Valid(), Alloc(), Mappable();
      AllocGrows(before, chunkSize, requests[n].size, requests[n].align, requests[n].memory);
    }
  }

  lemma ReplayStarts(s: State, t: State)
    requires s == Reset(s) && Grows(s.chunks, t.chunks)
    ensures Replays(s, Reset(t), t.chunks)
  {
    forall i | 0 <= i < |s.chunks| ensures Reset(t).chunks[i] == s.chunks[i] {
      assert Reset(s).chunks[i] == Emptied(s.chunks[i]) == Emptied(t.chunks[i]);
    }
  }

  lemma ReplayEnds(t: State, u: State)
    requires Valid(t) && Valid(u) && Replays(t, u, t.chunks)
    ensures u == t
  {
    assert u.chunks == t.chunks;
  }

  /**
   The steady state: once a round of requests was granted from a reset arena, the same round after
   another reset gets the same pointers and leaves the arena as it was, with no call to `malloc`.
   */
  lemma SteadyState(s: State, requests: seq<Request>, chunkSize: Size)
    requires Valid(s) && s == Reset(s) && AllMappable(requests, chunkSize)
    requires AllGranted(Run(s, requests, chunkSize).1)
    ensures var (t, outcomes) := Run(s, requests, chunkSize);
            Valid(Reset(t)) && Run(Reset(t), WithoutMemory(requests), chunkSize) == (t, outcomes)
  {
    var (t, outcomes) := Run(s, requests, chunkSize);
    RunGrows(s, requests, chunkSize);
    ResetKeepsValid(t);
    hide Run(), Valid(), Replays(), WithoutMemory(), Mappable(), Reset();
    ReplayStarts(s, t);
    assert Grows(t.chunks, t.chunks);
    ReplayRound(s, Reset(t), requests, chunkSize, t.chunks);
    ReplayEnds(t, Run(Reset(t), WithoutMemory(requests), chunkSize).0);
  }

  // ---------------------------------------------------------------- the arena

  const DEFAULT_CHUNK_SIZE: Size := 64 * 1024

  /** The block `malloc` would answer with for this request shares nothing with the chunks there are. */
  ghost predicate BlockApart(chunks: seq<Chunk>, memory: Option<Size>, size: Size, align: Size, chunkSize: Size) {
    memory.Some? && align > 0 && CapacityFor(size, align, chunkSize).Some? ==>
      forall i | 0 <= i < |chunks| ::
        || chunks[i].base + chunks[i].capacity <= memory.value
        || memory.value + CapacityFor(size, align, chunkSize).value <= chunks[i].base
  }

  lemma AllocKeepsBlocksApart(s: State, chunkSize: Size, size: Size, align: Size, memory: Option<Size>)
    requires Valid(s) && BlocksApart(s.chunks) && Mappable(memory, size, align, chunkSize)
    requires BlockApart(s.chunks, memory, size, align, chunkSize)
    ensures BlocksApart(Alloc(s, chunkSize, size, align, memory).0.chunks)
  {
    hide PaddingTo(), And(), FirstFit();
  }

  lemma BlocksStayApart(chunks: seq<Chunk>)
    requires BlocksApart(chunks)
    ensures BlocksApart(EmptyAll(chunks))
  {
  }

  lemma LastIsLawful(chunks: seq<Chunk>, grants: seq<Grant>, g: Grant)
    requires Lawful(chunks, grants + [g])
    ensures Inside(chunks, g) && IsAligned(chunks, g)
  {
    var i := |grants|;
    assert (grants + [g])[i] == g;
  }

  class Arena {
    var chunks: seq<Chunk>
    var current: nat
    const chunkSize: Size
    var bytesReserved: nat
    var bytesUsed: nat
    ghost var grants: seq<Grant>

    ghost function Contents(): State
      reads this
    {
      State(chunks, current, bytesReserved, bytesUsed)
    }

    ghost predicate Good()
      reads this
    {
      Valid(Contents()) && Lawful(chunks, grants) && BlocksApart(chunks)
    }

    constructor (size: Size)
      ensures Good() && Contents() == Init() && grants == []
      ensures chunkSize == if size > 0 then size else DEFAULT_CHUNK_SIZE
    {
      chunks := [];
      current := 0;
      chunkSize := if size > 0 then size else DEFAULT_CHUNK_SIZE;
      bytesReserved := 0;
      bytesUsed := 0;
      grants := [];
    }

    /** The walk from the current chunk on. */
    method FindFit(size: Size, align: Size) returns (i: nat)
      requires current <= |chunks| && AllSound(chunks) && align > 0
      ensures i == FirstFit(chunks, current, size, align)
    {
      i := current;
      while i < |chunks| && !Fits(chunks[i], size, align)
        invariant current <= i <= |chunks|
        invariant FirstFit(chunks, i, size, align) == FirstFit(chunks, current, size, align)
      {
        i := i + 1;
      }
    }

    /** `chunk_new`, linked in at the tail. */
    method AddChunk(size: Size, align: Size, memory: Option<Size>) returns (failure: Option<Outcome>)
      requires align > 0 && Mappable(memory, size, align, chunkSize)
      modifies `chunks, `bytesReserved
      ensures var capacity := CapacityFor(size, align, chunkSize);
              failure == if capacity == None then Some(TooLarge) else if memory == None then Some(NoMemory) else None
      ensures failure.Some? ==> chunks == old(chunks) && bytesReserved == old(bytesReserved)
      ensures failure == None ==>
                var capacity := CapacityFor(size, align, chunkSize).value;
                && chunks == old(chunks) + [Chunk(memory.value, capacity, 0)]
                && bytesReserved == old(bytesReserved) + capacity
    {
      if size > SIZE_MAX - (align - 1) {
        return Some(TooLarge);
      }
      var needed := size + (align - 1);
      var capacity := if needed > chunkSize then needed else chunkSize;
      if capacity > SIZE_MAX - HEADER {
        return Some(TooLarge);
      }
      if memory == None {
        return Some(NoMemory);
      }
      chunks := chunks + [Chunk(memory.value, capacity, 0)];
      bytesReserved := bytesReserved + capacity;
      failure := None;
    }

    method TakeAt(i: nat, size: Size, align: Size) returns (grant: Grant, address: nat)
      requires i < |chunks| && Sound(chunks[i]) && align > 0 && Fits(chunks[i], size, align)
      modifies `chunks, `current, `bytesUsed
      ensures (Contents(), Granted(grant)) == TakeFrom(old(Contents()), i, size, align)
      ensures address == chunks[i].base + grant.offset
    {
      var c := chunks[i];
      var padding := PaddingFor(c, align);
      grant := Grant(i, c.used + padding, size, align);
      address := c.base + c.used + padding;
      chunks := chunks[i := c.(used := c.used + padding + size)];
      current := i;
      bytesUsed := bytesUsed + padding + size;
    }

    /** A new chunk, and the request at its start. */
    method PlaceGrown(size: Size, align: Size, memory: Option<Size>) returns (outcome: Outcome, address: nat)
      requires IsPowerOfTwo(align) && Mappable(memory, size, align, chunkSize)
      modifies `chunks, `current, `bytesReserved, `bytesUsed
      ensures (Contents(), outcome) == AllocGrown(old(Contents()), chunkSize, size, align, memory)
      ensures outcome.Granted? ==>
                var g := outcome.grant; g.chunk < |chunks| && address == chunks[g.chunk].base + g.offset
    {
      var failure := AddChunk(size, align, memory);
      if failure.Some? {
        return failure.value, 0;
      }
      NewChunkFits(memory.value, size, align, chunkSize);
      hide And(), PaddingTo(), Fits();
      var grant: Grant;
      grant, address := TakeAt(|chunks| - 1, size, align);
      outcome := Granted(grant);
    }

    method Place(size: Size, align: Size, memory: Option<Size>) returns (outcome: Outcome, address: nat)
      requires Valid(Contents()) && Mappable(memory, size, align, chunkSize)
      modifies `chunks, `current, `bytesReserved, `bytesUsed
      ensures (Contents(), outcome) == Alloc(old(Contents()), chunkSize, size, align, memory)
      ensures outcome.Granted? ==>
                var g := outcome.grant; g.chunk < |chunks| && address == chunks[g.chunk].base + g.offset
    {
      if !IsPowerOfTwo(align) {
        return InvalidAlignment, 0;
      }
      hide And(), PaddingTo(), Fits(), FirstFit(), Used(), Reserved(), AllocGrown();
      var i := FindFit(size, align);
      if i == |chunks| {
        outcome, address := PlaceGrown(size, align, memory);
      } else {
        var grant: Grant;
        grant, address := TakeAt(i, size, align);
        outcome := Granted(grant);
      }
    }

    /** Every grant since the last reset stays lawful, and the new one is at an aligned address. */
    method AllocAligned(size: Size, align: Size, memory: Option<Size>) returns (outcome: Outcome, address: nat)
      requires Good() && Mappable(memory, size, align, chunkSize)
      requires BlockApart(chunks, memory, size, align, chunkSize)
      modifies this
      ensures Good() && (Contents(), outcome) == Alloc(old(Contents()), chunkSize, size, align, memory)
      ensures grants == if outcome.Granted? then old(grants) + [outcome.grant] else old(grants)
      ensures outcome.Granted? ==>
                var g := outcome.grant;
                && Inside(chunks, g) && IsAligned(chunks, g) && g.size == size && g.align == align
                && address == chunks[g.chunk].base + g.offset
    {
      AllocKeeps(Contents(), grants, chunkSize, size, align, memory);
      AllocKeepsBlocksApart(Contents(), chunkSize, size, align, memory);
      hide Alloc(), Valid(), BlocksApart(), BlockApart(), Mappable(), Lawful(), IsAligned();
      outcome, address := Place(size, align, memory);
      if outcome.Granted? {
        LastIsLawful(chunks, grants, outcome.grant);
        grants := grants + [outcome.grant];
      }
    }

    method ResetAll()
      requires Good()
      modifies this
      ensures Good() && Contents() == Reset(old(Contents())) && grants == []
    {
      ResetKeepsValid(Contents());
      BlocksStayApart(chunks);
      hide Valid(), Lawful(), BlocksApart();
      ghost var before := chunks;
      for i := 0 to |chunks|
        invariant |chunks| == |before|
        invariant forall k | 0 <= k < |chunks| :: chunks[k] == if k < i then Emptied(before[k]) else before[k]
        invariant bytesReserved == old(bytesReserved)
      {
        chunks := chunks[i := chunks[i].(used := 0)];
      }
      assert chunks == EmptyAll(before);
      current := 0;
      bytesUsed := 0;
      grants := [];
    }
  }
}
