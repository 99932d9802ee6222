# A verified model of the indexer's core

This project models, in Dafny 4.11, the parts of the indexer whose correctness is spread over several
functions, and proves what those functions keep between them. Code that changes state step by step
is a class or a method over arrays; each method is proved against a function on values, and the
properties are proved of those functions.

| file | what it models |
|---|---|
| `Slots.dfy`, `Words.dfy` | slot numbers and machine words |
| `Gaps.dfy`, `GapTheorems.dfy`, `GapSet.dfy` | the set of missing slots (`src/gaps.c`): its operations as functions on sorted ranges, their laws, and the array they run on |
| `GapSafety.dfy` | what those operations still keep when the ranges overlap and are out of order |
| `Ring.dfy` | the bounded hand-off between threads (`src/ring.c`) |
| `Fetcher.dfy` | what one recovery worker does with a claim, and the shared claim width (`src/fetcher.c`) |
| `Protocol.dfy`, `ProtocolRuns.dfy` | receive thread, processor, fetchers and cursor file as one step system with crashes and restarts; runs put together from pieces |
| `ProtocolSafety.dfy`, `ProtocolLosses.dfy` | what no run loses, and exactly when some run does |
| `ProtocolFrontier.dfy`, `ProtocolReleases.dfy`, `ProtocolFalls.dfy` | why the frontier never falls, and exactly when it can |
| `ProtocolWindow.dfy` | what no run does at all: pass the end slot, overfill a ring |
| `Pipeline.dfy` | the processing thread and the cursor as code (`src/pipeline.c`, `src/slot_cursor.c`) |
| `BarKeys.dfy`, `Bars.dfy`, `BarRegistry.dfy` | OHLCV bars, their byte keys, and recomputation after a reorg (`src/bar.c`) |
| `Store.dfy`, `BarStores.dfy` | the reference store (`src/store.c`, `src/vec.c`), the merging bars table (`src/pg_store.c`), and their agreement with the registry |
| `HashMap.dfy` | the open-addressing map (`src/map.c`) |
| `Numbers.dfy`, `Base58.dfy` | positional numbers; the in-place base conversion (`src/base58.c`) |
| `Bits.dfy`, `Arena.dfy` | masks and alignment; the chunked bump allocator (`src/arena.c`) |
| `Options.dfy`, `Circular.dfy` | a value that may be missing; positions in a circular buffer |
| `Routes.dfy` | the netting of aggregator routes (`src/swap.c`) |

## How the protocol is modelled

Any interleaving of the steps is a run. A release by a worker is two steps, as it is two changes under
the lock (`HalfRelease` resolves, `Act` inserts), or one when nothing comes in between. A crash may come
between any two steps, and a restart resumes at the saved slot plus one. Four ghost sets say what a run
promises: `owed` (the backfilled range, and every slot from the first live one consumed to the last),
`reported` (slots a fetcher gave up on), `unservable` (slots the endpoint had nothing for) and
`forfeited` (slots a stop made a fetcher give up unfetched).

No-loss asks nothing of the live slots, which may repeat, fall back or start inside the backfill, and one
thing of the schedule (`ReadsClear`): a watermark read between the halves of a release lies below the
range taken out. Then an owed slot below the resume point was committed, was unservable, or was
forfeited. Each way left to lose a slot is stated exactly, with a run for one direction and a proof over
all runs for the other; runs start from any safe moment the pipeline is down, so after a save too:

- a stop: a claim can lose a slot exactly when it is stopped before a block of its list
  (`ClaimCanLoseIff`);
- a hole: a run can miss a slot, from a base on, exactly when its first live slot is above the base and
  more than one above its backfill (`OneRunCanMissIff`);
- a reading inside a release: a crash can lose a slot otherwise exactly when some reading is not clear,
  and one such reading is enough (`CrashCanLoseIff`).

The frontier never falls (`FrontierNeverFalls`), nor the resume point across saves and restarts
(`ResumePointNeverFalls`), while four things hold at every step:

- each run's first live slot is the last backfilled one or later (`FirstLiveAtTip`);
- no live slot is resolved inside a claim (`SparesClaims`);
- readings are clear of releases (`ReadsClear`);
- a range taken out goes back where nothing has been claimed since (`ReturnsClear`), which only
  coarsening can break (`RoomyReturnsClear`).

The last two hold by themselves when nothing comes between the halves of a release
(`WholeReleasesSpare`). With them, live slots that are always above everything before them never lower
the frontier, across any number of restarts (`RisingNeverFalls`). Where live slots rise from a first one
on, the frontier can fall exactly when that first one is not above the backfill (`FrontierCanFallIff`);
if besides no live slot is resolved inside a claim, exactly when it is below the backfill's last slot
(`SparingCanFallIff`); and where it is above the backfill, exactly when some reading is not clear
(`ReadingCanFallIff`).

## Where the code and its documentation differ

- `include/fetcher.h:81-85` promises that a stopped worker returns its unfinished slots to the gap set. The
  loop leaves with a `break` and resolves the rest of the claim as slots that never existed
  (`src/fetcher.c:223-225`, `src/fetcher.c:284-287`). The model follows the code; `WorkSoundIff` says
  exactly when nothing still to be had is resolved, and that the documented rule would always be sound;
  `ClaimCanLoseIff` says exactly when a slot is then lost.
- `idx_gaps_release` is three critical sections (`src/gaps.c:310-324`). `SplitReleaseReadsHighIff`
  says exactly when a watermark read in between is too high, `CrashCanLoseIff` that a single such reading
  can lose a slot for good and `ReadingCanFallIff` that it can lower the frontier.
- `idx_gaps_resolve` says it keeps the upper part of a range it cannot split for lack of memory, but drops
  it (`src/gaps.c:277-287`). Memory is assumed to be available there.
- The reference store is described as the specification a real backend is checked against
  (`src/store.c:8-10`), but its write appends bars where the table's write merges them.
  `AppendAgreesIff` says exactly when the two agree.
- Per-mint totals of a route wrap at 64 bits. `TableIsExactIff` says when they are exact and
  `NetsAreExactIff` when their differences are, which is all the row needs; `WrappedTotalHidesTrade`
  gives a trade that disappears when one total wraps and the other does not.

## Model

| member | source | states |
|---|---|---|
| `GapTheorems.OneOwner` | src/gaps.c:192-242 | no slot is both claimed and claimable |
| `GapTheorems.CoalesceHolds` | src/gaps.c:97-112 | merging touching unclaimed ranges changes no slot's status |
| `GapTheorems.CoalesceWellFormed` | src/gaps.c:97-112 | after a sorted insertion that meets no claim, coalescing restores sorted, disjoint, maximal ranges |
| `GapTheorems.CoarsenHolds` | src/gaps.c:114-148 | coarsening never forgets a slot and never touches a claim |
| `GapTheorems.CoarsenSettles` | src/gaps.c:114-148 | coarsening ends within the limit or with no two unclaimed neighbours left, and leaves the lowest slot alone |
| `Gaps.ClosestPair` | src/gaps.c:121-139 | the pair the scan picks: the first with the least 64-bit distance; `ClosestIsNarrowest` says what that is in slots |
| `GapTheorems.ClosestIsNarrowest` | src/gaps.c:121-139 | it is the pair with the narrowest space between them, by plain difference, over all unclaimed neighbours, the first on ties, and exists exactly when two unclaimed neighbours do |
| `GapTheorems.CoarsenMergesNarrowest` | src/gaps.c:119-148 | coarsening is a series of merges, each over the narrowest space there is at that point, and no more of them than the limit asks |
| `GapTheorems.CoarsenFillsNarrowest` | src/gaps.c:114-148 | every slot coarsening makes outstanding again lay between two unclaimed neighbours, in a space no wider than any that is left |
| `GapTheorems.InsertHolds` | src/gaps.c:151-170 | an insertion yields a superset of the union, exactly the union when nothing is coarsened, and the same claims |
| `GapTheorems.InsertLowest` | src/gaps.c:151-170 | the lowest slot after an insertion is the lower of the old lowest and the new range's |
| `GapTheorems.InsertWellFormed` | src/gaps.c:151-170 | an insertion that misses every claim keeps the representation, its bound and its size limit |
| `GapTheorems.AddWellFormedIff` | src/gaps.c:172-190 | ranges stay sorted and disjoint exactly when the added range misses every claimed one |
| `GapTheorems.AddHolds` | src/gaps.c:172-190 | a recorded hole is outstanding, nothing outstanding is forgotten, claims stay; an inverted range is ignored |
| `GapTheorems.ResolveHolds` | src/gaps.c:244-299 | resolve removes exactly the slots of its range, from claimed and unclaimed ranges alike |
| `GapTheorems.ResolveWellFormed` | src/gaps.c:244-299 | resolve keeps ranges non-empty, sorted and disjoint, each inside a former one |
| `GapTheorems.ReleaseHolds` | src/gaps.c:301-326 | a released range is claimable again, off every claim, and every other slot at least as outstanding; exactly the union when nothing is coarsened |
| `GapTheorems.ReleaseWellFormed` | src/gaps.c:301-326 | releasing needs no condition on claims |
| `GapTheorems.ClaimHolds` | src/gaps.c:192-242 | a claim leaves the outstanding slots as they are; those granted were claimable and are claimed after, nothing else moves |
| `GapTheorems.ClaimFits` | src/gaps.c:192-242 | a claim fails only when nothing is claimable, and is never wider than asked |
| `GapTheorems.ClaimTakesLowest` | src/gaps.c:192-242 | a claim takes the lowest claimable slots, stopping short only where they end |
| `GapTheorems.ClaimRespectsLimit` | src/gaps.c:192-242 | a limit of zero is a limit of one; a claim is granted exactly when some range is unclaimed, and is the lowest claimable slots up to the limit or the end of their hole |
| `GapTheorems.ClaimWellFormed` | src/gaps.c:192-242 | claiming keeps the representation and the lowest slot |
| `GapTheorems.ClaimWidthIff` | src/gaps.c:206-215 | over all 64-bit bounds the width test lets through too wide a claim exactly on the full range, whose width wraps to zero |
| `GapTheorems.WatermarkIsHighestTrusted` | src/gaps.c:328-351 | the watermark is the highest slot, up to the highest committed, with nothing outstanding at or below it |
| `GapTheorems.WatermarkMonotone` | src/gaps.c:328-351 | the watermark rises with the lowest hole and the highest commit |
| `GapTheorems.SplitReleaseReadsHighIff` | src/gaps.c:310-324 | exactly when a watermark read inside a release is too high |
| `GapTheorems.SplitReleaseCounterexample` | src/gaps.c:310-324 | one such reading, with an outstanding slot below it |
| `GapTheorems.ReturnOntoClaimCounterexample` | src/gaps.c:310-324 | and a claim can come in between: a set coarsened across the range taken out, and then claimed, is out of shape once that range is put back |
| `GapSafety.MeetsIsHeld` | src/gaps.c:328-351 | a slot met from the front is outstanding and not below the first range, so not below the watermark |
| `GapSafety.HeldIsMet` | src/gaps.c:97-112 | in sorted, disjoint ranges every outstanding slot is met |
| `GapSafety.InsertMeets` | src/gaps.c:151-170 | an insertion, coalescing and coarsening included, forgets no slot that is met and meets every slot it adds, whatever the order and overlap of the ranges |
| `GapSafety.ResolveMeets` | src/gaps.c:244-299 | so does resolving, for every slot outside its range |
| `GapSafety.ReleaseMeets` | src/gaps.c:301-326 | so does releasing |
| `GapSafety.ClaimMeets` | src/gaps.c:192-242 | so does claiming, and it grants real slots |
| `GapSets.GapSet.constructor` | src/gaps.c:43-59 | an empty set, with the default limit for zero |
| `GapSets.GapSet.ReserveOne` | src/gaps.c:71-84 | room for one more range, contents unchanged |
| `GapSets.GapSet.RemoveAt` | src/gaps.c:87-91 | the ranges above shift down by one |
| `GapSets.GapSet.CoalesceInPlace` | src/gaps.c:97-112 | the in-place loop computes `Coalesce` |
| `GapSets.GapSet.CoarsenInPlace` | src/gaps.c:119-148 | the in-place loop computes `Coarsen`, so merges over narrowest spaces only |
| `GapSets.GapSet.InsertInPlace` | src/gaps.c:151-170 | computes `Insert` |
| `GapSets.GapSet.AddRange` | src/gaps.c:172-190 | computes `Add`, which ignores inverted and slotless ranges |
| `GapSets.GapSet.ClaimSpan` | src/gaps.c:192-242 | computes `Claim`, state and grant |
| `GapSets.GapSet.CutAt` | src/gaps.c:250-296 | one range trimmed, removed or split |
| `GapSets.GapSet.ResolveRange` | src/gaps.c:244-299 | the loop over an array it reshapes computes `Resolve` |
| `GapSets.GapSet.ReleaseRange` | src/gaps.c:301-326 | computes `Release` |
| `GapSets.GapSet.ReadWatermark` | src/gaps.c:328-351 | computes `Watermark` |
| `Rings.JumpsAreOlderDrops` | src/pipeline.c:413-417 | the sequence jumps summed up to a consumed entry are exactly the older entries dropped |
| `Rings.HoldingPop` | src/ring.c:114-125 | taking the oldest entry leaves the rest in place and its document unowned |
| `Rings.HoldingPush` | src/ring.c:163-166 | writing at the head adds one entry and disturbs none |
| `Rings.Ring.DropOldest` | src/ring.c:114-125 | the oldest waiting entry is dropped and its document freed, never on a blocking ring |
| `Rings.Ring.Publish` | src/ring.c:127-175 | dropping the oldest or waiting when full, refusing and freeing when closed, numbering what it accepts |
| `Rings.Ring.Consume` | src/ring.c:188-229 | entries leave in the order they came; a closed ring still drains |
| `Rings.Ring.Close` | src/ring.c:240-249 | nothing queued is lost by closing |
| `Rings.Ring.EveryDocumentHasOneOwner` | src/ring.c:114-249 | each document offered is consumed, queued or freed, once; accepted = consumed + dropped + queued, within the depth |
| `Rings.OpenRing` | src/ring.c:48-96 | a depth of one is refused, zero selects the default |
| `Fetchers.WorkTiles` | src/fetcher.c:154-290 | whatever the endpoint answers, in any order, a worker cuts its claim into consecutive published, resolved and released pieces |
| `Fetchers.EachSlotOnce` | src/fetcher.c:154-290 | so each slot of the claim meets exactly one of them |
| `Fetchers.WorkSoundIff` | src/fetcher.c:223-287 | nothing the endpoint could still serve is resolved exactly when no stop comes before a listed block; the documented rule is always sound |
| `Fetchers.WorkFromUnsound` | src/fetcher.c:223-225 | for every such stop, a listed slot the coded loop resolves |
| `Fetchers.EarlyStopCounterexample` | src/fetcher.c:223-225 | one concrete case |
| `Fetchers.ForfeitsIff` | src/fetcher.c:222-287 | a worker gives up a slot still to be had exactly when stopped early, and by the documented rule never |
| `Fetchers.SpanFloor` | src/fetcher.c:70-91 | however many stale refusals, the width stays at or above half the endpoint's cap |
| `Fetchers.NarrowingsHalve` | src/fetcher.c:70-91 | each effective narrowing at least halves the width, so there are at most log2 of them |
| `Fetchers.SpanSettles` | src/fetcher.c:70-91 | once within the cap the width never changes |
| `Fetchers.RefusalNarrows` | src/fetcher.c:70-91 | a refusal of any width from two up to the span makes the span half that width, rounded down; a wider one is stale and a single slot teaches nothing |
| `Fetchers.RefusedWidthIsNotClaimedAgain` | src/fetcher.c:70-91 | once a width has been refused no later claim on any gap set is as wide, whatever refusals follow |
| `Fetchers.HoleRefusalsHalve` | src/fetcher.c:70-91 | whatever other refusals come in between, each refusal of the claims on one hole halves them or better, so there are at most log2 of their width |
| `Fetchers.HolesComeWithinCap` | src/fetcher.c:70-91 | so after n such refusals, the claims on a hole of any width are within any cap whose 2^n-fold is the first width |
| `Fetchers.ClaimsAreThatWide` | src/gaps.c:203-221 | and those are the widths claimed: the lesser of span and hole |
| `Fetchers.FullWidthRefusalNarrows` | src/fetcher.c:70-91 | until then a refused full-width claim halves it |
| `Fetchers.WorkOutcome` | src/fetcher.c:154-290 | slot by slot, what a worked claim leaves in the gap set: handed on stays claimed, given back is claimable, given up is off every claim |
| `Fetchers.WorkFate` | src/fetcher.c:155-287 | for every answer of the endpoint, which slots of a claim are handed on, given back and given up: each condition stated on the answers alone |
| `Fetchers.OtherClaimsStay` | src/fetcher.c:154-290 | no other claim, and no claimable slot, is lost by it |
| `Fetchers.Pool.constructor` | src/fetcher.c:334-340 | a span of zero selects the default |
| `Fetchers.Pool.NarrowSpan` | src/fetcher.c:70-91 | the shared width as `Narrow`, whose results `RefusalNarrows` gives |
| `Fetchers.Pool.WorkSlot` | src/fetcher.c:227-281 | one listed slot: what was skipped below it, then the slot itself |
| `Fetchers.Pool.WorkRange` | src/fetcher.c:154-290 | performs exactly the actions of `Work` on the gap set and the recovery ring, narrowing on a refusal |
| `Fetchers.Pool.ClaimAndWork` | src/fetcher.c:292-307 | one pass of a worker: it works exactly when something is claimable, on the claim `Claim` grants, and the span changes only by a halving refusal |
| `ProtocolSafety.StepSafe` | src/pipeline.c:211-463 | every step keeps: each promised slot done, outstanding, in hand or between the halves of a release, and everything up to the frontier done, whatever the live slots and the endpoint do, if a watermark is read below every range taken out |
| `ProtocolSafety.UpdateSafeIff` | src/gaps.c:328-345 | a reading keeps that exactly when no promised slot still to be done is between the halves of a release at or below it |
| `ProtocolSafety.NoPromisedSlotIsLost` | src/pipeline.c:1019-1089 | over every run with any crashes and stops, and releases in two halves, whose readings are clear of the ranges taken out: a promised slot below the resume point was committed, had nothing to serve, or was given up unfetched by a stopped worker, even with a stale saved value |
| `ProtocolSafety.WholeReleasesLoseNothing` | src/gaps.c:301-326 | so in every run in which nothing comes between the halves of a release |
| `ProtocolSafety.DroppedSlotsAreRecovered` | src/pipeline.c:211-234 | the same, under the same condition, for live slots the ring dropped |
| `ProtocolSafety.NothingBelowTheResumePointIsLost` | src/pipeline.c:895-948 | nothing at all is missed below the resume point, across restarts, when each run's first live slot joins on to its backfill and readings are clear of releases |
| `ProtocolSafety.FirstLiveJoinsOnIff` | src/pipeline.c:926-945 | taking a first live slot keeps the promise without a hole exactly when it joins on |
| `ProtocolLosses.OneRunCanMissIff` | src/pipeline.c:926-945 | over what was saved, start, tip and first live slot: some run misses a slot at or above `base` below its resume point exactly when the first live slot is above `base` and more than one above the backfill |
| `ProtocolLosses.HoleIsMissed` | src/pipeline.c:895-948 | such a run, first or resumed, with or without a backfill, and the slot it misses |
| `ProtocolLosses.ClaimCanLoseIff` | src/fetcher.c:222-287 | a claim can lose an owed slot below the resume point, in a run where no other claim is stopped early, exactly when it is stopped early |
| `ProtocolLosses.EarlyStopLoses` | src/fetcher.c:222-287 | such a run for every claim stopped early, whether it is all of a backfill or its upper part |
| `ProtocolLosses.NoEarlyStopNoLoss` | src/fetcher.c:222-287 | with no claim stopped early and readings clear of releases no run loses anything but what was forfeited before it |
| `ProtocolLosses.ClaimForfeits` | src/fetcher.c:222-287 | a claim gives up a slot still to be had exactly when it is stopped early |
| `ProtocolLosses.CrashCanLoseIff` | src/gaps.c:301-326 | apart from early stops, a crash can lose a slot in a run with at most n readings that are not clear of a release exactly when n > 0 |
| `ProtocolLosses.SplitReleaseLoses` | src/gaps.c:310-324 | a run whose only breach is one reading at or above the range between the halves of a release: it is saved, the pipeline crashes, and the slot is lost |
| `ProtocolFrontier.FrontierNeverFalls` | src/pipeline.c:236-247 | over every run whose first live slots are the last backfilled slot or later, in which no live slot is resolved inside a claim, no watermark is read at or above a range being released and none goes back onto a claim, successive watermarks never decrease, despite coarsening |
| `ProtocolFrontier.ResumePointNeverFalls` | src/pipeline.c:236-247 | nor, under the same conditions, does what is saved, across any number of saves, crashes and restarts |
| `ProtocolFrontier.WholeReleasesSpare` | src/gaps.c:301-326 | the last two hold in every run in which nothing comes between the halves of a release |
| `ProtocolReleases.RoomyReturnsClear` | src/gaps.c:114-170 | and the last one in every run meeting the first three in which each insertion finds fewer ranges than the limit: only coarsening brings a claim onto a range being released |
| `ProtocolReleases.ReturnKeepsShapeIff` | src/gaps.c:318-325 | putting a range back keeps the ranges sorted and disjoint exactly when it meets no claim |
| `ProtocolFrontier.CommitRaisesWatermark` | src/pipeline.c:342-354 | committing a slot never lowers the watermark |
| `ProtocolFrontier.NoSlotHasTwoOwners` | src/fetcher.c:292-307 | in every run under the four conditions of `FrontierNeverFalls` a slot a worker still has to work is claimed, is that worker's alone, and is not also waiting to be committed |
| `ProtocolFalls.RisingIsRespectful` | src/pipeline.c:211-234 | live slots that are each above everything the run is responsible for leave every claim alone, across any number of restarts |
| `ProtocolFalls.RisingNeverFalls` | src/pipeline.c:236-247 | so they never lower the frontier |
| `ProtocolFalls.FrontierCanFallIff` | src/pipeline.c:236-247 | over what was saved, start, tip and first live slot, with live slots rising from the first and releases spared: some run lowers the watermark exactly when the first is not above the backfill |
| `ProtocolFalls.BackfilledSlotFalls` | src/fetcher.c:244-287 | such a run for every slot of every backfill: committed live while a fetcher holds it, then given back |
| `ProtocolFalls.SparingCanFallIff` | src/pipeline.c:211-247 | if besides no live slot is resolved inside a claim, exactly when the first is below the last backfilled slot |
| `ProtocolFalls.SlotBelowTheTopFalls` | src/pipeline.c:211-234 | such a run: the hole above a live slot that came late is below the frontier |
| `ProtocolFalls.ReadingCanFallIff` | src/gaps.c:310-324 | with the first above the backfill and at most n readings not clear of a release, some run lowers the watermark exactly when n > 0 |
| `ProtocolWindow.NothingPastTheEnd` | src/pipeline.c:186-195 | in every run, whatever fails, crashes or interleaves, nothing past a configured end slot is committed and no ring holds more than its depth |
| `Pipeline.SlotCursor.SetIndexed` | src/slot_cursor.c:31-36 | assigned, also downwards |
| `Pipeline.SlotCursor.Observe` | src/slot_cursor.c:38-45 | the last slot seen only rises |
| `Pipeline.SlotCursor.Resume` | src/slot_cursor.c:47-55 | one past the last indexed slot, or the configured start |
| `Pipeline.BackfillIsTheRest` | src/pipeline.c:926-945 | the backfill is every slot from a real resume point to just below the tip, up to the end slot |
| `Pipeline.QueueBackfill` | src/pipeline.c:895-948 | records exactly that range |
| `Pipeline.Processor.ObserveLiveSlot` | src/pipeline.c:211-234 | computes `ObserveGap` and the new last slot seen |
| `Pipeline.Processor.CommitBlock` | src/pipeline.c:330-358 | commit, resolve and watermark in order; a failing handler changes nothing |
| `Pipeline.Processor.HandleLive` | src/pipeline.c:406-425 | counts the drops before an entry, records the hole it exposes, then commits it; the whole new state |
| `Pipeline.Processor.LookLive` | src/pipeline.c:399-427 | one look at the live ring: an entry handled, a failed handler, nothing yet, or closed and drained |
| `Pipeline.Processor.LookRecovered` | src/pipeline.c:429-447 | one look at the recovery ring: its entries only commit and resolve |
| `Pipeline.LiveEntryIsRun` | src/pipeline.c:399-427 | a live entry handled by the code is a run of four steps of the system |
| `Pipeline.RecoveredEntryIsRun` | src/pipeline.c:429-447 | and a recovered entry too |
| `Pipeline.Processor.RunProcessor` | src/pipeline.c:389-463 | once both rings are closed: live entries, then recovered ones, in order, up to the first handler failure; what is then committed, outstanding and indexed, and the drops counted |
| `HashMaps.EmptyEndsSearch` | src/map.c:85-116 | an empty cell, or running out of probes, proves a key absent |
| `HashMaps.StoreKeepsTable` | src/map.c:178-206 | storing at the first reusable cell keeps every key reachable and adds exactly one |
| `HashMaps.BuryKeepsTable` | src/map.c:226-242 | a tombstone keeps every other key reachable |
| `HashMaps.MaskFindsCells` | src/map.c:91-112 | masking with the capacity less one gives the home cell and the next probe with its wrap |
| `HashMaps.FindSlot` | src/map.c:85-116 | the cell of the key, or the proof of its absence and the first cell on its way that can be reused, every cell before it occupied |
| `HashMaps.HashMap.LoadLeavesRoom` | src/map.c:154-176 | the load limit leaves an empty cell |
| `HashMaps.HashMap.Rehash` | src/map.c:118-152 | the same map in a new table, without tombstones |
| `HashMaps.HashMap.EnsureRoom` | src/map.c:154-176 | room for one more within the load limit: when nothing is done, when the table is rebuilt at its size or at twice, and exactly when growing is refused |
| `HashMaps.HashMap.Put` | src/map.c:178-206 | the finite map updated at one key, refused exactly when a full table cannot be doubled |
| `HashMaps.HashMap.Get` | src/map.c:208-220 | the finite map's lookup |
| `HashMaps.HashMap.Remove` | src/map.c:226-242 | the finite map without one key, and whether it was there |
| `HashMaps.HashMap.Next` | src/map.c:271-291 | the first entry at or after the cursor, or the cursor as it was |
| `HashMaps.HashMap.Keys` | src/map.c:271-291 | iterating to the end visits every key once and nothing else |
| `Base58.AlphabetDigits` | src/base58.c:10-26 | the reverse table inverts the alphabet |
| `Base58.AlphabetIsBitcoins` | src/base58.c:6-12 | the alphabet is the digits and letters in character order, without 0, O, I and l |
| `Base58.BufferHolds` | src/base58.c:68-70 | the buffer bound: 256^n <= 58^(n*138/100 + 1), for all n |
| `Base58.MultiplyAdd` | src/base58.c:101-111 | the carry loop with its early exit multiplies and adds in place, with no carry left at its exit |
| `Base58.Convert` | src/base58.c:99-111 | the outer loop leaves the digits of the same number in the other base |
| `Base58.DecodeEncode` | src/base58.c:83-190 | decode(encode(b)) = b for every byte string |
| `Base58.EncodeDecode` | src/base58.c:83-190 | encode(decode(t)) = t for every text over the alphabet |
| `Base58.EncodingReads` | src/base58.c:83-132 | an encoding is a 1 for each leading zero byte and no more, and then the number the bytes are, in base 58 |
| `Base58.EncodingExample` | src/base58.c:83-132 | bytes 0, 1, 0 are the text 15R |
| `Base58.EncodingFits` | src/base58.c:68-70 | no encoding is longer than the advertised maximum |
| `Base58.DecodingFits` | src/base58.c:79-81 | no decoding is longer than its text |
| `Base58.Encode` | src/base58.c:83-132 | the encoding and a terminator, or an error that writes nothing and names the size needed |
| `Base58.Decode` | src/base58.c:134-190 | the decoding, or the first character outside the alphabet, or the size needed |
| `BarKeys.CompareIsTotalOrder` | src/bar.c:30-48 | execution order is total, equal only on equal places, and respects slots |
| `BarKeys.CompareIsExecutionOrder` | src/bar.c:30-48 | slot, then transaction, then instruction, an outer instruction before its inner ones, then inner index |
| `BarKeys.PackPreservesOrder` | src/bar.c:50-62 | comparing packed keys bytewise is comparing places |
| `BarKeys.PackInjective` | src/bar.c:50-62 | two places never share a key |
| `BarKeys.PackBytes` | src/bar.c:50-62 | the fifteen bytes of a key, one by one |
| `BarKeys.PackInto` | src/bar.c:50-62 | the shifts write exactly the bytes of `Pack` |
| `BarKeys.PackKeyInjective` | src/bar.c:106-115 | no two bars share a registry key |
| `BarKeys.PackKeyBytes` | src/bar.c:106-115 | the forty-one bytes of a registry key: pool, interval, and the signed bucket, lowest byte first |
| `Bars.UpdateIsMerge` | src/bar.c:128-148 | folding a swap in is merging with the bar of that swap alone: the two implementations agree |
| `Bars.VolumesScale` | src/bar.c:173-180 | each volume times ten to the decimals of its own side is the amount |
| `Bars.MergeAssociative` | src/pg_store.c:275-297 | the conflict clause is associative |
| `Bars.MergeCommutative` | src/pg_store.c:275-297 | and commutative on distinct places |
| `BarStores.LastWriteQuotes` | src/pg_store.c:275-297 | the quote of a merged row is that of the row written last |
| `Bars.FoldIsOhlcv` | src/bar.c:118-180 | open and close are the prices at the least and greatest places, the first to arrive on ties; high and low the extremes; volumes the sums of the amounts in whole units, each by its own side's decimals; the quote that of the first swap; and a bar exists exactly when a swap does |
| `Bars.FoldPermutation` | src/bar.c:118-207 | any arrival order gives the same bar |
| `Bars.MergeOfFolds` | src/pg_store.c:275-297 | merging two folds is folding the concatenation |
| `Bars.MergeIsUnion` | src/pg_store.c:275-297 | and so folding the union in any order |
| `Bars.SixtySecondsMakeAMinute` | src/bar.c:94-97 | merging the sixty one-second bars of a minute gives its one-minute bar |
| `BarRegistry.ObserveExtends` | src/bar.c:187-207 | observing a swap extends the derived registry by it |
| `BarRegistry.SwapReachesTwoBars` | src/bar.c:182-207 | a swap with a price and a positive time changes the bar of its second and that of its minute and no other; any other swap changes none |
| `BarRegistry.BarReachesSlotIff` | src/bar.c:264-286 | a bar holds a swap at or above a slot exactly when its close is there |
| `BarRegistry.RecomputeIsFreshDerivation` | src/bar.c:251-326 | the recomputed registry is the one derived from the swaps below the reorg; survivors of untouched buckets are not counted twice |
| `BarRegistry.Registry.ObserveInterval` | src/bar.c:118-170 | the field-by-field update computes the fold step, of which `FoldIsOhlcv` and `VolumesScale` say what it adds up to |
| `BarRegistry.Registry.ObserveOne` | src/bar.c:187-207 | both intervals, or nothing for an unpriced or untimed swap |
| `BarRegistry.Registry.RecomputeRange` | src/bar.c:251-326 | the two passes compute `Recompute` and count the bars dropped |
| `Stores.KeptMembers` | src/store.c:275-300 | the rows kept are exactly those `Keeps` selects |
| `Stores.KeptBySlot` | src/store.c:42-69 | field by field: a plain row is kept by its slot, a bar by the slot of its close, strictly below the pivot on one side and from it on on the other |
| `Stores.KeptSplits` | src/store.c:275-300 | the two sides together are the rows there were, each as often |
| `Stores.KeptInOrder` | src/store.c:278-295 | and in the order they were in |
| `Stores.DoubledIsFirst` | src/vec.c:36-44 | the capacity is the first doubling that holds what is needed, or what is needed where doubling would pass the size type |
| `Stores.DoubledBounds` | src/vec.c:36-44 | growing makes room, never shrinks and at most doubles what is needed |
| `Stores.Vec.RefusedOnlyWhenHuge` | src/vec.c:31-49 | with memory to be had, growing is refused only where 64 bits cannot address it |
| `Stores.Vec.Reserve` | src/vec.c:23-60 | room for more, refused exactly when the vector has to grow and the size or the memory does not allow it; contents unchanged either way |
| `Stores.Vec.PushAll` | src/store.c:265-271 | pushing into reserved room cannot fail |
| `Stores.Vec.Retain` | src/store.c:278-295 | compaction in place keeps the right rows in order |
| `Stores.MemRows.ReserveAll` | src/store.c:262-264 | room in all eight vectors, or every row where it was; granted exactly when each vector can take its rows |
| `Stores.MemRows.Append` | src/store.c:255-273 | all the rows of a write set, or none, exactly when room cannot be made |
| `Stores.MemRows.Retain` | src/store.c:278-295 | all eight vectors compacted |
| `Stores.MemRows.Reorg` | src/store.c:362-378 | rows at or above the slot replaced, by their own slot or that of their close; or, exactly when room cannot be made for the replacement, every row unchanged |
| `Stores.MemRows.Prune` | src/store.c:380-385 | rows below the slot dropped, by their own slot or that of their close |
| `BarStores.KeptHoldsUnaffected` | src/store.c:63-68 | deleting by close slot leaves exactly the bars the reorg did not affect |
| `BarStores.ReorgKeepsStoreAndRegistryTogether` | src/store.c:362-378 | a store holding exactly the registry's bars, reorged with the rebuilt ones, does so again |
| `BarStores.TableReorgIsRecompute` | src/pg_store.c:672-702 | the merging table, reorged, is the recomputed registry |
| `BarStores.TableReorgIsFreshDerivation` | src/pg_store.c:672-702 | and so derived from the swaps below the reorg |
| `BarStores.WritesAddUp` | src/pg_store.c:626-670 | a table derived from some swaps, given the bars of others, is derived from all of them |
| `BarStores.AppendAgreesIff` | src/store.c:357-360 | appending bars agrees with merging them exactly when no key is already stored |
| `BarStores.CloseSlotIsGreatest` | src/pg_store.c:295-296 | the slot column kept on its own stays the slot of the close |
| `BarStores.PgBars.Put` | src/pg_store.c:602-624 | one insert or merge, when the database takes it |
| `BarStores.PgBars.StoreWrite` | src/pg_store.c:660-670 | all the bars merged in, exactly when every statement and the commit are answered well, or none |
| `BarStores.PgBars.StoreReorg` | src/pg_store.c:678-702 | delete and replace as one transaction, rolled back exactly when some statement or the commit fails |
| `Bits.PowerOfTwoIff` | src/arena.c:26-28 | the mask test holds exactly of powers of two |
| `Bits.MaskIsRemainder` | src/map.c:91-92 | masking with a power of two less one is the remainder |
| `Bits.PaddingAligns` | src/arena.c:35-39 | the padding aligns and is less than the alignment, even where the rounded address wraps |
| `Arenas.NewChunkFits` | src/arena.c:49-61 | a new chunk holds the request wherever it starts |
| `Arenas.CapacityIsNeeded` | src/arena.c:49-61 | the capacity of a new chunk is the larger of size + align - 1 and the chunk size; there is one exactly when it and the header stay within 64 bits |
| `Arenas.FitsIff` | src/arena.c:35-47 | the test for room holds exactly when some aligned place in the chunk's rest holds the request, and the padding leads to the lowest |
| `Arenas.AllocGrantedIff` | src/arena.c:81-132 | in plain arithmetic: exactly when a request is granted, and which of the three errors it meets otherwise |
| `Arenas.GrantedInPlace` | src/arena.c:92-107 | a request some chunk has room for gets the lowest aligned place of the first such chunk, and changes nothing else |
| `Arenas.GrantedInNewChunk` | src/arena.c:109-132 | any other starts a new chunk at the tail, of the capacity `CapacityIsNeeded` gives, and leaves the others as they are |
| `Arenas.AllocKeeps` | src/arena.c:81-132 | an allocation keeps the counters, the empty tail and every earlier grant; a refused one changes nothing |
| `Arenas.RoundIsLawful` | src/arena.c:81-132 | everything granted since a reset is aligned, inside its chunk and pairwise disjoint |
| `Arenas.GrantsShareNoByte` | src/arena.c:81-132 | so no byte of memory belongs to two grants |
| `Arenas.ResetKeepsValid` | src/arena.c:166-176 | a reset keeps every chunk and what is reserved |
| `Arenas.SteadyState` | src/arena.c:95-132 | a round of requests that was granted is granted again after a reset, at the same places, without `malloc` |
| `Arenas.Arena.FindFit` | src/arena.c:92-107 | the walk finds the first chunk that fits |
| `Arenas.Arena.AddChunk` | src/arena.c:49-79 | a chunk of the needed capacity linked in at the tail, or the right error and nothing changed |
| `Arenas.Arena.AllocAligned` | src/arena.c:81-132 | computes `Alloc`, granted exactly as `AllocGrantedIff` says; the pointer is aligned and every grant since the reset stays lawful |
| `Arenas.Arena.ResetAll` | src/arena.c:166-176 | computes `Reset` |
| `Routes.LegsTally` | src/swap.c:491-525 | the table gives up exactly past 24 mints; short of that it holds each mint once with its totals modulo 2^64 |
| `Routes.TableIsExactIff` | src/swap.c:519-523 | the totals are the true ones exactly when none reaches 2^64 |
| `Routes.NetsAreExactIff` | src/swap.c:519-553 | the differences are the true nets exactly when both totals of each mint wrap equally often |
| `Routes.WrappedTotalHidesTrade` | src/swap.c:519-523 | a trade that yields no row because a total wrapped |
| `Routes.LeaderIsFirstLargest` | src/swap.c:538-557 | the scan finds the first of the largest surpluses |
| `Routes.RowIsLargestNets` | src/swap.c:533-585 | where totals wrap evenly a row exists exactly when something was consumed and something delivered on net, and names the largest of each |
| `Routes.RouteFromSourceToSink` | src/swap.c:527-585 | when every other mint passes through and totals wrap evenly, the row is exactly the trade from source to sink |
| `Routes.CancellingRouteHasNoRow` | src/swap.c:527-532 | a route that fully cancels, its totals wrapping evenly, yields no row |
| `Routes.ChainNets` | src/swap.c:491-585 | between the ends of a chain of legs, each taking in exactly what the one before paid out, every mint cancels |
| `Routes.ChainIsOneTrade` | src/swap.c:527-585 | so the row of a chain, its totals wrapping evenly, is the first leg's input against the last leg's output, and none when it ends where it began or an end is zero |
| `Routes.RowIgnoresOrder` | src/swap.c:491-585 | the legs of a route whose totals wrap evenly may come in any order: same amounts, and same mints where no two tie |
| `Routes.Builder.AddToTable` | src/swap.c:503-523 | finds or opens a mint's entry and adds one side to it |
| `Routes.Builder.AddRouteLeg` | src/swap.c:491-525 | computes `AddLeg`, stopping mid-leg at a full table |
| `Routes.Builder.FlushRoute` | src/swap.c:533-585 | appends the row of `Route`, if there is one and room for it |

## Left out

- RunProcessor: models the processing loop only once both rings are closed; while they are open its turns between live and recovered entries are steps of `Protocol`.
- ReserveOne: allocation is assumed to succeed, here and in every operation on the gap set.
- InsertInPlace: does not model the out-of-memory return.
- AddRange: does not model the out-of-memory return.
- ClaimSpan: does not model the claim that is put off because a range cannot be split for lack of memory.
- CutAt: does not model the branch that drops part of a range it cannot split for lack of memory (`src/gaps.c:277-287`).
- ResolveRange: does not model that branch either.
- ReleaseRange: runs its three critical sections with nothing in between; the step system has its two changes apart.
- Publish: one pass under the lock; waiting and being woken are the caller trying again.
- Consume: the timed wait is already over.
- OpenRing: does not model the failing allocation.
- NoPromisedSlotIsLost: a run with no configured start and nothing saved promises only what it has seen live, as the code does.
- Rehash: allocation is assumed to succeed.
- EnsureRoom: allocation is assumed to succeed.
- Put: allocation is assumed to succeed; the decrement of the tombstone count before a key copy that may fail (`src/map.c:196-200`) is not modelled, nor are inline and heap keys.
- ObserveInterval: allocation is assumed to succeed; prices and volumes are exact reals, since addition of doubles is not associative; each pool has one quote and places are distinct, as the lemmas require.
- ObserveOne: so is it between the two intervals.
- RecomputeRange: and while bars are rebuilt.
- AllocAligned: the address `malloc` answers with is a parameter, apart from the blocks already held; byte counters do not wrap.
- Decode: `idx_base58_decode_exact`, the scratch buffer and its failure to be allocated are left out.
- FlushRoute: the row carries the two mints and amounts; the trader, the decimals and the instruction index are left out.
- StoreWrite: of the tables only the bars are modelled; a commit that fails is taken to leave the table as it was.
- StoreReorg: likewise, and a rollback is the saved table restored.
- The cursor file's format, its rename and fsync: a save is one atomic write of one value.
- Network, databases, JSON, configuration, logging and the command line: `getBlocks` and `getBlock` are oracles, and `getBlocks` lists ascending slots.
- Instruction and venue decoders, block and type parsing: wide switches that a single branch settles.
- The ClickHouse store, base64, prices, balances and the registries other than bars: they would add only easy members.
- Reading the watermark and assigning it to the cursor are one step, as is everything a start does before its threads run.
- Timeouts, sleeping, signals, condition variables, and counters kept only for monitoring.
- Sequence numbers of the ring and other counters are unbounded where 64 bits cannot be exhausted.
- Hash quality: the hash is any function.
