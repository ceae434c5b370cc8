# A verified model of the LSM vector index

This project models the algorithms and protocols at the core of the vector index under
`postgresqlv/src` and proves what they keep, for every input and every interleaving. It has one module
for each component:

| module | models |
|---|---|
| `MemtableLifecycle` | memtables on the primary: reserve, publish, seal, rotate, enqueue, claim, flush, hand off, recycle, racing with searches and vacuum |
| `SlotPublishing` | one memtable incarnation at the level of single atomic accesses: reservation, publication, `max_ready_id`, `wait_for_publish` |
| `TopK` | memtable search, chained truncated merges, the final merge without repetitions |
| `SegmentPool` | the array-backed doubly linked list of flushed segments, its statistics and reference counts |
| `Adoption` | deciding what an offered segment displaces, and installing it |
| `AdoptionUnion` | carrying deletions from displaced segments and memtables into the new segment |
| `MemtableCover` | scanning the cover, copying its deletions, dropping it from the memtable list |
| `ReplayRace` | one tombstone replay racing one adoption, with locks |
| `Tombstones` | the two-pointer walk, offset tables, bisection, counting set bits |
| `VacuumReplay` | what the primary records of a vacuum and what the standby makes of it |
| `SegmentFiles` | segment files on disk, the directory scan, crashes |
| `Recovery` | recovery steps 1 and 2 |
| `StatusPages` | page chains and the free list that record the rows of each memtable |
| `Elkan` | Elkan's k-means |
| `HnswPruning`, `HnswSearch` | neighbor selection with cached flags; best-first search on a layer |
| `FiniteSets` | counting helpers |

Concurrent parts are step relations over any number of threads with program counters, where one step is
one atomic operation or one section under a lock; results are about every state of every run. Code that
works in place is methods over arrays and class fields, proved against specifications that are
themselves the subject of lemmas. Ghost fields say which list or chain the links spell out.

`dafny verify dfyconfig.toml` checks everything.

## Where the code falls short

Each of these is kept as the code has it, with the exact condition under which it does what it should.

- Merging puts the larger segment's offsets first (`vector_index_worker.c:1567-1575`), but replay looks
  sids up by bisection (`segment_vacuum_redo.c:195-212`). If the larger segment is the later one, sids
  are in the table and not found: `Tombstones.BisectFindsAllIff`, `MergedAscendsIff`,
  `LargerSecondIsMissed`. What a replay then loses is exactly `VacuumReplay.ReplayVacuum`;
  `VacuumReplay.LostDeletion` runs a vacuum and its replay on such a segment, and the deletion never
  arrives.
- A merge takes neighbors in the list whether or not their sids adjoin (`vector_index_worker.c:868-890`).
  Its table has one entry for each sid of the merged range (`1524-1526`), so a gap leaves zero entries at
  its end, and bisection takes sid 0 to lie before everything. All sids are found exactly if the larger
  segment comes first and the gap is none or a length that repeatedly halving the table's leaves:
  `Tombstones.TrailingPaddingIff`, `MergedIsSearchableIff`, `GapHidesSid`.
- An adoption that finds exactly its range in the pool carries over the displaced segment's deletions but
  not those captured from cover memtables (`segment_adoption.c:599-603`), and the fetcher then releases
  these memtables (`segment_fetcher.c:826-841`). A deletion only a memtable knew is dropped, in that
  case and no other: `AdoptionUnion.CarryDeletions`, `DroppedDeletion`.
- The tile walk of an adoption checks that no segment reaches beyond the right end of the offered range
  (`segment_adoption.c:456`), but not beyond the left. A segment that does is displaced and its sids
  before the range are lost: `Adoption.OutsideKeptIff`, `OverhangCanBeDisplaced`, `LoseSid`. Ranges
  of one merge history do not do that: `LaminarHasNoLeftOverhang`.
- The directory scan takes every name that begins like a metadata file for one
  (`lsmindex_io.c:530-547`). A flush names its temporary metadata differently, but the fetcher appends
  `.tmp` (`segment_fetcher.c:251`), so a crash between creating and renaming it leaves a segment in the
  scan that has no metadata: `SegmentFiles.CrashedPullIsHiddenIff`, `CrashedPullCanShow`.
- A memtable flushed only after its neighbors were merged across it is hidden from scans, and registering
  it makes the live list differ from the scan: `SegmentFiles.FlushIsHiddenIff`, `FlushFitsIff`, and the
  run of `LateFlushIsLost`. The claiming of memtables (`lsmbackground.c:22-56`) is written for several
  flush workers, and with several this happens; that it happens with the one worker `vector.c:223`
  registers is not claimed.
- After a replay the worker adds the file's bits to memory but replaces the delete count by the file's
  (`vector_index_worker.c:414-416`). Deletions that an adoption carried over only in memory are then no
  longer counted: `VacuumReplay.RefreshBitmap`, `RefreshCanUndercount`.
- Rebuild and merge add the new segment to the pool statistics a second time
  (`vector_index_worker.c:1347-1352`, `1655-1663`). Each statistic is too high by the number of such
  segments it counts, and exact exactly if there are none: `SegmentPool.Pool.ReplaceAndRecount`,
  `ExactIff`.
- `flushed_segment_count` is reduced for a replaced segment both on replacement and on cleanup
  (`lsm_segment.c:201`, `495`). It is the length of the list less the number of replaced segments freed
  so far, which `SegmentPool.Pool.Valid` says of every pool. `Adoption.MergeOfTwo` shows both: after
  one merge, one segment is linked, the count is -1 and two statistics are 2.
- Sealed memtables are searched without looking at ready flags. `lsmindex.c:1853` asserts that as many
  rows are ready as valid, but nothing waits for it, so rows still being published can be returned: `TopK.UncheckedSeesPublishedIff`, `MemtableLifecycle.ScanSeesPublishedIff`, and the run of
  `MemtableLifecycle.UnpublishedRowIsSeen`.
- `max_ready_id` can lag for good, which only costs time: `SlotPublishing.LagHappens`, `LagsForever`,
  `QuiescentMax`.
- The indexed and the two-pointer replay differ when a row id is repeated in an unlucky order:
  `VacuumReplay.PathsAgreeIffUnambiguous`, `PathsCanDiffer`.

## Model

| member | source | states |
|---|---|---|
| `Elkan.FarCenterLoses` | postgresqlv/src/ivfkmeans.c:404-423 | A center at least twice the upper bound away from the assigned one is never closer to the sample: the triangle-inequality step behind both skips. |
| `Elkan.FillDistances` | postgresqlv/src/ivfkmeans.c:50-60 | Seeding leaves the exact distance of every sample to every initial center in the lower-bound table. |
| `Elkan.AssignInitial` | postgresqlv/src/ivfkmeans.c:332-353 | Every sample starts at a nearest center, and its upper bound is the exact distance to it. |
| `Elkan.HalfDistances` | postgresqlv/src/ivfkmeans.c:364-396 | Step 1: off the diagonal the table holds exactly half the distance between two centers, and s(c) is at or below all of its row. |
| `Elkan.ReassignSample` | postgresqlv/src/ivfkmeans.c:402-459 | Steps 2 and 3 for one sample, with every skip: it ends at a nearest of all centers, bounds stay on their side of the true distances, other samples are untouched, and `changes` is 0 exactly if the assignment is the old one. |
| `Elkan.Reassign` | postgresqlv/src/ivfkmeans.c:398-460 | After Step 3 every sample is at a nearest center, and `changes` is 0 exactly if no assignment differs. |
| `Elkan.SlideLower` | postgresqlv/src/ivfkmeans.c:469-480 | Lowering a bound by how far its center moved keeps it at or below the distance to the moved center. |
| `Elkan.SlideUpper` | postgresqlv/src/ivfkmeans.c:482-485 | Raising a bound by how far its center moved keeps it at or above the distance to the moved center. |
| `Elkan.SlideLowerBounds` | postgresqlv/src/ivfkmeans.c:469-480 | Step 5: if all lower bounds hold for the old centers and are reduced by the distances moved, down to zero, they hold for the new ones. |
| `Elkan.SlideUpperBounds` | postgresqlv/src/ivfkmeans.c:482-485 | Step 6: upper bounds raised by the distance the assigned center moved hold for the new centers. |
| `Elkan.SlideBounds` | postgresqlv/src/ivfkmeans.c:465-485 | Steps 5 and 6: for any movement of the centers all bounds hold again for the new ones. |
| `Elkan.Iterate` | postgresqlv/src/ivfkmeans.c:356-489 | One pruned iteration assigns every sample to a nearest center and leaves valid bounds for the recomputed centers. |
| `Elkan.ElkanKmeans` | postgresqlv/src/ivfkmeans.c:329-494 | For any metric and any recomputation of centers the whole pruned run is a run of brute-force Lloyd iteration; it ends exactly when an assignment repeats, or after 500 rounds. |
| `HnswPruning.SortIsDescending` | postgresqlv/src/hnswutils.c:1005-1024 | Sorting candidates by descending distance, ties by element, gives a strict order and keeps the members. |
| `HnswPruning.DescendingIsUnique` | postgresqlv/src/hnswutils.c:978-1024 | The tie-breakers make the order deterministic: two descending lists with the same members are equal. |
| `HnswPruning.SettleFlag` | postgresqlv/src/hnswutils.c:1086-1125 | The flag settled from the cache is the one that comparing with all kept candidates would give, and what `added` and `removedAny` say about the difference to the previous selection stays true. |
| `HnswPruning.Consume` | postgresqlv/src/hnswutils.c:1079-1135 | The main loop keeps and drops the same candidates as recomputing every flag, stops where that would stop, and leaves the recomputed flags. |
| `HnswPruning.KeepPruned` | postgresqlv/src/hnswutils.c:1140-1142 | Fills up with the first dropped candidates, as many as are needed and there are. |
| `HnswPruning.SelectNeighbors` | postgresqlv/src/hnswutils.c:1026-1154 | Candidates are taken nearest first (ties by element) if sorting is asked for. One is kept exactly if each one kept before it is farther from it than the query is; taking stops with the `lm`th kept; the neighbors are the kept ones, topped up with those dropped first, and the pruned one is the next dropped or, if there is none, the first of the list. With a valid cache the flags of all consumed candidates are those recomputation gives; a short list is returned as it is with nothing pruned. |
| `HnswPruning.SelectionIsUnique` | postgresqlv/src/hnswutils.c:1053-1154 | This rule leaves one outcome: neighbors (in order) and pruned candidate are determined by the order of the candidates. |
| `HnswPruning.SortThenLeaveOut` | postgresqlv/src/hnswutils.c:1070-1077 | Sorting with a candidate and leaving it out again is sorting without it. |
| `HnswPruning.CurrentFlagsAreCache` | postgresqlv/src/hnswutils.c:1086-1125 | Flags that are right for the list without the new candidate are a valid cache for the list with it. |
| `HnswPruning.DroppingKeepsFlags` | postgresqlv/src/hnswutils.c:1137-1151 | Leaving out a candidate that was not kept changes neither what is kept nor anybody's flag. |
| `HnswPruning.FlagsAfterSelection` | postgresqlv/src/hnswutils.c:1137-1151 | After selecting from one candidate too many, all flags are right for the list without the pruned one. |
| `HnswPruning.OfferKeepsCache` | postgresqlv/src/hnswutils.c:1193-1199 | A neighbor array with right flags offers a valid cache to the selection that includes a new element. |
| `HnswPruning.UpdatedAt` | postgresqlv/src/hnswutils.c:1205-1218 | Overwriting the pruned entry exchanges exactly the pruned candidate for the new one; if the new one was pruned the array stays. |
| `HnswPruning.NeighborArray.FindItem` | postgresqlv/src/hnswutils.c:1205-1208 | The first entry with the pruned element. |
| `HnswPruning.NeighborArray.UpdateConnection` | postgresqlv/src/hnswutils.c:1172-1220 | A full array gives up what that rule prunes from its candidates and the new one: the new element stands in its place, or nothing changes if it is the one pruned; an array with room is appended to. The flag invariant holds again, so it holds after any sequence of updates; `updateIdx` says which entry changed. |
| `HnswPruning.NeighborArray.Overwrite` | postgresqlv/src/hnswutils.c:1205-1218 | The pruned entry is replaced and the flags are right for the array that results. |
| `HnswSearch.LoadUnvisited` | postgresqlv/src/hnswutils.c:722-745 | Exactly the neighbors not visited before are returned, each once, and all neighbors are visited afterwards. |
| `HnswSearch.Consider` | postgresqlv/src/hnswutils.c:897-964 | For one unvisited element, W stays the nearest eligible elements among all seen, at most ef, although `wlen` is not decremented. |
| `HnswSearch.ConsiderAll` | postgresqlv/src/hnswutils.c:897-964 | The same for all unvisited neighbors, and every result is expanded or still a candidate. |
| `HnswSearch.ExpandNearest` | postgresqlv/src/hnswutils.c:877-965 | One turn of the loop keeps the invariant and either stops with all results expanded or has visited more or consumed a candidate, so the search ends. |
| `HnswSearch.Drain` | postgresqlv/src/hnswutils.c:967-975 | The result lists W, farthest first. |
| `HnswSearch.SearchLayer` | postgresqlv/src/hnswutils.c:813-976 | The search ends, and its result is the ef nearest of all visited eligible elements, farthest first, all of them expanded. |
| `HnswSearch.ResultIsLocallyBest` | postgresqlv/src/hnswutils.c:877-976 | No eligible neighbor of a result that is not itself returned is closer than the farthest result of a full list. |
| `MemtableLifecycle.InitInv` | postgresqlv/src/lsmindex.c:439-496 | The invariant holds for one freshly registered growing memtable. |
| `MemtableLifecycle.InsertKeepsInv` | postgresqlv/src/lsmindex.c:1710-1761 | Each atomic step of an insert (reserve, seal, publish) keeps the invariant, whatever all other threads are doing. |
| `MemtableLifecycle.RotateKeepsInv` | postgresqlv/src/lsmindex.c:1612-1663 | Each step of a rotation (claim, allocate, register, enqueue, install) keeps it. |
| `MemtableLifecycle.FlushKeepsInv` | postgresqlv/src/lsmbackground.c:188-256 | Each step of a flush (claim, wait, into the pool, hand off, release) keeps it. |
| `MemtableLifecycle.SearchKeepsInv` | postgresqlv/src/lsmindex.c:2024-2132 | Each step of a search or vacuum, including the error exit, keeps it. |
| `MemtableLifecycle.RunKeepsInv` | postgresqlv/src/lsmindex.c:1593-1766 | So it holds at every point of every interleaving of any number of threads. |
| `MemtableLifecycle.NothingBetweenPlaces` | postgresqlv/src/lsmindex.c:1654-1662 | While the growing index is a slot, every memtable that is neither flushed nor fresh is the growing one or in the queue: no snapshot can fall between. |
| `MemtableLifecycle.SnapshotIsComplete` | postgresqlv/src/lsmindex.c:2024-2049 | At a snapshot every published row is in the pool or in a memtable the snapshot holds. |
| `MemtableLifecycle.NoRowIsLost` | postgresqlv/src/lsmbackground.c:188-256 | In every reachable state each published row is in the pool or in a growing, retiring or queued memtable. |
| `MemtableLifecycle.DueIsFixed` | postgresqlv/src/lsmindex.c:2039-2049 | What a search must find stays what was published at its snapshot. |
| `MemtableLifecycle.SearchFindsEverything` | postgresqlv/src/lsmindex.c:2000-2116 | When a search returns it has seen every row published before its snapshot, whatever inserts, rotations, flushes and recycling did meanwhile: only a search that has scanned all its memtables and merged the segment results goes back to idle. |
| `MemtableLifecycle.SearchFindsNothingElse` | postgresqlv/src/lsmindex.c:2000-2116 | At no point has a search seen anything but rows published by then and rows that had been reserved, when it took its snapshot, in a sealed memtable queued there. |
| `MemtableLifecycle.OnlyTheseWait` | postgresqlv/src/lsmindex.c:1593-1766 | In every reachable state every thread can take a step, unless it waits for a rotation to end, for others to leave the shared section of a reservation, for a free slot or a place in the queue, or for rows to be published. |
| `MemtableLifecycle.WorkCanBegin` | postgresqlv/src/lsmindex.c:2024-2049 | A search while the growing index is a slot, a vacuum of a listed memtable and the flush of an unclaimed one can always begin. |
| `MemtableLifecycle.EnqueuedExactlyOnce` | postgresqlv/src/lsmindex.c:1593-1663 | Memtable ids enter the queue in ascending order, each once; an id handed out that has not entered it belongs to a slot that is growing, retiring or fresh, and to no enqueued one. |
| `MemtableLifecycle.RefsAreExact` | postgresqlv/src/lsmindex.c:440-457 | A slot's reference count is the base reference while the slot is in use plus one for each search or vacuum that holds it. |
| `MemtableLifecycle.HeldIsNotRecycled` | postgresqlv/src/lsmbackground.c:179-186 | No step gives a held slot another memtable or takes a ready row from it. |
| `MemtableLifecycle.AllCounted` | postgresqlv/src/lsmbackground.c:67-79 | As many rows counted ready as are valid means that each valid row has been counted. |
| `MemtableLifecycle.RunNeverErrs` | postgresqlv/src/lsmbackground.c:62-176 | The errors the flush worker would stop on (not sealed, more ready than valid rows, not in the queue) never occur. |
| `MemtableLifecycle.NextKeepsInv` | postgresqlv/src/lsmindex.c:1593-1766 | Any step of any thread keeps the invariant. |
| `MemtableLifecycle.ScanSeesPublishedIff` | postgresqlv/src/lsmindex.c:1960-1983 | In every reachable state, what a scan of all reserved rows of a live memtable sees is what is published exactly if as many rows are ready as are valid; so it is if the ready count equals the valid count, and only then if every ready row has been counted. |
| `MemtableLifecycle.UnpublishedRowIsSeen` | postgresqlv/src/lsmindex.c:2024-2102 | A run in which a memtable is sealed and queued between a reservation and its publication, and a search finds the row unpublished. |
| `SlotPublishing.RunKeepsInv` | postgresqlv/src/lsmindex.h:362-401 | Counters, flags, reservations and `max_ready_id` agree at every point of every run of one memtable incarnation. |
| `SlotPublishing.RowsAreExclusive` | postgresqlv/src/lsmindex.c:1557-1572 | Threads that are publishing work on different rows, all below capacity. |
| `SlotPublishing.HandedOutOnce` | postgresqlv/src/lsmindex.c:1557-1572 | An index belongs for good to the thread that got it, ready rows stay ready, and a sealed memtable stays sealed. |
| `SlotPublishing.WaitNeverErrs` | postgresqlv/src/lsmbackground.c:62-87 | Waiting on a sealed memtable never sees more ready rows than valid ones. |
| `SlotPublishing.WaitIsFinal` | postgresqlv/src/lsmbackground.c:62-87 | When the wait returns every valid row is published, and from then on no reservation succeeds. |
| `SlotPublishing.MaxReadyIsSafe` | postgresqlv/src/lsmindex.h:372-401 | Under any interleaving of publishers and retried swaps `max_ready_id` only grows, and every row at or below it is ready. |
| `SlotPublishing.LagsForever` | postgresqlv/src/lsmindex.h:385-400 | Once the publisher of its successor row has come and gone `max_ready_id` never moves again. |
| `SlotPublishing.QuiescentMax` | postgresqlv/src/lsmindex.h:372-401 | With nobody in flight all rows are ready, and `max_ready_id` is at the last one exactly if no row follows it; otherwise it is stuck. |
| `SlotPublishing.NoLagWithoutOverlap` | postgresqlv/src/lsmindex.h:372-401 | On every run in which no thread gets a row before another is done with its own, `max_ready_id` is the last row whenever nobody has one. |
| `SlotPublishing.OverfullIsSealed` | postgresqlv/src/lsmindex.c:1555-1572 | Once an index beyond capacity has been handed out, the memtable is sealed or the thread that got it is about to seal it, which is its next step. |
| `SlotPublishing.NobodyBlocks` | postgresqlv/src/lsmindex.h:355-401 | No thread waits for another inside a reservation, a publication or a poll: each can always take its next step. |
| `SlotPublishing.LagHappens` | postgresqlv/src/lsmindex.h:372-401 | A concrete run in which two rows are published in the opposite order and `max_ready_id` stays at the first for good. |
| `Tombstones.MarksEmbed` | postgresqlv/src/segment_vacuum_redo.c:351-363 | The walk's marks are an order-preserving placement of the entries it matched. |
| `Tombstones.WalkIsEarliest` | postgresqlv/src/segment_vacuum_redo.c:351-363 | No placement puts an entry earlier than the walk does. |
| `Tombstones.LongestPrefix` | postgresqlv/src/segment_vacuum_redo.c:351-363 | For any inputs the first n entries can be placed in the slice exactly if n is at most the number the walk matches. |
| `Tombstones.AllMarkedIffEmbeds` | postgresqlv/src/segment_adoption.c:188-206 | The walk marks all entries exactly if the whole list can be placed. |
| `Tombstones.MarkedIffListed` | postgresqlv/src/segment_adoption.c:188-206 | With distinct row ids and a list that can be placed, the marked rows are exactly the listed ones. |
| `Tombstones.MarkSlice` | postgresqlv/src/segment_vacuum_redo.c:349-367 | The two-pointer loop sets exactly the marked bits, keeps all others, and counts the bits that flipped. |
| `Tombstones.CountAfterSet` | postgresqlv/src/segment_vacuum_redo.c:356-360 | Setting a clear bit raises the number of set bits by one. |
| `Tombstones.MoreSet` | postgresqlv/src/lsmindex.c:984-998 | A bitmap with more bits set has the larger count, and an equal count only if it is the same bitmap. |
| `Tombstones.OffsetIndexForSid` | postgresqlv/src/segment_vacuum_redo.c:195-212 | The bisection loop returns what bisection of the table gives, hit or miss. |
| `Tombstones.BisectFindsAllIff` | postgresqlv/src/segment_vacuum_redo.c:195-212 | For any table whatever: bisection finds every sid exactly if the sids ascend and its way to none of them leads past a zero entry on the right. |
| `Tombstones.TrailingPaddingIff` | postgresqlv/src/segment_vacuum_redo.c:195-212 | Zero entries at the end of a table are out of the way exactly if their number is one that repeatedly halving the table's length leaves. |
| `Tombstones.MergedOffsetsOk` | postgresqlv/src/vector_index_worker.c:1522-1575 | Merging two segments, with zero entries for the sids between them and whatever zero entries they had, keeps the slices disjoint, in row order and complete. |
| `Tombstones.MergedAscendsIff` | postgresqlv/src/vector_index_worker.c:1522-1575 | The sids of the merged table ascend exactly if those of both tables do and the larger segment is also the first in sid order. |
| `Tombstones.MergedIsSearchableIff` | postgresqlv/src/vector_index_worker.c:1522-1575 | Bisection finds all sids of two merged segments, each without gaps, exactly if they ascend, the larger segment is the first, and the gap between them is as long as halving the merged length leaves, such as none. |
| `Tombstones.LargerSecondIsMissed` | postgresqlv/src/vector_index_worker.c:1522-1575 | Sids 3 and 4 with the larger segment holding sid 4: sid 3 is in the merged table and bisection misses it. |
| `Tombstones.GapHidesSid` | postgresqlv/src/vector_index_worker.c:1522-1575 | Sids 3 to 4 merged with 7 to 8, in sid order: sid 8 is in the table of six entries and bisection misses it. |
| `Tombstones.FindOffset` | postgresqlv/src/segment_adoption.c:113-115 | The first table entry of a sid, or none. |
| `AdoptionUnion.MergeSlice` | postgresqlv/src/segment_adoption.c:124-142 | Walking an old and a new slice in lockstep carries a bit over for exactly the new rows that some masked old row supplies, and counts the bits that flipped. |
| `AdoptionUnion.SuppliedIffMasked` | postgresqlv/src/segment_adoption.c:121-142 | If the new slice can be placed in the old one, a row is supplied exactly if its id is masked in the old slice. |
| `AdoptionUnion.UnionSegment` | postgresqlv/src/segment_adoption.c:95-147 | Over all slices, whatever the segments: exactly the supplied rows are masked and `delete_count` is again the number of set bits. |
| `AdoptionUnion.UnionGroups` | postgresqlv/src/segment_adoption.c:161-211 | Exactly the rows the walk of each group's slice marks are masked, and `delete_count` is again the number of set bits. |
| `AdoptionUnion.FromSegmentIffMasked` | postgresqlv/src/segment_adoption.c:95-147 | If the new segment descends from the old one, a row receives a bit from it exactly if it is masked there. |
| `AdoptionUnion.FromGroupsIffListed` | postgresqlv/src/segment_adoption.c:161-211 | If the groups can be placed, a row receives a bit from them exactly if a group of its sid lists it. |
| `AdoptionUnion.UnionPredecessor` | postgresqlv/src/segment_adoption.c:95-147 | A displaced segment's masks all reach the new segment and nothing else does. |
| `AdoptionUnion.UnionListed` | postgresqlv/src/segment_adoption.c:161-211 | The rows the groups list all get masked and nothing else does. |
| `AdoptionUnion.CarryDeletions` | postgresqlv/src/segment_adoption.c:595-618 | Each row of the new segment is masked exactly if it was in its file, in a displaced segment (Cases A and E) or in a cover group (Cases D and E), and `delete_count` equals the set bits. So some listed row stays unmasked exactly if the range was found as it is (Case A) and the row is masked neither in the file nor in the displaced segment. |
| `AdoptionUnion.DroppedDeletion` | postgresqlv/src/segment_adoption.c:595-618 | Such an adoption: the only row of sid 3 is deleted in the memtable alone and stays unmasked. |
| `VacuumReplay.EmittedExactly` | postgresqlv/src/lsmindex.c:2662-2709 | The entries of a slice name exactly the rows that die in this vacuum, each by its position and its id. |
| `VacuumReplay.AdvanceOffset` | postgresqlv/src/lsmindex.c:2688-2694 | The slice cursor ends at the slice that holds the row; the "beyond segment offsets" error never occurs. |
| `VacuumReplay.VacuumSegment` | postgresqlv/src/lsmindex.c:2637-2709 | One vacuum masks exactly the rows the callback calls dead, keeps `delete_count` exact, and fills for each sid the entries of its slice, never more than its span. |
| `VacuumReplay.ApplyToSlice` | postgresqlv/src/segment_vacuum_redo.c:332-370 | Either replay path sets exactly the rows it selects inside the slice and counts the bits that flipped. |
| `VacuumReplay.ApplyToFile` | postgresqlv/src/segment_vacuum_redo.c:287-370 | A record sets exactly the rows its path selects in the slice bisection finds; on a miss nothing changes and the call reports it. |
| `VacuumReplay.PathsAgreeIffUnambiguous` | postgresqlv/src/segment_vacuum_redo.c:332-367 | For the record of a vacuum the indexed and the two-pointer path set the same rows exactly if no row that is passed over carries the id of the next dead row. |
| `VacuumReplay.DistinctIsUnambiguous` | postgresqlv/src/segment_vacuum_redo.c:319-331 | Slices with distinct row ids meet that condition. |
| `VacuumReplay.PathsCanDiffer` | postgresqlv/src/segment_vacuum_redo.c:332-367 | A slice with a repeated row id on which the two paths set different rows. |
| `VacuumReplay.ReplayVacuum` | postgresqlv/src/segment_vacuum_redo.c:287-370 | Replaying the per-sid records of one vacuum masks exactly the dead rows whose slice bisection finds, so the primary's bitmap is reproduced exactly if it finds every slice with a newly dead row, as in a table all of whose sids it finds; the count stays exact. |
| `VacuumReplay.LostDeletion` | postgresqlv/src/segment_vacuum_redo.c:287-370 | A vacuum and its replay on the merge of sids 4 and 3: the primary masks row 2, the standby never does. |
| `VacuumReplay.AllReached` | postgresqlv/src/segment_vacuum_redo.c:195-212 | In a table whose sids ascend with no zero entry in the way every row is reached. |
| `VacuumReplay.ReplayTwice` | postgresqlv/src/segment_vacuum_redo.c:332-370 | Replaying a record again changes neither bitmap nor count. |
| `VacuumReplay.RefreshBitmap` | postgresqlv/src/vector_index_worker.c:404-419 | The worker's refresh adds the file's bits to memory; the count it takes over from the file is right exactly if memory had no bit the file lacks, and too small otherwise. |
| `VacuumReplay.RefreshCanUndercount` | postgresqlv/src/vector_index_worker.c:404-419 | The refresh on one bit only in memory and one only in the file: two set, counted as one. |
| `VacuumReplay.ApplyToMemtable` | postgresqlv/src/segment_vacuum_redo.c:51-83 | A memtable gets exactly the rows named by slot, or exactly those the walk over its valid rows marks. |
| `SegmentPool.FollowSpellsList` | postgresqlv/src/lsm_segment.c:77-149 | Following the links from the head visits the list, each slot once, and ends. |
| `SegmentPool.LinksDetermineList` | postgresqlv/src/lsm_segment.c:77-149 | There is only one list the links can spell. |
| `SegmentPool.RelinkedIsLinked` | postgresqlv/src/lsm_segment.c:462-483 | Putting a slot between two neighbours in place of a stretch leaves one acyclic doubly linked list in start order with exact head and tail. |
| `SegmentPool.StatsWith` | postgresqlv/src/lsm_segment.c:46-56 | Adding a segment to the three statistics keeps them equal to counts over the linked segments. |
| `SegmentPool.StatsWithout` | postgresqlv/src/lsm_segment.c:438-450 | Taking a segment out keeps them so. |
| `SegmentPool.OutsideKeepsPool` | postgresqlv/src/lsm_segment.c:58-74 | Slots outside the list and reference counts have no influence on links or statistics. |
| `SegmentPool.Pool.constructor` | postgresqlv/src/lsm_segment.c:13-44 | The empty pool is in order. |
| `SegmentPool.Pool.ExactIff` | postgresqlv/src/vector_index_worker.c:1647-1664 | In any pool that operations have led to, a statistic equals the number of linked segments it should count exactly if it counts none of those a rebuild or merge counted twice. |
| `SegmentPool.Pool.Reserve` | postgresqlv/src/lsm_segment.c:59-74 | The first free slot from `insert_idx` on, all before it being in use, or none exactly if there is none; nothing else changes. |
| `SegmentPool.Pool.FindPlace` | postgresqlv/src/lsm_segment.c:110-115 | The walk from the tail finds where all earlier starts, and equal ones, come before. |
| `SegmentPool.Pool.Register` | postgresqlv/src/lsm_segment.c:76-149 | The reserved slot enters the list in start order behind equal starts, everything else keeps its place and content, the statistics count it, and no other slot is touched, in any pool, rebuilt or not. |
| `SegmentPool.Pool.DecrementRef` | postgresqlv/src/lsm_segment.c:153-229 | One reference less; exactly the last one frees the slot, lowers the count and rewinds `insert_idx` if the lock is free. |
| `SegmentPool.Pool.ReplaceN` | postgresqlv/src/lsm_segment.c:412-499 | A contiguous stretch is replaced by one slot; each replaced segment loses the list's reference and is freed if that was its last; the statistics follow; `flushed_segment_count` falls behind the list length by one for each segment freed. |
| `SegmentPool.Pool.ReplaceAndRecount` | postgresqlv/src/vector_index_worker.c:1647-1664 | Rebuild and merge replace, and count the new segment once more: list, links and references are as after any replacement, every statistic that counts the segment is off by one more, and all other operations go on from there. |
| `SegmentPool.Pool.Acquire` | postgresqlv/src/vector_index_worker.c:348-354 | Pinning a linked segment adds one reference and nothing else. |
| `SegmentPool.Pool.Release` | postgresqlv/src/lsm_segment.c:153-229 | Unpinning frees a segment that has left the list with its last pin, and only then; that lowers the count a second time, moves the insertion index back to the slot, and keeps the pool in order. |
| `SegmentPool.Pool.ReleaseAndReuse` | postgresqlv/src/lsm_segment.c:59-229 | After the last pin of a segment that has left the list a reservation succeeds, at its slot or an earlier one. |
| `SegmentPool.Pool.Discard` | postgresqlv/src/lsm_segment.c:234-276 | Giving back a slot that was never linked leaves every other slot as it was. |
| `SegmentPool.Pool.FindSegmentBySids` | postgresqlv/src/lsm_segment.c:281-323 | The first linked segment with exactly this range, or none. |
| `SegmentPool.Pool.FindStrictlyContaining` | postgresqlv/src/segment_adoption.c:61-79 | The first linked segment that contains the range and is wider, or none. |
| `SegmentPool.Pool.FindTwoAdjacent` | postgresqlv/src/lsm_segment.c:328-408 | The first segment that starts with the range and its successor, if together they end with it; else none. |
| `Adoption.TileWalk` | postgresqlv/src/segment_adoption.c:427-529 | Succeeds exactly if no linked segment hangs over the right end and every sid of the range is in a memtable or a linked segment, and then has collected exactly the segments that overlap the range. |
| `Adoption.GapIsFatal` | postgresqlv/src/segment_adoption.c:462-490 | A sid in front of the next segment that no memtable covers is in no segment at all. |
| `Adoption.FewSegments` | postgresqlv/src/segment_adoption.c:492-496 | The list never has more nodes than slots, so the limit on collected segments is never reached. |
| `Adoption.Decide` | postgresqlv/src/segment_adoption.c:343-556 | The four cases decide for adoption exactly if a namesake is older, or there is none, nothing wider contains the range, and it is tiled; what is to be displaced is exactly what overlaps the range. |
| `Adoption.SplicedRanges` | postgresqlv/src/segment_adoption.c:620-633 | After installing, the list is ascending and disjoint and the new segment is the only one that touches its range. |
| `Adoption.HoldsAfter` | postgresqlv/src/segment_adoption.c:620-633 | Afterwards a sid is in the pool exactly if it is in the range or a segment that was not displaced holds it. |
| `Adoption.OutsideKeptIff` | postgresqlv/src/segment_adoption.c:451-460 | No sid outside the range is gained or lost exactly if no displaced segment starts before the range; the walk checks only its end. |
| `Adoption.OverhangCanBeDisplaced` | postgresqlv/src/segment_adoption.c:438-505 | A pool that holds just [3, 5], offered [4, 6] with sid 6 in a memtable: it is adopted, sid 3 was in the pool, and however the adoption ends sid 3 is not in it. |
| `Adoption.LoseSid` | postgresqlv/src/segment_adoption.c:343-664 | The same with the pool at work. |
| `Adoption.MergeOfTwo` | postgresqlv/src/vector_index_worker.c:1647-1664 | Two linked segments nobody holds, merged: the list has one, the count is -1, two statistics are 2. |
| `Adoption.LaminarHasNoLeftOverhang` | postgresqlv/src/segment_adoption.c:438-505 | If no linked range crosses the offered one, an adoption displaces nothing that starts before it. |
| `Adoption.Install` | postgresqlv/src/segment_adoption.c:620-633 | Exactly the stretch that overlaps the range gives way to the new segment; the pool stays in order. |
| `Adoption.InstalledWell` | postgresqlv/src/segment_adoption.c:595-643 | A sound decision and its installation leave everything an adoption promises. |
| `Adoption.Commit` | postgresqlv/src/segment_adoption.c:343-664 | On a loaded segment: adopted exactly if the decision is for it; if not, the slot is given back and the linked segments are as before. |
| `Adoption.Adopt` | postgresqlv/src/segment_adoption.c:241-666 | The offer is adopted exactly if a slot is free and the decision is for it. Then the pool is sorted and disjoint, the new segment is the only owner of its range, all others are unchanged, every sid of the range came from a segment or memtable, and none outside was gained or lost exactly if nothing overhung to the left. Otherwise list and linked segments are unchanged. |
| `SegmentFiles.ScanIsUnique` | postgresqlv/src/lsmindex_io.c:588-634 | A set of files has at most one scan: its maximal ranges, ascending, each with its highest version. |
| `SegmentFiles.BuildTable` | postgresqlv/src/lsmindex_io.c:527-581 | In whatever order the directory lists files, the table has one entry for each range it knows with the highest version read. |
| `SegmentFiles.TableIsComplete` | postgresqlv/src/lsmindex_io.c:560-565 | If there are no more ranges on disk than the table holds, none is missing from it. |
| `SegmentFiles.SortTable` | postgresqlv/src/lsmindex_io.c:471-500 | Sorted by start, wider ranges first, with the same entries. |
| `SegmentFiles.Greedy` | postgresqlv/src/lsmindex_io.c:609-632 | On a laminar family the greedy pass emits ascending disjoint entries, and every entry lies within an emitted one. |
| `SegmentFiles.GreedyIsScan` | postgresqlv/src/lsmindex_io.c:588-634 | What the greedy pass emits is the scan of the files. |
| `SegmentFiles.ScanFiles` | postgresqlv/src/lsmindex_io.c:502-635 | The directory scan returns the scan of the files, for every laminar family of at most 1024 ranges and every listing order. |
| `SegmentFiles.FindLatestVersion` | postgresqlv/src/lsmindex_io.c:290-325 | The highest version of a range, or 0. |
| `SegmentFiles.FlushShows` | postgresqlv/src/lsmindex_io.c:732-776 | However far a flush has come, the scan sees the new segment exactly if all its operations are done. |
| `SegmentFiles.FlushWrites` | postgresqlv/src/lsmindex_io.c:732-776 | A complete flush has put each of its files and the metadata on disk with their content, has left no temporary file, and has touched no other name. |
| `SegmentFiles.FlushSparesOthers` | postgresqlv/src/lsmindex_io.c:732-776 | However far it has come, it has touched no other segment's file. |
| `SegmentFiles.KindsWritten` | postgresqlv/src/lsmindex_io.c:748-772 | Bitmap and mapping are always written, index and offsets if the segment comes with them. |
| `SegmentFiles.ListedHasFiles` | postgresqlv/src/lsmindex_io.c:732-776 | At every point of every run, crashes included, each segment a scan can see was written to the end by an earlier step and has on disk all files that step wrote, with their content, and its metadata. |
| `SegmentFiles.LiveHasFiles` | postgresqlv/src/lsmindex_io.c:732-776 | So every segment in the pool has its bitmap, mapping and metadata on disk. |
| `SegmentFiles.PullShows` | postgresqlv/src/segment_fetcher.c:473-484 | A pull from the primary shows its segment as soon as the temporary file of the metadata exists. |
| `SegmentFiles.PulledHasData` | postgresqlv/src/segment_fetcher.c:473-484 | A segment that a pull has made visible has all its files with their content, except at most the metadata; after the whole pull, that too. |
| `SegmentFiles.InstallKeepsScan` | postgresqlv/src/lsm_segment.c:412-499 | Replacing a stretch of the live list by a segment that contains it keeps the list equal to the scan of the files. |
| `SegmentFiles.InstallKeepsLaminar` | postgresqlv/src/lsmindex_io.c:732-776 | A file whose range contains the stretch it replaces leaves the ranges on disk nested or disjoint. |
| `SegmentFiles.RangesStayLaminar` | postgresqlv/src/lsmindex_io.c:732-776 | After any run of flushes, rebuilds and adjacent merges, crashes included, the ranges on disk are nested or disjoint. |
| `SegmentFiles.ScanReturnsLive` | postgresqlv/src/lsmindex_io.c:502-635 | After any such run, scanning the directory returns exactly the pool's live list: ranges, versions and order. |
| `SegmentFiles.RebuildGoesOn` | postgresqlv/src/lsmindex_io.c:732-776 | Any live segment can be rebuilt at any point of any run; the next version of its range takes its place. |
| `SegmentFiles.MergeGoesOn` | postgresqlv/src/lsmindex_io.c:732-776 | Any two neighbors whose joint range is not on disk can be merged at any point of any run; the merged segment takes their place. |
| `SegmentFiles.CrashLeavesScan` | postgresqlv/src/lsmindex_io.c:366-403 | A flush cut short before its metadata is renamed into place leaves every possible scan as it was. |
| `SegmentFiles.CrashedPullIsHiddenIff` | postgresqlv/src/segment_fetcher.c:251-404 | A pull cut short leaves what the scan sees as it was exactly if it had not begun with the metadata or the segment was visible before: the scan also matches names that end in .tmp. |
| `SegmentFiles.CrashedPullCanShow` | postgresqlv/src/segment_fetcher.c:251-404 | A standby that crashes before its last rename comes up with a scan that lists a segment whose metadata is not there. |
| `SegmentFiles.FlushIsHiddenIff` | postgresqlv/src/lsmindex_io.c:612-618 | The file of a memtable flushed after its neighbours leaves the scan as it was exactly if a wider live range holds its sid. |
| `SegmentFiles.FlushFitsIff` | postgresqlv/src/lsm_segment.c:76-149 | Registering a flushed segment at some place leaves the live list the scan of the files exactly if its sid lies in the gap there. |
| `SegmentFiles.LateFlushIsLost` | postgresqlv/src/lsmbackground.c:22-56 | A run in which sids 3 and 5 are flushed and merged before sid 4 is flushed: its file is on disk, no scan returns it, and wherever it is registered the live list is no longer the scan. |
| `StatusPages.BlocksArePartitioned` | postgresqlv/src/statuspage.c:88-251 | Every block from the first array page on is at exactly one place of exactly one chain: array pages, free list, one memtable, or the page just taken. |
| `StatusPages.FollowSpellsChain` | postgresqlv/src/statuspage.c:670-759 | Following the links from a chain's first block visits the chain and ends. |
| `StatusPages.TakeFree` | postgresqlv/src/statuspage.c:232-245 | Popping the first free page keeps all chains and leaves an empty page on none of them. |
| `StatusPages.LinkLoose` | postgresqlv/src/statuspage.c:515-537 | Linking the page behind the last page of a chain extends that chain and no other. |
| `StatusPages.FreeChain` | postgresqlv/src/statuspage.c:145-165 | Joining a memtable's chain to the free list keeps all chains acyclic and disjoint. |
| `StatusPages.DirKept` | postgresqlv/src/statuspage.c:400-439 | Entries stay right (head and insert page on the memtable's own chain, one entry for each sid) while chains only grow at their ends. |
| `StatusPages.BagRewritten` | postgresqlv/src/statuspage.c:729-752 | Rewriting one page of a chain exchanges exactly that page's rows in the chain's multiset. |
| `StatusPages.RegisterKeeps` | postgresqlv/src/statuspage.c:351-394 | A new memtable's entry and page keep layout, directory and everybody else's rows. |
| `StatusPages.ReleaseKeeps` | postgresqlv/src/statuspage.c:143-184 | So does moving a chain to the free list and deleting its entry. |
| `StatusPages.StatusFile.constructor` | postgresqlv/src/statuspage.c:49-85 | A new file records no memtable. |
| `StatusPages.StatusFile.GetFreePage` | postgresqlv/src/statuspage.c:198-251 | Succeeds exactly if the free list is not empty; then its first page, emptied, is taken off it; nobody's rows change. |
| `StatusPages.StatusFile.FindEntry` | postgresqlv/src/statuspage.c:400-439 | Finds a memtable's entry exactly if it is registered. |
| `StatusPages.StatusFile.FindTuplePage` | postgresqlv/src/statuspage.c:504-568 | Ends at a page of the memtable's own chain with room, adding one if need be; nobody's rows change. |
| `StatusPages.StatusFile.Register` | postgresqlv/src/statuspage.c:279-398 | The sid is recorded with no rows (a recycled page brings none along), the maximum is set, and nobody else's rows change. |
| `StatusPages.StatusFile.Add` | postgresqlv/src/statuspage.c:474-582 | Fails exactly for an unknown sid; else exactly this row is added to that sid's multiset and nobody else's rows change. |
| `StatusPages.StatusFile.UpdateInsertPage` | postgresqlv/src/statuspage.c:441-472 | The insert page moves along the memtable's own chain; nothing else of the entry and nobody's rows change. |
| `StatusPages.StatusFile.GetTids` | postgresqlv/src/statuspage.c:669-759 | Returns exactly the multiset of rows recorded for the sid; finds nothing exactly for an unknown sid. |
| `StatusPages.StatusFile.Remove` | postgresqlv/src/statuspage.c:762-856 | Removes one record of the row, exactly if there is one, and nothing else. |
| `StatusPages.StatusFile.FindTail` | postgresqlv/src/statuspage.c:122-141 | From any page of the chain the walk ends at its last page. |
| `StatusPages.StatusFile.Release` | postgresqlv/src/statuspage.c:87-194 | The sid is forgotten exactly if it was known, its pages join the free list, and nobody else's rows change. |
| `Recovery.MaskBeyond` | postgresqlv/src/lsmindex.c:811-834 | In one file, exactly the rows of memtables beyond the maximum get masked besides those that were, and the added bits are counted. |
| `Recovery.MaskMissing` | postgresqlv/src/lsmindex.c:913-995 | In one file, exactly the rows whose memtable is listed and does not record them get masked besides those that were; starting at a later sid loses none. |
| `Recovery.Step1` | postgresqlv/src/lsmindex.c:780-864 | Stopping at the first file within the maximum, every file ends up treated, and each written delete count equals the set bits. |
| `Recovery.HoldsNone` | postgresqlv/src/lsmindex.c:875-884 | A file the descending walk passes over holds no listed sid. |
| `Recovery.Step2` | postgresqlv/src/lsmindex.c:866-1027 | The skip-merge misses no file that holds a listed sid. |
| `Recovery.Recover` | postgresqlv/src/lsmindex.c:734-1027 | After both steps a stored row is masked exactly if it was, or its memtable is younger than the growing one, or is the growing one and not listed, or is listed and records no such row; all delete counts equal the set bits. |
| `ReplayRace.RunKeepsInv` | postgresqlv/src/segment_vacuum_redo.c:85-165 | Locks, captured groups and pool agree at every point of every interleaving of one replay and one adoption. |
| `ReplayRace.ReplayIsNotLost` | postgresqlv/src/segment_adoption.c:595-633 | Once both have finished, whichever way they interleaved, the installed segment masks exactly the replayed rows and those masked at first on disk, in the memtable and in the displaced segment; the file masks the replayed rows and those it masked at first; the memtable is off the list and no lock is held. |
| `ReplayRace.NoBitIsLost` | postgresqlv/src/segment_vacuum_redo.c:243-437 | No step takes a bit from the disk, the memtable or the installed segment. |
| `ReplayRace.RefreshedOrTriedFourTimes` | postgresqlv/src/segment_vacuum_redo.c:243-437 | The replay ends with the pool refreshed from disk, or after it was told to retry four times. |
| `ReplayRace.LateReplaySparesMemtable` | postgresqlv/src/segment_vacuum_redo.c:88-105 | A replay that begins after the memtable has left the list does not touch it. |
| `ReplayRace.GroupStaysCurrent` | postgresqlv/src/segment_fetcher.c:652-672 | From the copy of the deletions to the release of the cover the memtable's bitmap stays the copy. |
| `ReplayRace.NeverStuck` | postgresqlv/src/segment_vacuum_redo.c:88-105 | Unless both have finished some step is enabled: the two never deadlock. |
| `ReplayRace.RunsEnd` | postgresqlv/src/segment_vacuum_redo.c:243-437 | No run has more than 25 steps, so both do finish. |
| `MemtableCover.ScanCover` | postgresqlv/src/segment_fetcher.c:673-712 | The cover is the sids in the range of all listed memtables and the growing one; the result table never runs full. |
| `MemtableCover.CoverExactly` | postgresqlv/src/segment_fetcher.c:679-712 | A sid is in the cover exactly if a scanned memtable in the range has it. |
| `MemtableCover.CollectGroup` | postgresqlv/src/segment_fetcher.c:758-785 | Counting and copying gives the masked rows of the valid prefix, in slot order. |
| `MemtableCover.MaskedTidsExactly` | postgresqlv/src/segment_fetcher.c:775-778 | A row is in the group exactly if a masked slot holds it. |
| `MemtableCover.FlushedGroupEmbeds` | postgresqlv/src/segment_fetcher.c:739-747 | The group of a memtable can be placed in the slice of a segment flushed from it: the condition under which adoption loses no deletion. |
| `MemtableCover.KeptExactly` | postgresqlv/src/segment_fetcher.c:521-542 | The compacted list has exactly the listed memtables outside the range. |
| `MemtableCover.RefsExactly` | postgresqlv/src/segment_fetcher.c:530-534 | Each dropped memtable loses one reference and no other slot loses any. |
| `MemtableCover.ReleaseCovered` | postgresqlv/src/segment_fetcher.c:521-542 | The list is compacted in place, in order, with these references. |
| `MemtableCover.ReleaseCover` | postgresqlv/src/segment_fetcher.c:499-560 | The same with the growing memtable, whose index becomes invalid exactly if it is in the range. |
| `MemtableCover.DroppedIffInCover` | postgresqlv/src/segment_fetcher.c:652-672 | A memtable leaves the list exactly if its sid is in the cover scanned from that list. |
| `TopK.MergeTopK` | postgresqlv/src/lsmindex.c:1785-1801 | The streaming merge takes the nearest elements of two sorted lists, as many as wanted and there are, ties from the first. |
| `TopK.MergeIsTopK` | postgresqlv/src/lsmindex.c:1785-1801 | Truncating before merging loses nothing: merging two lists that are each long enough is a top k of everything both were taken from. |
| `TopK.SearchMemtable` | postgresqlv/src/lsmindex.c:1849-1984 | A sorted top k, on each of the three paths, of the rows in the slots below capacity and counter that are not excluded and, if that is asked for, published: each row as often as slots hold it, also when the counter has passed the capacity. |
| `TopK.RowsAreCandidates` | postgresqlv/src/lsmindex.c:1849-1984 | The rows the search ranks are exactly those of these slots. |
| `TopK.SearchSplit` | postgresqlv/src/lsmindex.c:1893-1959 | Scanning the ready prefix as a whole and the rest slot by slot misses no published row and adds none. |
| `TopK.UncheckedSeesPublishedIff` | postgresqlv/src/lsmindex.c:1960-1983 | The scan of a sealed memtable, which does not look at ready flags, sees only published rows exactly if as many rows are published or excluded as are valid; so it does if the ready count is the valid count, and where no unpublished row is excluded only then. |
| `TopK.SearchMemtables` | postgresqlv/src/lsmindex.c:2068-2093 | The chained truncated merges give a top k of the snapshot: the published slots of the growing memtable and the slots in use of every sealed one. |
| `TopK.SnapshotRowsAreCandidates` | postgresqlv/src/lsmindex.c:2068-2093 | The rows of a snapshot are exactly those of these slots, each as often as slots hold it. |
| `TopK.MergeTopKDedup` | postgresqlv/src/lsmindex.c:1816-1846 | The merge puts out ascending candidates, no id twice, represents every candidate it has passed, and has nothing closer ahead. |
| `TopK.DedupIsTopK` | postgresqlv/src/lsmindex.c:1803-1846 | On two truncated lists its result is a top k of distinct rows of everything they were taken from. |
| `TopK.SearchIndex` | postgresqlv/src/lsmindex.c:2068-2115 | The final list is sorted, has no repeated id, and no candidate left out, from a slot of the snapshot or a segment result, is strictly closer than a returned row unless a copy of it at least as close is returned. |

## Left out

Contracts that are weaker than the code's full range, by member:

- MemtableLifecycle.RunKeepsInv: runs start with a valid growing memtable; the path from an invalid growing index (`lsmindex.c:1721-1726`), which does not re-check the index it replaces, is not modelled. Filling in a freshly claimed slot, one memtable scan, and moving a flushed memtable's rows into the pool are one step each.
- MemtableLifecycle.SnapshotIsComplete: a row is published when its ready flag is set; memory is sequentially consistent, barriers are not modelled.
- SlotPublishing.RunKeepsInv: one incarnation; a slot is not recycled while a publisher is between setting the flag and counting it (`lsmindex.h:367-368`).
- HnswSearch.SearchLayer: the in-memory path, with a fresh visited table, at most ef distinct entry points, no element being vacuumed and no heap of discarded elements; heaps are sets from which a nearest or farthest element is taken.
- HnswPruning.SelectNeighbors: a candidate's flag is membership in a set instead of a field of the shared object; the order is total because elements are distinct.
- Elkan.ElkanKmeans: distances are reals from any metric bounded by FLT_MAX, rounding is left out; seeding and the recomputation of centers are arbitrary.
- Adoption.Adopt: decision and installation are one atomic step. The re-validation and retry loop (`segment_adoption.c:558-593`), two adoptions at once, failing to load the file, and an index that is not loaded are not modelled.
- AdoptionUnion.CarryDeletions: assumes that slices of the new segment keep the order of the displaced ones and have distinct rows; `MemtableCover.FlushedGroupEmbeds` shows the part about groups for freshly flushed memtables. How a segment of exactly the offered range and a memtable of that range come to coexist is not modelled.
- ReplayRace.ReplayIsNotLost: one replay, one adoption and one cover memtable; the fetched files are on disk before the adoption starts, the refresh loads the latest bitmap, and the replayed rows still occur in the segment.
- VacuumReplay.ReplayVacuum: standby and primary start from the same mapping and bitmap; a row compacted away in the middle of a batch is outside it.
- SegmentFiles.ScanReturnsLive: at most 1024 ranges on disk; runs consist of flushes into gaps of the live list, rebuilds and merges of neighbors on one node. `SegmentFiles.FlushFitsIff` says that a flush anywhere else ends the agreement.
- SegmentFiles.ListedHasFiles: says nothing of data files that an unfinished flush has left behind, nor of their bytes, which are one number each.
- SegmentPool.Pool.ReplaceN: under the pool's write lock the attempt to take it again fails, so freed slots do not rewind `insert_idx`; reuse of every freed slot is not claimed.
- StatusPages.StatusFile.Register: the sid is new, as it is for the only caller, which registers a memtable right after numbering it (`lsmindex.c:440-492`); operations do not overlap, and how many items fit on a page is a parameter.
- Recovery.Recover: the listed sids come sorted, at least one, none above the recorded maximum; each file has its metadata; step 3 and what recovery asserts are left out. The lookup of a row id among the recorded ones is membership.
- MemtableCover.ScanCover: the cover is not sorted, only membership in it is used.
- TopK.SearchIndex: the brute-force scan returns a sorted top k, memtable rows are distinct, and the segments' results are a sorted top k of distinct rows. Sorting is by insertion, so ties may come out in another order than from `qsort`.

The rest:

- Integers are unbounded, except for the sids' all-ones sentinel; statistics are never negative, so wrap-around does not occur.
- Bitmaps are arrays of booleans; bytes, stray bits and file formats are left out.
- Index building, serialization, search and merging inside segments; the rest of `vector_index_worker.c`.
- Sockets, the replication server, fsync, WAL encoding, the buffer manager, latches and background workers; only the order of effects and the sections under locks are kept.
- Loading segments from disk, the queue of pending fetches, the ring buffer.
- Vector, half-vector, bit and sparse types, SIMD, cost estimation and SQL functions, which would add easy members only.
- Defensive checks against cyclic lists, which the proofs show to be unnecessary.
