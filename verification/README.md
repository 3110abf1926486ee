# Telescope storage, verified

A Dafny model of the storage layer of nestjs-telescope: the Parquet cold tier and the provider that
merges it with a hot store, the Redis, ClickHouse and MikroORM providers, and the alert
deduplication. Each module proves what its part is for, for all inputs or over every reachable state.

A storage provider promises pages of entries newest first, by `(createdAt, id)`, resumed from a
position. `Entries` and `Pages` define that oracle (`NewestFirst`, `TopK`, and `Top` for lists with
repeats) and the algebra that early-stopping reads rest on; everything else is compared with it, with
a plain map from id to entry, or with a fold over all deltas.

| module | what it models |
|---|---|
| `TextSearch`, `ColdFilters`, `ColdEngine` | free-text search, the row predicate, its time bounds, and the reader that stops early over sorted row groups |
| `ColdWriter`, `Layout` | the file builder, the k-way merge, hours, days and UUIDv7 times |
| `ColdStore`, `ColdRepeats` | the tier: scan by day and hour, lookup by id, writes by partition; and a tier whose repeated rows cost a page |
| `Compaction` | a state machine of archiving, concurrent compactions and readers of one hour |
| `Tiered`, `TieredRun` | one page over both tiers, and paging over every run of stores and archive steps |
| `LexKey`, `RedisIndexes`, `RedisStore`, `RedisPrunes`, `RedisGet`, `RedisRollups` | the order-reversing key codec, the indexes and the entry map, the writes and prunes, what the prunes do to the entries, the paged read, the rollup script |
| `ClickHouseSeen`, `ClickHouseAnswers`, `ClickHouseEntries` | the claim protocol of `markFamilySeen`, what its answers mean, and updates over a ReplacingMergeTree |
| `MikroLease`, `MikroPrune`, `MikroRollups` | the lease, the bounded prune, and additive upserts |
| `Recency`, `Alerts`, `LruCache` | bounded recency maps against their full history: tracker, cooldowns, flush queue, metadata cache |

## Conventions

Time is an integer number of milliseconds, an id a string in the order of `<`, an entry a record of its
filterable fields with its content as JSON text. A cursor is the position it decodes to, and an
undecodable one is no cursor. A Parquet file is a sequence of row groups with minimum and maximum
times, which may be missing. `Agree` says that all copies of an id are the same entry. Protocols are state machines
whose steps are single reads, writes and statements; a run is any interleaving of them. Clocks, random
ids, claims and the answers of a shared store are parameters.

Where the code does not always do what its comments say, the code is modelled and the condition under which
it does is proved, with a run or an input that breaks it where the condition alone does not show one:

- A limited cold scan truncates each hour before it drops repeated rows. It is right if and only if each of
  the newest `limit` matches has fewer than `limit` rows of its own hour, repeats counted, newer than it
  (`ColdStore.Scan`). A batch archived twice can break that (`ColdRepeats.RepeatHides`); a tier without
  repeats cannot (`Tiered.NoRepeatsOK`).
- The tie budget of a hot page is 19 pages, not 20 (`Tiered.HotPageExact`, `Tiered.HotPagePastBudget`). It
  counts only what the hot reads saw.
- A directory's listing is not one step. It can miss every key of an hour, so that the read returns nothing
  without failing (`Compaction.DirectoryListingMisses`); it is complete unless, while it is
  taken, a merge writes an output and a file is removed (`Compaction.DirectoryListingComplete`).
- The Redis `before` bound is wrong for instants up to the epoch and the `after` bound for those before it
  (`LexKey.BeforeExact`, `LexKey.AfterExact`).
- A Redis update keeps the indexes right only for an index-neutral patch (`RedisIndexes.UpdateAgreement`).
- Storing an id again in Redis keeps its old references and counts its tags twice (`RedisIndexes.StoreAgreement`).
- Reading by ids in Redis repeats an entry whose id is asked for twice (`RedisGet.RepeatedId`); the page is
  right if and only if enough newer rows were fetched to push every repeat off it (`RedisGet.GetByIds`).
- The Redis rollup script stops halfway at a fractional sum (`RedisRollups.ScriptAdds`).
- `markFamilySeen` on ClickHouse does not record the sighting of a call that loses a race for an expired
  family or all its attempts (`ClickHouseSeen.LostSightingUnrecorded`, `ClickHouseSeen.GaveUpUnrecorded`),
  and of no other that finishes (`ClickHouseSeen.SightingRecorded`); a call undisturbed from its last read
  on is recorded (`ClickHouseSeen.RecordedAlone`).
- Its answer is right for such an undisturbed call (`ClickHouseAnswers.AnswerAlone`). A racing one can be told
  "not new" although every other call was a window or more before it and none reports the family
  (`ClickHouseAnswers.LostToRefresh`): exactly when `last_seen` moved on between its read and its claiming
  update (`ClickHouseAnswers.LostExactly`), or when at least 20 other calls wrote meanwhile
  (`ClickHouseAnswers.GivesUpCrowded`).
- `nextVersion` is not strictly increasing (`ClickHouseEntries.NextVersionIncreases`), and concurrent
  updates of one id can leave two rows (`ClickHouseEntries.RacingUpdates`); sequential ones are right.
- A lease has one holder only while no caller's clock runs ahead (`MikroLease.FastClockSteals`): another's
  update takes it exactly when its `now` is at or past the expiry (`MikroLease.UpdateSteals`).

## Model

| member | source | states |
|---|---|---|
| `Entries.NewerOrder` | packages/parquet/src/rows.ts:73-81 | the page order is a strict order, total on entries that differ in `(createdAt, id)`, and being behind a position is being older than its entry |
| `Entries.NewestFirst` | packages/parquet/src/rows.ts:73-77 | every set of entries without two versions of an id has a strictly descending listing, the oracle of all reads |
| `Entries.TopKByRank` | packages/parquet/src/rows.ts:72-77 | the newest k are exactly the entries with fewer than k newer ones |
| `Entries.CoversTopK` | packages/parquet/src/engine.ts:154-160 | a part that has k newer entries for whatever it lacks gives the same newest k as the whole, and is the whole when it is shorter than k |
| `Pages.SortedUnique` | packages/parquet/src/engine.ts:192 | with agreeing copies there is only one sorted arrangement of a list, repeats included |
| `Pages.TopAbsorbs` | packages/parquet/src/engine.ts:157-158 | sorting and truncating to `limit` before more rows are read changes nothing |
| `Pages.TopSettled` | packages/parquet/src/engine.ts:154-160 | rows older than the last of `limit` kept ones change nothing |
| `Pages.TopMember` | packages/parquet/src/engine.ts:192-193 | sort-then-take keeps a row exactly when fewer than `limit` rows are newer than it, repeats counted |
| `Pages.DedupeElems` | packages/parquet/src/parquet-cold-store.ts:507-516 | deduplication keeps each entry once and loses none |
| `ColdFilters.MatchesWanted` | packages/parquet/src/filter.ts:57-75 | the row predicate accepts exactly the wanted entries strictly behind the cursor, none of them outside the two time bounds |
| `ColdFilters.WantedSearch` | packages/parquet/src/filter.ts:71-73 | the search clause says that the content holds the text at some index, up to the case of ASCII letters, and a search changes nothing else |
| `ColdFilters.SearchHits` | packages/parquet/src/filter.ts:71-73 | a query with a search hits exactly what it would without, of which the content holds the text |
| `TextSearch.ContainsAt` | packages/parquet/src/filter.ts:72 | a text includes the strings that stand in it at some index, and no others |
| `TextSearch.LowerAt` | packages/parquet/src/filter.ts:32-32 | lower-casing keeps the length, moves `A` to `Z` up by 32 and leaves every other character |
| `TextSearch.SearchExact` | packages/redis/src/redis-storage-provider.ts:820-823 | comparing in lower case finds exactly the texts that hold the needle in any case |
| `ColdFilters.TimeFilterExact` | packages/parquet/src/filter.ts:41-51 | for a filter on time alone the bounds are exact but for the cursor's own millisecond |
| `ColdFilters.ResolveLimit` | packages/parquet/src/tiered-storage.ts:128-131 | a positive limit is kept, a missing or non-positive one becomes 50 |
| `ColdFilters.Project` | packages/parquet/src/engine.ts:151-151 | an entry as a page carries it keeps every field but the content, which is dropped exactly when the query omits it |
| `ColdEngine.PushdownSound` | packages/parquet/src/engine.ts:254-269 | handing clauses to the reader loses no row the predicate accepts |
| `ColdEngine.OverlappingSound` | packages/parquet/src/engine.ts:140-143 | skipping row groups by their bounds, which may be infinite, loses no matching row |
| `ColdEngine.Settled` | packages/parquet/src/engine.ts:155-160 | once settled, the kept rows are the newest `limit` whatever older rows are still unread |
| `ColdEngine.Read` | packages/parquet/src/engine.ts:137-194 | a read equals filter, sort and take over all rows of its files, through either branch |
| `ColdEngine.ReadBackwards` | packages/parquet/src/engine.ts:162-179 | the backward branch over groups keeps that result while it stops early |
| `ColdEngine.ReadTail` | packages/parquet/src/engine.ts:167-178 | doubling windows from a group's end terminate and lose nothing |
| `ColdEngine.ReadSelective` | packages/parquet/src/engine.ts:180-191 | the branch reading four groups at a time keeps that result |
| `LruCache.LruCache.Get` | packages/parquet/src/engine.ts:28-35 | a value is found exactly while fewer than `capacity` other keys were used since, and becomes the most recent |
| `LruCache.LruCache.Set` | packages/parquet/src/engine.ts:37-44 | the cache is the most recently used `capacity` keys of the history |
| `LruCache.LruCache.Delete` | packages/parquet/src/engine.ts:46-48 | the key is gone and every other key stays; what had been evicted does not come back |
| `Layout.FloorFacts` | packages/parquet/src/layout.ts:35-41 | hours and days partition time, negative times included, and each hour lies in its day |
| `Layout.FloorWhole` | packages/parquet/src/layout.ts:35-41 | hours and days begin at whole hours and days since the epoch |
| `Layout.UuidV7RoundTrip` | packages/parquet/src/layout.ts:71-76 | the 48-bit timestamp written into a UUIDv7 (section 5.7 of RFC 9562) is read back |
| `ColdWriter.WrittenSound` | packages/parquet/src/rows.ts:139-178 | files of sorted rows have sorted groups under true statistics |
| `ColdWriter.ParquetFileBuilder.Append` | packages/parquet/src/rows.ts:157-163 | the rows are appended to the contents, full groups flushed and fewer than a group pending |
| `ColdWriter.ParquetFileBuilder.Finish` | packages/parquet/src/rows.ts:165-169 | the finished file holds exactly the appended rows in order, in non-empty groups |
| `ColdWriter.EncodeFile` | packages/parquet/src/rows.ts:180-184 | a file of exactly the given rows |
| `ColdWriter.MergeFiles` | packages/parquet/src/parquet-cold-store.ts:330-402 | the outputs, concatenated, ascend strictly by `(createdAt, id)`, hold exactly the positions of the inputs, are not empty; all but the last reached the target size, and none had reached it at an earlier row group |
| `ColdWriter.MergeRows` | packages/parquet/src/parquet-cold-store.ts:365-394 | the merge loop terminates and keeps all this through refills, the last-key check and file cuts |
| `ColdWriter.MergeStep` | packages/parquet/src/parquet-cold-store.ts:374-384 | emitting the oldest head, unless it repeats the last position, keeps the merge invariant |
| `ColdWriter.Push` | packages/parquet/src/parquet-cold-store.ts:374-394 | one more row: full chunks become row groups, and a file is completed at the first row group at which it reaches the target size |
| `ColdWriter.Oldest` | packages/parquet/src/parquet-cold-store.ts:374-382 | no cursor's next row is older than the one chosen, refills included |
| `ColdStore.LimitedReadExact` | packages/parquet/src/engine.ts:155-160 | truncating before deduplicating gives the newest `limit` distinct rows if and only if each of those has fewer than `limit` rows newer than it, repeats counted |
| `ColdStore.ReadableExact` | packages/parquet/src/parquet-cold-store.ts:425-452 | over the whole tier: what limited reads of the hours bring decides the newest `limit` if and only if no repeated row hides one of them in its own hour |
| `ColdRepeats.RepeatHides` | packages/parquet/src/parquet-cold-store.ts:162-173 | a batch archived twice: a scan limited to two rows returns one of the two entries there are |
| `ColdStore.Certain` | packages/parquet/src/parquet-cold-store.ts:425-430 | what is kept still decides the newest `limit`, and yes means they all are at or after the boundary |
| `ColdStore.ListedHoursComplete` | packages/parquet/src/parquet-cold-store.ts:409-422 | no hour that holds a match is left out of the listing |
| `ColdStore.Scan` | packages/parquet/src/parquet-cold-store.ts:409-452 | for every tier, the newest `limit` of what limited reads of the hours bring, despite stopping at day and hour boundaries; it is the newest `limit` of all matches if and only if no repeated row hides one of them in its own hour |
| `ColdStore.ScanDay` | packages/parquet/src/parquet-cold-store.ts:446-450 | the walk over one day's hours keeps what decides the newest `limit`, whether it stops early or not |
| `ColdStore.Query` | packages/parquet/src/parquet-cold-store.ts:200-202 | the newest `limit` matches of the whole tier, or all of them, under exactly that condition |
| `ColdStore.Find` | packages/parquet/src/parquet-cold-store.ts:204-216 | an entry with the id if and only if the tier holds one; the UUIDv7 window changes nothing |
| `ColdStore.Write` | packages/parquet/src/parquet-cold-store.ts:176-197 | one file per type and hour, each with exactly its partition's entries, oldest first |
| `ColdStore.WriteKeepsTier` | packages/parquet/src/parquet-cold-store.ts:162-197 | archiving a batch keeps the tier readable and adds exactly the batch |
| `Compaction.StepKeeps` | packages/parquet/src/parquet-cold-store.ts:330-402 | every step of every concurrent compaction keeps the invariant that what was removed is in a later file |
| `Compaction.RunKeeps` | packages/parquet/src/parquet-cold-store.ts:330-402 | the invariant holds in every reachable state |
| `Compaction.NothingDisappears` | packages/parquet/src/parquet-cold-store.ts:396-402 | in every reachable state the listed files hold every key ever written, and the last file of a key is neither removed nor about to be |
| `Compaction.ReadHourComplete` | packages/parquet/src/parquet-cold-store.ts:455-475 | over listings that are one step, an unlimited read of an hour throws or returns every key written before it began, and no key that was not written |
| `Compaction.ReadHourUndisturbed` | packages/parquet/src/parquet-cold-store.ts:461-463 | with no removal meanwhile the first attempt returns everything |
| `Compaction.ReadHourThrows` | packages/parquet/src/parquet-cold-store.ts:461-475 | a read throws if and only if each of its two listings named a file that was removed before it was read; so the retry succeeds when nothing is removed any more |
| `Compaction.PlanMerge` | packages/parquet/src/parquet-cold-store.ts:350-400 | the files a merge writes are a plan the state machine accepts |
| `Compaction.DirectoryListingComplete` | packages/parquet/src/location.ts:71-96 | a directory listing, which is not one step, holds every key there was when the names were read, unless before the last status is read a merge writes an output and a file is removed |
| `Compaction.ReadHourFromDirectory` | packages/parquet/src/parquet-cold-store.ts:455-475 | over directory listings too a read throws or returns every key, under the same condition on the steps |
| `Compaction.DirectoryListingMisses` | packages/parquet/src/location.ts:83-94 | a run in which such a listing is empty although no key was lost, and the read of the hour returns nothing without failing |
| `Tiered.HotGetFacts` | packages/testing/src/storage-conformance.ts:155-252 | the keyset contract of a hot store: the newest `count` hits behind the cursor, a next cursor exactly when there are more |
| `Tiered.HotHits` | packages/parquet/src/tiered-storage.ts:200-206 | the rewritten hot query finds what was asked for and exactly the ties to skip |
| `Tiered.HotPage` | packages/parquet/src/tiered-storage.ts:199-230 | from a store that changes between reads: descending hits, none missed that stayed unless the page is full of newer ones; from a store at rest the newest `count` exactly within the budget |
| `Tiered.HotPageComplete` | packages/parquet/src/tiered-storage.ts:209-229 | within the tie budget an entry that stayed is on the hot page, or the page is full of newer ones |
| `Tiered.HotPageExact` | packages/parquet/src/tiered-storage.ts:26-33 | on a store at rest the hot page is exact if and only if there is no hit, at most 19 pages of ties, or at most 20 pages in all |
| `Tiered.HotPagePastBudget` | packages/parquet/src/tiered-storage.ts:26-33 | a store at rest with more than 19 pages of ties, whose hot page misses the only entry asked for |
| `Tiered.ColdQueryHits` | packages/parquet/src/tiered-storage.ts:135-148 | narrowing the cold query by found ids and the hot floor loses only hits that cannot matter |
| `Tiered.MakePageOK` | packages/parquet/src/tiered-storage.ts:232-242 | merging, deduplicating and cutting gives a right page and an exact next cursor |
| `Tiered.Get` | packages/parquet/src/tiered-storage.ts:127-159 | one page: only hits, descending; every hit stored when it began is on it or older than a full page; at rest exactly the newest `limit`, with a next cursor exactly when there are more. It needs the tie budget of the hot reads alone, and of the cold tier that no repeated row hides one of its newest `limit + 1` hits |
| `Tiered.NoRepeatsOK` | packages/parquet/src/parquet-cold-store.ts:425-430 | a tier without repeated ids in an hour meets that condition for every query and limit |
| `TieredRun.NothingLost` | packages/parquet/src/parquet-cold-store.ts:162-173 | archive write then hot delete never hides an entry, and copies always agree |
| `TieredRun.TiersHold` | packages/parquet/src/parquet-cold-store.ts:162-173 | at any time the tiers together hold exactly what was stored, the cold tier what was written to it, the hot store what was stored and not deleted since |
| `TieredRun.ReadsSeeEverything` | packages/parquet/src/tiered-storage.ts:134-158 | reading hot before cold, a `get` sees everything stored when it began, whatever steps fall between |
| `TieredRun.GetDuring` | packages/parquet/src/tiered-storage.ts:127-159 | a `get` made during any run gives a right page between what was stored when it began and when it ended; only the ties its own hot reads saw are bounded |
| `TieredRun.ColdFirstMisses` | packages/parquet/src/tiered-storage.ts:134-158 | a run in which reading the cold tier first would miss an entry |
| `TieredRun.PagingIsComplete` | packages/testing/src/storage-conformance.ts:175-190 | following the cursor while entries are stored and archived: strictly newest first, nothing twice, nothing not asked for, and at the end nothing missed of what was stored at the start |
| `TieredRun.PagingWhileArchiving` | packages/testing/src/storage-conformance.ts:175-190 | with only archiving going on the pages are exactly everything asked for, newest first |
| `TieredRun.PagingEnds` | packages/parquet/src/tiered-storage.ts:232-240 | paging ends: every page but the last is full of new hits |
| `LexKey.FixedOrder` | packages/redis/src/lex-key.ts:27-29 | on padded digits string order is number order |
| `LexKey.MemberOrder` | packages/redis/src/lex-key.ts:18-20 | member order is reversed time order, and id order within a millisecond |
| `LexKey.IdInverts` | packages/redis/src/lex-key.ts:32-34 | `idFromMember` inverts `lexMember` for every id, even one with a `:` |
| `LexKey.BeforeExact` | packages/redis/src/redis-storage-provider.ts:759-764 | the `before` bound selects exactly the strictly earlier entries if and only if the instant is after the epoch |
| `LexKey.AfterExact` | packages/redis/src/redis-storage-provider.ts:772-777 | the `after` bound selects exactly the strictly later entries if and only if the instant is not before the epoch |
| `RedisIndexes.IndexEntryFacts` | packages/redis/src/redis-storage-provider.ts:166-183 | a store adds the member to exactly the indexes its entry belongs to |
| `RedisIndexes.AddEntryKeeps` | packages/redis/src/redis-storage-provider.ts:166-183 | storing a fresh id keeps all indexes, batches and tag counts in agreement with the entry map |
| `RedisIndexes.StoreAgreement` | packages/redis/src/redis-storage-provider.ts:166-183 | storing keeps the agreement if and only if the id is fresh or its old entry left no reference and no tag that the new one lacks |
| `RedisIndexes.RemoveMemberFacts` | packages/redis/src/redis-storage-provider.ts:492-503 | removing a member takes it out of every index and leaves the rest |
| `RedisIndexes.DecrementKeeps` | packages/redis/src/redis-storage-provider.ts:116-124 | the tag script keeps counts exact, with no zero kept |
| `RedisIndexes.RemovalKeeps` | packages/redis/src/redis-storage-provider.ts:466-515 | a whole removal, pipeline and tag script, keeps the agreement and removes exactly its members |
| `RedisIndexes.UpdateAgreement` | packages/redis/src/redis-storage-provider.ts:385-398 | an update keeps the agreement if and only if the patch leaves every indexed field alone |
| `RedisStore.Redis.Store` | packages/redis/src/redis-storage-provider.ts:163-185 | afterwards the ids are the old ones and those of the batch, each of the batch with its last entry and every other as it was; each index and batch set gained exactly the members of the entries that belong to it; each tag count grew by its occurrences; under fresh ids the agreement is kept |
| `RedisStore.AllStored` | packages/redis/src/redis-storage-provider.ts:163-185 | the same of the commands of any batch, repeated ids and drifted indexes included |
| `RedisStore.Redis.Update` | packages/redis/src/redis-storage-provider.ts:387-398 | for any state, the entry is replaced and no index touched; a missing id is left alone; an agreement there was is kept if and only if the patch is index-neutral |
| `RedisStore.Redis.RemoveMembers` | packages/redis/src/redis-storage-provider.ts:466-515 | exactly the members not spared are gone with all that indexed them, and both counts are right |
| `RedisStore.Redis.PruneWith` | packages/redis/src/redis-storage-provider.ts:434-455 | exactly the deletable members past the newest `keepLast` old ones are gone |
| `RedisStore.PruneLeaves` | packages/redis/src/redis-storage-provider.ts:434-455 | without `keepLast` what is left are exactly the entries outside the scope; with it that many of the newest old ones stay |
| `RedisPrunes.PruneLeavesExactly` | packages/redis/src/redis-storage-provider.ts:434-455 | an entry goes if and only if it is in the index, older than the cutoff, of no excluded type, and behind at least `keepLast` other old entries of the index |
| `RedisPrunes.PlaceIsRank` | packages/redis/src/redis-storage-provider.ts:440-450 | an old entry's place in the range is the number of old entries newer than it, or of its millisecond with a smaller id |
| `RedisStore.ScopeIsOld` | packages/redis/src/redis-storage-provider.ts:440-446 | the pruned range holds exactly the index's entries created before the cutoff |
| `RedisStore.Redis.PruneScopedBatch` | packages/redis/src/redis-storage-provider.ts:532-564 | a prefix of the scope, oldest first, was looked at and its deletable members are gone, at most `limit`; `hasMore: false` leaves none, and `hasMore: true` short of `limit` means the budget was spent |
| `RedisPrunes.BatchOnEntries` | packages/redis/src/redis-storage-provider.ts:532-564 | on entries: exactly `deleted` are gone, all of the given type, or of no excluded one, and older than the cutoff, each behind every such entry that is left; `hasMore: false` leaves none, and for a given type `hasMore: true` means the limit was met |
| `RedisStore.RangeAfter` | packages/redis/src/redis-storage-provider.ts:518-524 | after any number of scanned members the range starts with exactly the spared ones |
| `RedisStore.Redis.Clear` | packages/redis/src/redis-storage-provider.ts:224-231 | nothing is left, in agreement |
| `RedisGet.RangeContinues` | packages/redis/src/redis-storage-provider.ts:288-289 | excluding up to the last member read leaves exactly the rest of the range |
| `RedisGet.ScanIndex` | packages/redis/src/redis-storage-provider.ts:274-304 | the scan terminates and stops only at the range's end or at a millisecond boundary with more than `limit` kept |
| `RedisGet.ScanDecides` | packages/redis/src/redis-storage-provider.ts:286-288 | what is kept when it stops decides the newest `limit` and whether there are more |
| `RedisGet.FoundIsWanted` | packages/redis/src/redis-storage-provider.ts:745-830 | one index, the range bounds and the remaining filters select exactly what was asked for |
| `RedisGet.Get` | packages/redis/src/redis-storage-provider.ts:248-317 | a page is exactly the newest `limit` of what the range and filters select, with an exact next cursor |
| `RedisGet.GetPage` | packages/testing/src/storage-conformance.ts:155-252 | within the codec's range of time the Redis page is the newest `limit` of what was asked for: the contract the tiered provider needs of a hot store |
| `RedisGet.GetByIds` | packages/redis/src/redis-storage-provider.ts:325-361 | reading by ids is exact if and only if no hit asked for more than once has fewer than `limit - 1` fetched rows, repeats counted, newer than it; the next cursor is right if and only if the fetched rows fit the page or more hits than fit exist |
| `RedisGet.RepeatedId` | packages/redis/src/redis-storage-provider.ts:325-361 | an id asked for twice: the page holds its entry twice |
| `ClickHouseSeen.StepKeeps` | packages/clickhouse/src/clickhouse-storage-provider.ts:431-471 | every read, insert, conditional update and read-back keeps the claim invariant |
| `ClickHouseSeen.TrueSightingsApart` | packages/clickhouse/src/clickhouse-storage-provider.ts:420-430 | any two calls that report a new family are at least a window apart, in claim order |
| `ClickHouseSeen.LastSeenGrows` | packages/clickhouse/src/clickhouse-storage-provider.ts:452-463 | `last_seen` never decreases and the row never goes away |
| `ClickHouseSeen.OneFirstSighting` | packages/clickhouse/src/clickhouse-storage-provider.ts:437-451 | of racing first sightings within a window at most one reports new, and, once any call has returned, exactly one unless the claiming call failed after its write took effect |
| `ClickHouseSeen.SightingRecorded` | packages/clickhouse/src/clickhouse-storage-provider.ts:420-422 | a finished call is unrecorded if and only if it lost the race for an expired family or all its attempts; one answered "not new" by a refresh has another writer less than a window before it |
| `ClickHouseSeen.RecordedAlone` | packages/clickhouse/src/clickhouse-storage-provider.ts:431-471 | a call is recorded whenever no other call's write takes effect between its last read and its end |
| `ClickHouseSeen.LastSeenIsLatest` | packages/clickhouse/src/clickhouse-storage-provider.ts:452-463 | `last_seen` is the latest time of the calls that wrote |
| `ClickHouseSeen.LostSightingUnrecorded` | packages/clickhouse/src/clickhouse-storage-provider.ts:420-422 | a run in which a sighting is not recorded: the loser of a race for an expired family |
| `ClickHouseSeen.GaveUpUnrecorded` | packages/clickhouse/src/clickhouse-storage-provider.ts:466-470 | a run in which a call that loses every attempt is not recorded |
| `ClickHouseAnswers.AnswerAlone` | packages/clickhouse/src/clickhouse-storage-provider.ts:420-465 | an undisturbed call reports the family as new if and only if it had never been seen, or was last seen a window or more before |
| `ClickHouseAnswers.ReturningIsNew` | packages/clickhouse/src/clickhouse-storage-provider.ts:452-465 | such a run: a family that comes back after its window is reported |
| `ClickHouseAnswers.OvertakenByLater` | packages/clickhouse/src/clickhouse-storage-provider.ts:424-428 | a finished call claimed the family if and only if it reported it or was overtaken, by a claim at least a window later |
| `ClickHouseAnswers.GivesUpCrowded` | packages/clickhouse/src/clickhouse-storage-provider.ts:441-470 | a call gives up only when at least 20 other calls wrote since it began |
| `ClickHouseAnswers.LostExactly` | packages/clickhouse/src/clickhouse-storage-provider.ts:452-465 | a call loses the race if and only if `last_seen` moved on between its last read and its claiming update |
| `ClickHouseAnswers.LostToRefresh` | packages/clickhouse/src/clickhouse-storage-provider.ts:420-422 | a run in which a due family is reported by no call, because an earlier-stamped one refreshed it meanwhile |
| `ClickHouseEntries.FinalIsMap` | packages/clickhouse/src/schema.ts:96-98 | the FINAL view shows one row per id, of the greatest version written for it |
| `ClickHouseEntries.MergeKeeps` | packages/clickhouse/src/schema.ts:96-98 | partial background merges change nothing that is seen |
| `ClickHouseEntries.UpdateKeeps` | packages/clickhouse/src/clickhouse-storage-provider.ts:171-193 | an update keeps that view right whatever its patch moves, away and back |
| `ClickHouseEntries.FinalIsPlain` | packages/clickhouse/src/clickhouse-storage-provider.ts:161-193 | after any run the FINAL view is the plain map with patches applied, each id at the greatest version ever written for it |
| `ClickHouseEntries.NextVersionIncreases` | packages/clickhouse/src/clickhouse-storage-provider.ts:505-509 | `nextVersion` increases exactly when the clock moved forward, or stood still and the counter did not wrap |
| `ClickHouseEntries.RacingUpdates` | packages/clickhouse/src/clickhouse-storage-provider.ts:171-193 | of two updates from one read, at different versions, one row is left if and only if both end at one key, or one stayed at the key and its version is below the other's |
| `ClickHouseEntries.RacingUpdatesInOrder` | packages/clickhouse/src/clickhouse-storage-provider.ts:171-193 | the same for any versions, equal ones included, where the row inserted last wins |
| `ClickHouseEntries.ShownIsVisible` | packages/clickhouse/src/schema.ts:96-98 | that order of insertion matters only among rows of one key and one version |
| `ClickHouseEntries.ClickHouse.Store` | packages/clickhouse/src/clickhouse-storage-provider.ts:161-169 | exactly the stored entries are added to the view |
| `ClickHouseEntries.ClickHouse.Update` | packages/clickhouse/src/clickhouse-storage-provider.ts:171-193 | exactly the patch is applied, at a higher version, whatever the clock says; a missing id is left alone |
| `MikroPrune.OldestKFacts` | packages/mikro-orm/src/mikro-orm-storage.provider.ts:230-234 | the selected rows are `limit` of the scope or all of it, and the others are newer |
| `MikroPrune.EntryTable.PruneOldestBatch` | packages/mikro-orm/src/mikro-orm-storage.provider.ts:225-240 | exactly the oldest `limit` rows of the scope are gone, and `hasMore` says whether the limit was met |
| `MikroPrune.EntryTable.DistinctTypes` | packages/mikro-orm/src/mikro-orm-storage.provider.ts:246-258 | exactly the stored types, strictly ascending, and it terminates |
| `MikroPrune.EntryTable.PruneScopedBatch` | packages/mikro-orm/src/mikro-orm-storage.provider.ts:798-822 | at most `limit` rows, all older than the cutoff and of the type given or of no excluded one; what is left of a type is later than all of it that is gone, or of the same instant with the greater id; every inner batch has a limit of at least 1; `hasMore: false` leaves nothing in scope |
| `MikroLease.StepKeeps` | packages/mikro-orm/src/mikro-orm-storage.provider.ts:824-864 | every step keeps: an unexpired, unreleased lease is the row |
| `MikroLease.OneHolder` | packages/mikro-orm/src/mikro-orm-storage.provider.ts:824-857 | at most one owner holds the lease at any time, while no clock runs ahead |
| `MikroLease.LateRelease` | packages/mikro-orm/src/mikro-orm-storage.provider.ts:859-864 | a release, however late, leaves any other owner's row, expired or not, whatever the clocks |
| `MikroLease.ReleaseFrees` | packages/mikro-orm/src/mikro-orm-storage.provider.ts:859-864 | a release by the row's owner leaves no row, whatever the clocks |
| `MikroLease.ReleasedIsGranted` | packages/mikro-orm/src/mikro-orm-storage.provider.ts:824-864 | after it the next owner to call, undisturbed, ends with the lease, whatever its clock says |
| `MikroLease.FreeKeyGranted` | packages/mikro-orm/src/mikro-orm-storage.provider.ts:824-864 | such a run: one owner releases and another acquires |
| `MikroLease.HolderKeeps` | packages/mikro-orm/src/mikro-orm-storage.provider.ts:824-864 | a holder loses its lease only to time or to its own steps |
| `MikroLease.FastClockSteals` | packages/mikro-orm/src/mikro-orm-storage.provider.ts:836-846 | a run with two holders when a caller's clock is ahead |
| `MikroLease.UpdateSteals` | packages/mikro-orm/src/mikro-orm-storage.provider.ts:836-846 | whatever the clocks, another owner's update takes a held row exactly when its `now` is at or past the expiry |
| `MikroLease.RefusedByLease` | packages/mikro-orm/src/mikro-orm-storage.provider.ts:836-846 | an update is refused if and only if the row is another owner's, unexpired by the caller's clock, and then changes nothing |
| `MikroLease.AcquireAlone` | packages/mikro-orm/src/mikro-orm-storage.provider.ts:836-855 | over whole runs, a call undisturbed from its start ends with the lease if the key was free, expired by its clock, or its own |
| `MikroRollups.NormalizedMerge` | packages/core/src/rollup/rollup-store.ts:52-73 | merging normalizes both sides and adds cell by cell |
| `MikroRollups.UpsertsCommute` | packages/mikro-orm/src/mikro-orm-storage.provider.ts:1027-1074 | two upserts commute, on one bucket or two, present or not |
| `MikroRollups.FoldPermutation` | packages/mikro-orm/src/mikro-orm-storage.provider.ts:889-899 | what is stored depends on which deltas came, not on their order |
| `MikroRollups.MergeDeltasByBucket` | packages/mikro-orm/src/mikro-orm-storage.provider.ts:1002-1020 | one delta per key in strictly ascending order, adding up to what was given |
| `MikroRollups.MergedFoldsSame` | packages/mikro-orm/src/mikro-orm-storage.provider.ts:913 | pre-merging by bucket changes nothing that is stored |
| `MikroRollups.RollupTable.RecordRollups` | packages/mikro-orm/src/mikro-orm-storage.provider.ts:902-930 | chunks of 100 store exactly the fold of all deltas |
| `MikroRollups.RollupTable.RecordRollupsReadModifyWrite` | packages/mikro-orm/src/mikro-orm-storage.provider.ts:932-963 | the transactional fallback stores the same fold |
| `MikroRollups.ConcurrentWriters` | packages/mikro-orm/src/mikro-orm-storage.provider.ts:889-899 | any interleaving of concurrent writers stores every delta of all of them exactly once |
| `MikroRollups.FoldTotals` | packages/core/src/rollup/rollup-store.ts:80-90 | a bucket's count, sum and cells are the totals of its deltas and its max their greatest |
| `RedisRollups.ScriptAdds` | packages/redis/src/redis-storage-provider.ts:91-108 | the script adds a delta exactly if and only if its sum is a whole number |
| `RedisRollups.ScriptInserts` | packages/redis/src/redis-storage-provider.ts:91-108 | on a new bucket it stores the delta itself if and only if its sum is a whole number |
| `RedisRollups.ScriptAfterFailure` | packages/redis/src/redis-storage-provider.ts:91-108 | on a bucket left by a first script that failed, it adds the delta if and only if the sum is whole and the maximum is not negative |
| `RedisRollups.FailedFirst` | packages/redis/src/redis-storage-provider.ts:91-108 | a fractional first sum leaves such a bucket: the count is stored, nothing else |
| `RedisRollups.ScriptsFold` | packages/redis/src/redis-storage-provider.ts:602-627 | with whole sums, what is read back after any scripts is the fold of all deltas, legacy histograms included |
| `Recency.PutLast` | packages/core/src/alerts/new-exception-tracker.ts:51-67 | using a key commutes with the bound: evicting early loses nothing the bound would keep |
| `Recency.BoundedKnows` | packages/core/src/alerts/new-exception-tracker.ts:5-12 | the bounded map knows a key's last use exactly until `cap` other keys were used since |
| `Alerts.NewExceptionTracker.Observe` | packages/core/src/alerts/new-exception-tracker.ts:41-52 | never over its cap; new unless really seen within the window with fewer than `maxFamilies` others since |
| `Alerts.NewExceptionTracker.EvictIfNeeded` | packages/core/src/alerts/new-exception-tracker.ts:60-67 | the most recent `maxFamilies` are left |
| `Alerts.SpacedPush` | packages/core/src/alerts/telescope-alerter.ts:404-427 | a fire outside its cooldown keeps all fires spaced |
| `Alerts.FiresApart` | packages/core/src/alerts/telescope-alerter.ts:419-427 | while no clock was evicted any two fires of one rule and family are a cooldown apart |
| `Alerts.TelescopeAlerter.EvaluateFlush` | packages/core/src/alerts/telescope-alerter.ts:171-202 | exactly the exceptions of either kind with a family are queued, in the order stored, behind the earlier flushes, unless no rule asks for them or that would exceed 10,000 pending ones, which is warned of once |
| `Alerts.TelescopeAlerter.RunFlush` | packages/core/src/alerts/telescope-alerter.ts:192-202 | after an evaluation, failed or not, pending is the sum of the unfinished flushes, fires stay spaced, and every fire added is one that an entry of the flush calls for |
| `Alerts.TelescopeAlerter.EvaluateExceptions` | packages/core/src/alerts/telescope-alerter.ts:209-246 | every fire added, even when a dispatch throws, is called for by an entry of its family: `every-exception` by any, `new-exception` by one the shared store calls new or, without its answer, whose family was not both seen within the window and followed by fewer than `maxFamilies` others; and unless a dispatch throws, whatever is called for has been alerted, now or within its cooldown |
| `Alerts.DueMember` | packages/core/src/alerts/telescope-alerter.ts:215-240 | a key is called for if and only if some entry of its family calls for it |
| `Alerts.FirstIsDue` | packages/core/src/alerts/telescope-alerter.ts:220-224 | the first entry of a family not seen within the window before the flush calls for `new-exception` |
| `Alerts.SeenIsNotDue` | packages/core/src/alerts/telescope-alerter.ts:220-229 | a family seen within the window before the flush does not, whatever else the flush holds, while the tracker has room |
| `Alerts.TelescopeAlerter.CheckNew` | packages/core/src/alerts/telescope-alerter.ts:220-229 | fires if and only if the family is reported new and is not in cooldown; reported new, it has been alerted |
| `Alerts.TelescopeAlerter.CheckEvery` | packages/core/src/alerts/telescope-alerter.ts:231-240 | fires if and only if the family is not in cooldown; either way it has been alerted |
| `Alerts.TelescopeAlerter.MarkFamilyFired` | packages/core/src/alerts/telescope-alerter.ts:404-417 | the clock is stamped, and fires stay spaced or their clock was evicted |

## Left out

- Tiered.Get: assumes no cold failure, no expiry and no update of an entry while it is archived; the cold read sees one state of the tier.
- Tiered.HotGetFacts: a hot store's result for an id asked for twice is not modelled; such a store may repeat the entry, which the merged page drops.
- ColdStore.Scan: the tier is one listing; files that come and go between the listings of two days are the subject of the compaction machine, for one hour and without a limit.
- Compaction.DirectoryListingComplete: one way; a listing during which an output was written and an unrelated file removed is complete too.
- Compaction.NothingDisappears: files that retention removes, and `clear`, are outside the machine.
- RedisGet.Get: index and entries are one snapshot; the content-less `m:<id>` copies are read as the entry without its content.
- RedisStore.Redis.Clear: the SCAN and DEL walk is one step; keys written while it runs are not modelled.
- RedisStore.Redis.RemoveMembers: the pipeline and the tag script are one step; another writer between them is not modelled.
- ClickHouseEntries.ClickHouse.Store: ids are fresh, as the recorder draws them; storing an id again is not modelled.
- MikroPrune.EntryTable.PruneOldestBatch: the rows selected are still there when they are deleted; a second pruner racing this one is not modelled.
- MikroRollups.RollupTable.RecordRollups: sums and maxima are exact reals, without floating-point rounding.
- Alerts.TelescopeAlerter.RunFlush: an evaluation is one step, as the queue runs one at a time and nothing else touches its maps.
- The interval rules, payloads, channels and diagnosis of the alerter: windowed counts and formatting.
- DuckDB as the cold engine, Parquet encoding, compression, bloom filters and byte ranges, S3 and file system calls: foreign libraries.
- `ParquetColdStore.batch` and `tags`, and the tiered `batch` and `tags`: approximate by design.
- `compact`, `maintain` and `expire` scheduling, and file keys as strings: a partition is kept as a value.
- Redis leases: each script is one atomic command on one key, so only an easy member would be added. Redis `find`, `batch` and `tags` and the MikroORM and ClickHouse `get`: a query each.
- Lower-casing beyond ASCII, and the order of strings as UTF-16 code units in JavaScript or UTF-8 bytes in Redis: ids and text are sequences of characters compared one by one.
- JSON parsing of stored entries, unreadable rows and dates that are not numbers.
- Schema creation, fingerprints and advisory locks, and the ClickHouse rollup table.
