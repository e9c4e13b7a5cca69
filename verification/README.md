# Traza in Dafny

Traza is a trace store: spans are buffered, sealed into segments and queried, and beside them it keeps evaluation datasets,
annotations, erasure records and generations of its own files. This project models the parts of it in which a fast,
incremental or crash-exposed form has to agree with a simple one, and proves that it does, or exactly when it does.

| file | what it models |
|---|---|
| `Counters`, `Sessions`, `Measures`, `Rollup`, `AnalyticsFold` | last-write-wins analytics over a buffer and segments, with cached rollups and a lossy hash prefilter, against "newest version of each key, then filter, then count" |
| `MigrationState`, `Migration`, `Migrator` | converting a store in place, killed at any write |
| `SegmentV7`, `MigrationV7` | the frozen decoder of v7 segments, and the migration with it put in |
| `LineLog` | the line-per-record logs and their healing open |
| `CanonicalJson`, `EvalState`, `EvalText`, `EvalContent`, `EvalReread`, `EvalLog`, `EvalPurge`, `EvalRuns`, `EvalNulls`, `Scores` | the evaluation log: content addresses, operations, the tenant purge, whole runs with reopens and what they lose, and the comparison of scores |
| `Erasure`, `ErasureLog`, `Occurrences` | erasure masks, redaction, the erasure log and the counting of occurrences in files |
| `Annotations` | annotations, their indexes, searches and rewrites |
| `Crc`, `CrcDivision`, `Base64`, `Zlib`, `Gif` | checksums and encoders, against decoders of their formats |
| `Calendar`, `Instants`, `DepthFirst` | timestamps, the calendar, and the depth-first order of a trace |
| `Wire`, `OtlpValues`, `OtlpRoundTrip`, `OtlpSpans`, `OtlpRequest` | decoding protobuf trace exports |
| `Histogram`, `Insights` | latency buckets and percentiles, time series, failure groups, slowest spans |
| `Content` | tokens and Bloom filters |
| `Generation` | digests, verification and installation of a generation |
| `Attribution` | the cause of a failed run and self-repetition depth |
| `Common` | options, results, bytes and 64-bit arithmetic |

Code that works step by step is a method with its loops, and objects that are updated in place are classes; each such method
is proved against a function or a predicate, and the lemmas say what that function means. A process that can be killed has a
budget of atomic writes, or a relation between the states a kill can leave. Hashes, compression, UTF-8 and the JSON parser
and printer are functions the model takes as parameters, together with the little each proof needs to know of them.

Where the code and what is said of it differ, the model follows the code:

- A migration killed half-way is resumed to the same end exactly when the live manifest does not declare v8 yet
  (`Migration.ResumeGuaranteed`). A store that declares it and still has a legacy pin can be left with a pin that does not
  verify (`Migration.OldPinIsLeftUnverifiable`).
- The comment on `install_staged` (`src/generation.rs:492-506`) says that a crash before CURRENT moves leaves the prior store.
  The prior working set is removed first, so it is left only when nothing of it is in the way
  (`Generation.OldGenerationOutlivesKills`). What holds is that the install can be run again (`KilledInstallsConverge`).
- A manifest lists `segment-x/y.seg`, the removal before an install does not reach it (`Generation.OnlyListedFilesAreLive`).
- `AnnotationQuery` says that every supplied field must match (`src/annotations.rs:127-131`); with an experiment and a trace,
  the trace is not looked at (`Annotations.SearchIsExact`).
- `parse_iso` refuses what `rfc3339` prints for instants past 2262-04-11T23:47:16Z (`Instants.RoundTrip`).
- `bucket_upper_bound` is one too low for `u64::MAX` only (`Histogram.BoundBrackets`).
- `count_only` promises to leave the percentiles to what was timed (`src/metrics.rs:112-118`). It does exactly when the count
  it raised asks for the same rank among the durations (`Histogram.CountOnlyKeepsThePercentile`); with 1 ns and 100 ns timed
  and two events counted, the median reported is 100 ns (`Histogram.CountOnlyMovesTheMedian`).
- A segment is written in the order of its spans' starts (`src/segment.rs:1957-1970`), and the v7 decoder compares no starts
  within a block. A migrated segment keeps the order of its v7 file exactly when the starts never descend
  (`MigrationV7.FileOrderKept`); two records that start at 5 and 3 change places (`MigrationV7.DescendingStartsSwap`).
- `migrate_pin` takes every moved blob for one its blob pass has proved (`src/migration.rs:677-683`). A blob directly under
  `payloads/`, or more than one directory down, is one the pass never looks at, and its moved digest is accepted unproved
  (`MigrationState.ReacceptedAreProved`).
- An optional JSON value that is null is written and read back as absent (`src/evals.rs:133-134`, `202-203`, `234-235`), so an
  eval log comes back as it was written exactly when no example expects a null, no version's provenance is one and no
  experiment's configuration is one (`EvalReread.ReopenIsExact`, `EvalNulls.ReopenKeepsMemory`); a body that expected a null
  is afterwards not the one its address is of (`EvalNulls.NullIsLost`). Ids and everything else a run keeps do not depend on
  it (`EvalRuns.RunsStayConsistent`).
- A log with a record the parser refuses, one that nests too deep, is written and then not opened again
  (`LineLog.OpensExactly`).
- Id allocators saturate: the last `u64` would be given again (`EvalState.NextIdIsNew`, `ErasureLog.NextIdIsNew`).

## Model

| member | source | states |
|---|---|---|
| Counters.AbsorbIsMerge | src/analytics.rs:275-335 | absorbing a span is merging in the counters of that one span, so both ways of building a row agree |
| Measures.TallyMeasures | src/analytics.rs:275-311 | one clause a field: spans, calls, prompt, completion and total tokens, dollars, priced and unpriced calls, errors and durations of a row are the sums over the spans of its group, said without absorbing or merging |
| Measures.RowsMeasure | src/analytics.rs:275-311 | rows are there for exactly the groups that some span joins by what it says of itself |
| Measures.SessionsMeasure | src/analytics.rs:361-383 | a session row has the extremes, the traces and the naming attribute of the spans of its session |
| Counters.MergeAssociative | src/analytics.rs:313-335 | merging counters is associative although every sum saturates at `u64::MAX` |
| Counters.RowsAppend | src/analytics.rs:928-1007 | the rows of a concatenation are the rows of its parts merged group by group |
| Counters.EnumerationsPermute | src/analytics.rs:1025-1242 | two lists that hold each span of a set exactly once are permutations of each other |
| Counters.RowsPermute | src/analytics.rs:275-335 | rows do not depend on the order spans come in |
| Sessions.MergeDescribes | src/analytics.rs:373-383 | merging in the row of some spans describes the spans of both: counts, bounds and the preferred first and last spans |
| Sessions.AbsorbDescribes | src/analytics.rs:361-371 | absorbing one span into a session row describes the spans with it |
| Rollup.Build | src/analytics.rs:473-534 | building a rollup over a segment gives exactly the rows of its spans in every dimension, their time bounds and the hashes of their keys |
| AnalyticsFold.SupersededByNewer | src/analytics.rs:1025-1242 | a span is superseded exactly when some newer segment holds its key |
| AnalyticsFold.NotSuperseded | src/analytics.rs:1380-1412 | when no key hash of a segment was seen in anything newer, none of its keys is in anything newer, whatever collides |
| AnalyticsFold.SegmentStep | src/analytics.rs:1025-1242 | adding the unsuperseded wanted spans of the next older segment keeps the enumeration of newest wanted versions exact |
| AnalyticsFold.Shadowed | src/analytics.rs:1380-1412 | the gate tells exactly whether a rollup shares a key hash with newer segments or with the buffer |
| AnalyticsFold.FoldAnalytics | src/analytics.rs:1025-1242 | whichever rollups are found in the cache or a sidecar and whichever path a segment takes, the spans behind the visits are the newest versions that window, tenant and erasure mask admit, once each |
| AnalyticsFold.TenantRows | src/analytics.rs:1492-1498 | narrowing unscoped session rows to a tenant gives the rows of that tenant's spans |
| AnalyticsFold.ReferenceMeans | src/analytics.rs:1025-1242 | the newest wanted versions are the spans buffered, or held by a segment with their key in nothing newer, that begin in the window, belong to the tenant and are not masked |
| AnalyticsFold.LlmAggregateIn | src/analytics.rs:928-1007 | the answer has a row for exactly the groups some newest wanted version joins, and every field of a row is the sum of its own measure over those versions, capped at `u64::MAX` |
| AnalyticsFold.SessionsIn | src/analytics.rs:611-669 | so have the session rows, before ranking, with the earliest start, the latest end, exactly the traces, and the first of the session attributes in their order of precedence |
| Migration.WorkStepKeeps | src/migration.rs:385-741 | no rewrite of a segment, blob, pin manifest or unpublished manifest moves the state the migration is heading for, and none moves CURRENT |
| Migration.GoalIsSettled | src/migration.rs:224-254 | at the goal the live manifest declares v8, no legacy segment is left and an open finds nothing to do |
| Migration.GoalMeaning | src/migration.rs:385-783 | the goal keeps every live and pinned segment under its name with its records at v8, every blob with its content, makes pin digests match their files and leaves the folded position alone |
| Migration.WorkOffLegacy | src/migration.rs:101-217 | an uninterrupted stretch of file rewrites always exists that leaves no legacy segment and has published nothing |
| Migration.ResumeReachesGoal | src/migration.rs:101-217 | for a store that does not declare v8: crashes at any writes of any number of opens, then one completed open, leave the state an uninterrupted open would have left |
| Migration.DeclarationImpliesMigrated | src/migration.rs:758-783 | at every moment of every such history a published v8 declaration means no legacy segment remains |
| Migration.ResumeGuaranteed | src/migration.rs:224-254 | resuming always reaches the goal exactly for the stores whose live manifest does not declare v8 yet |
| Migration.DeclaredStoreStopsShort | src/migration.rs:224-254 | a triggered store that already declares v8 has a history in which a completed open leaves it short of the goal |
| Migration.OldPinIsLeftUnverifiable | src/migration.rs:621-741 | a concrete such store: an old pin, one crash between its file pass and its manifest rewrite, and a manifest that no longer verifies after the next open completes |
| Migrator.Store.ConvertFile | src/migration.rs:385-454 | a file is rewritten to its converted form or refused, exactly as a pass accepts it |
| Migrator.Store.SegmentPass | src/migration.rs:101-217 | the segment pass converts every segment of a tree, or stops at one that does not convert |
| Migrator.Store.BlobPass | src/migration.rs:524-586 | the blob pass converts every blob one directory below `payloads/`, or refuses because one is in neither format |
| MigrationState.ReacceptedAreProved | src/migration.rs:588-605 | a manifest digest is replaced only by that of bytes that prove themselves, a segment in full or a blob against its name, exactly for the paths that are not a blob's name at a depth the blob pass skips |
| MigrationState.BlobServesItsName | src/migration.rs:524-586 | a blob is accepted exactly when its bytes, or the ones it decodes to, hash to its name up to the case of letters, and serves only such bytes |
| Migrator.Store.CheckEntries | src/migration.rs:621-741 | a pin is refused exactly when some entry whose digest moved cannot prove itself |
| Migrator.Store.MigratePin | src/migration.rs:621-741 | a pin is brought to its target, files and manifest, or refused because it cannot be |
| Migrator.Store.Complete | src/migration.rs:758-783 | the completion checkpoint writes the next manifest before CURRENT moves to it |
| Migrator.Store.RunAtOpen | src/migration.rs:101-217 | a completed run leaves the goal of the state it started in; one killed after any number of writes leaves that goal where it was; a refusal means the store could not be migrated |
| MigrationV7.HeldPayloads | src/migration.rs:1145-1192 | what a v7 file holds is the payloads of the one record list the decoder finds |
| MigrationV7.MigrateSegment | src/migration.rs:385-454 | a segment is decoded as its format word says, every payload parsed and the spans stably sorted by start and encoded anew, or it is refused |
| MigrationV7.FormatsAreLawful | src/migration.rs:385-454 | that conversion, with the writer's sort in it, meets everything the migration relies on, given that a segment written from sorted records reads back |
| MigrationV7.RecordsSurviveTheMigration | src/migration.rs:101-217 | however often a migration was killed, the open that completes leaves every v7 segment, live or pinned, as a v8 one with the spans of exactly the records the decoder reads from the old file: the same multiset, ascending by start, those that start together in the order of the file |
| MigrationV7.ByStartSorts | src/segment.rs:1957-1970 | the writer's sort is a permutation, ascends by start and keeps the order of spans that start together |
| MigrationV7.OneStableArrangement | src/segment.rs:1957-1970 | no other arrangement of the spans does that |
| MigrationV7.OrderKeptExactly | src/segment.rs:1957-1970 | a list of spans keeps its order exactly when its starts never descend |
| MigrationV7.FileOrderKept | src/segment.rs:1957-1970 | the spans of a migrated v7 file come back in the order of that file exactly when the starts of its records never descend |
| MigrationV7.DescendingStartsSwap | src/migration.rs:1327-1417 | two records that start at 5 and then at 3, which the decoder does not compare within a block, change places |
| SegmentV7.CheckSections | src/migration.rs:1194-1276 | the section check succeeds exactly when the sections tile the file from the header to its end |
| SegmentV7.ParseHeader | src/migration.rs:1194-1276 | the header is accepted exactly when magic, version, length, codec, section tiling and the counts all fit |
| SegmentV7.HeaderLaidOut | src/migration.rs:1194-1276 | the 128 bytes an accepted file begins with, piece by piece: the name, version 7, the length 128, the codec, the count and where each of the six sections lies |
| SegmentV7.DecodeOffsets | src/migration.rs:1278-1299 | the offset index is accepted exactly when it strictly ascends inside the logical bytes and is empty only when they are |
| SegmentV7.DecodeDirectory | src/migration.rs:1301-1374 | the directory is accepted exactly when its blocks tile both the stored and the logical bytes |
| SegmentV7.EntryLaidOut | src/migration.rs:1301-1325 | the 32 bytes of a directory entry, piece by piece, the top bit of the stored length telling a raw block |
| SegmentV7.InflateRecords | src/migration.rs:1379-1417 | every block has its checksum, its length and its first timestamp, and together they are the logical bytes; a refusal means no blocks fit |
| SegmentV7.DecodePairs | src/migration.rs:1422-1464 | the attribute pairs of a record are all there with ascending ids, or no pairs stand there |
| SegmentV7.DecodeRecord | src/migration.rs:1422-1464 | the record standing at an offset and the byte after it, or none stands there |
| SegmentV7.RecordListUnique | src/migration.rs:1145-1192 | no two record lists have the same record bytes |
| SegmentV7.WalkRecords | src/migration.rs:1145-1192 | the walk returns records that tile the logical bytes and start exactly where the index says, or no list does |
| SegmentV7.DecodeSegment | src/migration.rs:1145-1192 | the decoder succeeds exactly when the file holds some record list, and returns it |
| SegmentV7.FileHoldsOneList | src/migration.rs:1145-1464 | a file holds one list of blocks and one list of records |
| SegmentV7.CutAt | src/migration.rs:1379-1417 | every block boundary is a record boundary |
| SegmentV7.BlockHoldsWholeRecords | src/migration.rs:1379-1417 | every block is the stream of its own run of records: none spans two |
| CanonicalJson.EscapedOnce | src/evals.rs:63-67 | a quoted string ends where it says, whatever follows it |
| CanonicalJson.StringReadsBack | src/evals.rs:75-80 | a reader by section 7 of RFC 8259 reads every written string back as its text, whatever follows it |
| CanonicalJson.TextOnce | src/evals.rs:63-103 | the text of a value is read back in only one way up to the delimiter after it, through nested arrays and objects |
| CanonicalJson.SameMembers | src/evals.rs:69-103 | sorting members by key forgets their order and nothing else |
| CanonicalJson.CanonicalIdentifies | src/evals.rs:63-103 | for values with integer numbers, canonical texts are equal exactly when the values are, up to the order of object members |
| CanonicalJson.WriteCanonical | src/evals.rs:69-103 | the recursive writer appends exactly the canonical text to the buffer |
| EvalState.ApplyKeeps | src/evals.rs:443-483 | a record the operations can write keeps every invariant of the state: a body stays under its own address, or under the one it had before a null was lost in a reopen, tenants match owners, parents and tombstones name versions of the same dataset, references are the union over bodies |
| EvalState.RefsAreAtPaths | src/evals.rs:532-556 | the references collected from a value are exactly those that some path of members and items leads to with no redaction marker on the way |
| EvalText.BodyIsAddressedByItsText | src/evals.rs:120-148 | an example is stored under the hash of its members in key order, each under its own name: what is expected where there is something, the input, where it came from, and the split where it is not empty |
| EvalText.VersionIsAddressedByItsText | src/evals.rs:814-826 | a version's id is the hash of its dataset, its example ids with their digests, and its parent or `null`, in that order |
| EvalState.LawfulLogsReplayValid | src/evals.rs:563-602 | every log each of whose records was admitted replays to a state that keeps them all, and to one with every body under its own address if every record has it there |
| EvalState.LawfulPrefix | src/evals.rs:563-602 | such a log cut after any record is one too |
| EvalState.NextIdIsNew | src/evals.rs:485-503 | the next id is above every id given or floored exactly until the last `u64` has been reached |
| EvalState.ParentChainsEnd | src/evals.rs:442-483 | following parents ends: a chain is no longer than the version's place in its dataset's list |
| EvalContent.AddressIdentifiesContent | src/evals.rs:124-149 | with an injective hash two bodies share a digest exactly when input and expected value are the same up to member order and split and provenance are the same, field by field |
| EvalContent.AddressIdentifiesBody | src/evals.rs:124-149 | the same said with equivalence of JSON values, for values with every key once |
| EvalContent.FoundBodyIsTheSame | src/evals.rs:124-149 | a body found under the address of another is that other up to member order, or up to a null it expected that a reopen dropped |
| EvalState.FoundVersionIsTheSame | src/evals.rs:696-870 | a version found under the id of a request has the same dataset, parent and examples |
| EvalLog.BuildManifest | src/evals.rs:696-870 | the manifest is built exactly when the example ids are usable: no empty one, none twice |
| EvalLog.ManifestSound | src/evals.rs:696-870 | the manifest lists every example once under the digest of its body, ids ascending |
| EvalLog.CheckRefs | src/evals.rs:696-870 | payload references are accepted exactly when every one exists, is not being erased and, where the tenant is checked, is held by its spans or its examples |
| EvalLog.MissingBodies | src/evals.rs:696-870 | the bodies appended are those the log lacks, each once |
| EvalLog.FreshBodiesStore | src/evals.rs:696-870 | appending them stores a body under every item's digest and changes nothing else |
| EvalLog.BatchLawful | src/evals.rs:613-632 | every operation's batch is admitted record by record while the allocators have ids to give |
| EvalLog.EvalLog.constructor | src/evals.rs:563-602 | opening replays the log |
| EvalLog.EvalLog.Commit | src/evals.rs:613-632 | a batch is appended, then applied: memory stays the replay of the log |
| EvalLog.EvalLog.CreateDataset | src/evals.rs:647-675 | a dataset is created under the next id exactly when its name and tenant are usable and the tenant is not being erased; a refusal changes nothing |
| EvalLog.EvalLog.CreateVersion | src/evals.rs:696-870 | a version is created, or found again with nothing appended, exactly when the request is acceptable; afterwards every example of the request is read back under its id with the body asked for, up to member order and a null lost in a reopen |
| EvalLog.EvalLog.CreateExperiment | src/evals.rs:874-918 | an experiment is created exactly when its dataset is in scope, its version known there and not tombstoned, and the tenant not being erased |
| EvalLog.EvalLog.RecordRun | src/evals.rs:922-963 | a run is recorded exactly when its experiment is in scope and its version lists the example |
| EvalLog.EvalLog.TombstoneVersion | src/evals.rs:967-1005 | a version is tombstoned at most once; asking again answers false and appends nothing |
| EvalPurge.CountDoomed | src/evals.rs:1287-1414 | the count of removed records is exact, and zero exactly when there is nothing of the tenant to purge |
| EvalPurge.WriteSurvivors | src/evals.rs:1287-1414 | the rewritten log is lawful, starts with the id floors and replays to the purged state |
| EvalPurge.RefsAccountedFor | src/evals.rs:1287-1414 | references before a purge are those after it and those dropped |
| EvalPurge.PurgedIsClean | src/evals.rs:1287-1414 | a purged state has nothing left to purge |
| EvalPurge.FloorsFirst | src/evals.rs:1287-1414 | state built from the floors on equals the replay of the log that begins with them |
| EvalPurge.PurgeTenant | src/evals.rs:1287-1414 | memory after a purge is the replay of the log it wrote; a repeated purge reports nothing and leaves everything alone |
| EvalRuns.CrashIsAStep | src/evals.rs:563-632 | an append cut at any byte opens, when the parser takes the records, to a log one step on: in memory is what the arrived records read back as, and the healed file is the clean file of those written |
| EvalRuns.RunsStayConsistent | src/evals.rs:563-1414 | over every run of operations, crashes at any byte, reopens and purges the records in memory are lawful and their replay consistent, and they differ from those written at most by the nulls a reopen leaves out |
| EvalReread.RereadLawful | src/evals.rs:563-602 | a lawful log comes back from a reopen as a lawful log, whatever it holds |
| EvalReread.ReopenIsExact | src/evals.rs:130-140 | a reopened log equals what was written exactly when the parser takes every record and no optional value of an example, a version or an experiment is a null, and it opens at all exactly when the parser takes every record |
| EvalReread.AddressesSurvive | src/evals.rs:142-148 | with an injective hash, bodies that are under their own addresses are still under them after a reopen exactly when none of them expects a null |
| EvalNulls.LawfulLogsHold | src/evals.rs:443-483 | nothing a lawful log holds is overwritten by a later record |
| EvalNulls.ReopenKeepsMemory | src/evals.rs:563-602 | at any point of any run, opening the log anew gives the state that was in memory exactly when no record in memory holds a null in an optional value |
| EvalNulls.PlainRunsAreFaithful | src/evals.rs:563-1414 | while no operation appends such a null, memory is at every step of every run the replay of exactly what was written, and every body is under its own address |
| EvalNulls.NullIsLost | src/evals.rs:130-140 | a concrete run: a dataset, a version with one example that expects null, a reopen; the body is no longer the one acknowledged, nor the one its address is of |
| EvalRuns.PurgeKeepsWater | src/evals.rs:1287-1414 | a purge keeps the highest id ever given, whichever records go |
| EvalRuns.DatasetIdsNeverReissued | src/evals.rs:485-493 | over every such run a later dataset has a larger id than any earlier one |
| EvalRuns.ExperimentIdsNeverReissued | src/evals.rs:495-503 | likewise for experiments |
| EvalRuns.OtherTenantsSeeTheSame | src/evals.rs:1039-1163 | a purge changes no dataset, version or experiment view of any other tenant |
| Scores.DedupScores | src/evals.rs:1711-1732 | for every example and name with a score, the newest by time, then the largest trace, then the largest span, the first of equals, and nothing else |
| Scores.WinnersIgnoreOrder | src/evals.rs:1711-1732 | which score wins does not depend on the order of the log exactly when no example and name has two different scores at the top rank |
| Scores.DiffName | src/evals.rs:1795-1887 | the loop sorts every example of the two sides by what became of its score; with nothing regressed the candidate's numbers add up to at least the base's, to more exactly when something improved, and the other way round; a false that became true improved |
| Scores.LabelsMove | src/evals.rs:1847-1858 | two values without a number are unchanged exactly when they are the same value, in whatever order their members were written |
| Scores.DiffAddsUp | src/evals.rs:1795-1887 | every example of either side is accounted for exactly once |
| Scores.DiffMirrors | src/evals.rs:1795-1887 | comparing the other way round swaps improved with regressed and the two sides, and nothing else |
| Scores.NothingMoved | src/evals.rs:1795-1887 | everything is unchanged exactly when both sides score the same examples the same |
| LineLog.OpenFile | src/evals.rs:563-602 | the open loop yields the records and the healed file, or reports corruption |
| LineLog.OpensClean | src/evals.rs:563-602 | a clean file whose records the parser takes opens to what they read back as and is left as it is |
| LineLog.OpensExactly | src/evals.rs:563-602 | a clean file opens at all exactly when the parser takes each of its records, and is corrupt otherwise |
| LineLog.TornAppendHeals | src/evals.rs:563-632 | an append cut at any byte opens to what the records before it and those of the append that arrived whole read back as, and heals to their clean file |
| LineLog.HealedOpensUnchanged | src/annotations.rs:271-320 | a healed file opens again to the same records and is left as it is, whatever the file was before |
| Crc.EightBits | src/crc.rs:37-65 | the inner bit loop is eight steps of the shift register |
| Crc.BitwiseCrc32 | src/media.rs:112-122 | the bitwise form computes the checksum as defined bit by bit |
| Crc.PeelByte | src/crc.rs:37-65 | a remainder is the sum of what its low byte and the rest contribute |
| Crc.FoldAtOnce | src/crc.rs:69-99 | feeding bytes one by one is XORing them all in and shifting them all out |
| Crc.BuildTables | src/crc.rs:37-65 | table k holds what every byte leaves after k zero bytes more |
| Crc.SlicesSum | src/crc.rs:69-99 | sixteen table entries XORed are the division of the sixteen bytes |
| Crc.FoldChunk | src/crc.rs:69-99 | one iteration of the sliced loop feeds sixteen bytes |
| Crc.SlicedCrc32 | src/crc.rs:69-99 | the sliced form computes the same checksum as the bitwise one on every byte string |
| CrcDivision.PolynomialIsDivisor | src/crc.rs:37-48 | the constant is the divisor of section 8 of RFC 1952, written by its exponents, without the highest and mirrored |
| CrcDivision.ChecksumIsRemainder | src/media.rs:111-122 | for every byte string the checksum is the remainder of a long division by that divisor, under the bit reflection and the initial and final complement |
| Base64.Encode | src/media.rs:21-44 | decoding by section 4 of RFC 4648 gives the bytes back, and the text has four characters a group |
| Base64.DecodeInvertsEncode | src/media.rs:21-44 | the same of the encoder as a function |
| Zlib.Adler32 | src/media.rs:124-131 | reducing at every byte gives the sums of section 2.2 of RFC 1950, reduced once |
| Zlib.BlockReads | src/media.rs:146-163 | a stored block of section 3.2.4 of RFC 1951 is read back with what follows it |
| Zlib.ZlibStored | src/media.rs:146-163 | decoding the stream, header, blocks and checksum, gives the bytes back |
| Gif.BitWriter.Write | src/media.rs:204-212 | writing a code appends exactly its bits, least significant first |
| Gif.BitWriter.Finish | src/media.rs:213-218 | finishing pads with fewer than eight bits |
| Gif.CodesDecode | src/media.rs:224-241 | a decoder of GIF89a appendix F reads the codes back to the pixels, never with a code wider than nine bits |
| Gif.GifLzw | src/media.rs:224-241 | the LZW data decodes to the pixels |
| Gif.SubBlocksUnblock | src/media.rs:243-251 | sub-blocks are taken apart again, whatever follows |
| Gif.GifSubBlocks | src/media.rs:243-251 | the written sub-blocks hold the data |
| Gif.FrameData | src/media.rs:255-283 | a frame's image data, unblocked and decoded, is the pixels |
| Erasure.RefsMeaning | src/erasure.rs:351-362 | a reference is collected exactly when some attribute map of the span holds it unredacted |
| Erasure.PayloadRefsOf | src/erasure.rs:351-362 | collecting adds exactly the references a span carries |
| Erasure.UnredactedMeansCarried | src/erasure.rs:1298-1308 | a payload subject has work on a span exactly while the span carries the reference: while an attribute of it, of an event or of a link names it under `$payload` and is not marked `erased` |
| Erasure.RedactionRemovesOneReference | src/erasure.rs:324-345 | redaction takes exactly the named reference out, changes nothing where it is absent, and is idempotent |
| Erasure.LiveSpan.RedactPayload | src/erasure.rs:324-345 | the in-place rewrite is that redaction and reports a change exactly when the reference was there |
| Erasure.ForPending | src/erasure.rs:679-713 | building the mask folds every pending record into it |
| Erasure.MaskIsExact | src/erasure.rs:718-763 | a span is barred exactly when some pending record lists its key or its subject drops it; reads also withhold those a subject redacts |
| Erasure.PayloadFilesAreExact | src/erasure.rs:817-819 | a payload file is withheld exactly when some pending record is due to remove it |
| Erasure.TenantsAreExact | src/erasure.rs:812-814 | a tenant is barred exactly when it is the subject of a pending record |
| Occurrences.Position | src/erasure.rs:1243-1262 | the search finds the first occurrence, or there is none |
| Occurrences.CountIn | src/erasure.rs:1243-1262 | the count within one piece includes overlapping occurrences |
| Occurrences.OccurrencesNext | src/erasure.rs:1203-1241 | what a read adds: its occurrences with the carry, less those in the carry, which never exceed the count |
| Occurrences.PieceRead | src/erasure.rs:1203-1241 | after every read the carry is the last `longest - 1` bytes, or all there are |
| Occurrences.CountOccurrences | src/erasure.rs:1203-1241 | over any split into non-empty reads the count is the number of occurrences in the whole file |
| ErasureLog.ErasureLog.constructor | src/erasure.rs:859-916 | opening replays the log and builds the mask of what is pending |
| ErasureLog.ErasureLog.RebuildMask | src/erasure.rs:841-852 | the mask is that of the pending entries |
| ErasureLog.ErasureLog.Begin | src/erasure.rs:946-976 | an intent is logged under the next id and is in the mask |
| ErasureLog.ErasureLog.RecordSettle | src/erasure.rs:990-998 | an outcome is logged and the erasure leaves the mask |
| ErasureLog.ErasureLog.NotePayloadRefs | src/erasure.rs:1004-1027 | noted references are logged and become part of the entry; noting none writes nothing |
| ErasureLog.MergedHolds | src/erasure.rs:1004-1027 | merging references keeps each once, in order, and loses none |
| ErasureLog.PendingErasuresHide | src/erasure.rs:679-763 | what reads withhold is exactly what some unsettled erasure is due to act on |
| ErasureLog.CrashLeavesARun | src/erasure.rs:859-940 | a crash at any byte of an append leaves a file that opens to the log with the record or without it, and heals to that log's clean file |
| ErasureLog.IdsCountUp | src/erasure.rs:946-976 | ids are 1, 2, 3, ... in the order the erasures were begun |
| ErasureLog.IdsIncrease | src/erasure.rs:946-976 | ids strictly increase along every log of a run |
| ErasureLog.NextIdIsNew | src/erasure.rs:946-976 | the next id is unused exactly until the last `u64` is in use |
| ErasureLog.AcknowledgedSurvives | src/erasure.rs:859-1027 | an acknowledged intent, its references and its outcome stay in every later log |
| Annotations.NewestHolds | src/annotations.rs:413-423 | the sort orders by time, newest first, then tenant, trace, span, example and name, and keeps the order of equals |
| Annotations.OneStableOrder | src/annotations.rs:413-423 | that order determines the list |
| Annotations.IndexReads | src/annotations.rs:247-259 | reading through an index reads exactly the entries under its key, in log order |
| Annotations.SearchIsExact | src/annotations.rs:385-428 | a search through an index equals a scan on every log of valid annotations exactly when the query does not name both an experiment and a trace, or cannot match; with both, the trace is ignored |
| Annotations.AnnotationLog.Search | src/annotations.rs:385-428 | the search gives the matching entries its index leads to, newest first, cut to the limit |
| Annotations.AnnotationLog.OfTrace | src/annotations.rs:350-375 | a trace query gives its annotations narrowed to tenant, span and name, in log order |
| Annotations.AnnotationLog.Append | src/annotations.rs:324-346 | an annotation is appended exactly when its subject has no defect; a refusal changes nothing; the indexes stay exact |
| Annotations.AnnotationLog.Adopt | src/annotations.rs:238-245 | rebuilding indexes every entry |
| Annotations.AnnotationLog.RewriteKeeping | src/annotations.rs:494-527 | a rewrite keeps exactly the admitted entries in order, counts the others, and leaves indexes exact |
| Annotations.AnnotationLog.DropForSubject | src/annotations.rs:446-469 | exactly the annotations an erased subject dooms are dropped |
| Annotations.AnnotationLog.DropOlderThan | src/annotations.rs:479-488 | exactly the expired annotations that are no scores are dropped |
| Annotations.OtherTenantsSearchTheSame | src/annotations.rs:446-469 | dropping for a subject of one tenant changes no search answer of another |
| Calendar.CivilInvertsDays | src/mcp.rs:4045-4073 | `civil_from_days` inverts `days_from_civil` on every date of the calendar, in any year |
| Calendar.DaysInvertCivil | src/mcp.rs:4045-4073 | every day number has a date on the calendar, and that date has the day number |
| Calendar.DaysCountFromTheEpoch | src/mcp.rs:4045-4054 | day numbers count the dates of the calendar one by one, the first of January 1970 being day 0 |
| Calendar.YearOfEraRecovered | src/mcp.rs:4057-4073 | the year-of-era estimate is exact on every day of an era |
| Instants.ParseIso | src/mcp.rs:3885-4018 | the reader, as a loop over the text, computes the instant or the error of its specification |
| Instants.ReadsEveryStamp | src/mcp.rs:3885-4018 | every spelling of the grammar of section 5.6 of RFC 3339 reads as the instant it names, fractions truncated to nanoseconds and a leap second as the second before |
| Instants.RoundTrip | src/mcp.rs:3885-4087 | `parse_iso(rfc3339(n)) = n - n mod 10^9` exactly for the instants below 9223372037 seconds; later ones print as a stamp the reader refuses |
| Instants.DayBucketIsDatePart | src/analytics.rs:564-577 | a span's day group is the date part of its printed timestamp |
| DepthFirst.Group | src/mcp.rs:3336-3396 | grouping gives the roots and every span's children |
| DepthFirst.SortsByStart | src/mcp.rs:3336-3396 | siblings are sorted by start |
| DepthFirst.Walk | src/mcp.rs:3336-3396 | the explicit stack produces the recursive preorder and marks exactly what it lists |
| DepthFirst.PreorderListsRooted | src/mcp.rs:3336-3396 | the preorder lists every span reachable from a root once, at its depth, and no other |
| DepthFirst.PreorderArranged | src/mcp.rs:3336-3396 | every span that is no root follows its parent one level down, subtrees are contiguous, siblings in start order |
| DepthFirst.DepthFirstOrder | src/mcp.rs:3336-3396 | every position is listed exactly once even with cyclic parents, and the count is exactly the spans no root reaches |
| Wire.VarintReadsBack | src/otlp_pb.rs:72-86 | a varint of a 64-bit value is read back wherever it stands |
| Wire.FieldsReadBack | src/otlp_pb.rs:72-147 | reading a message inverts writing its fields |
| Wire.MessagesConcatenate | src/otlp_pb.rs:68-147 | a well-formed message followed by another is the fields of both |
| Wire.Reader.ReadVarint | src/otlp_pb.rs:72-86 | on arbitrary bytes the read stays in bounds and fails exactly when no varint is there |
| Wire.Reader.ReadWord | src/otlp_pb.rs:88-110 | likewise for fixed-width values |
| Wire.Reader.ReadBytes | src/otlp_pb.rs:112-122 | likewise for length-delimited values |
| Wire.Reader.ReadField | src/otlp_pb.rs:125-147 | a field read, or skipped, strictly advances and stays in bounds |
| OtlpValues.DecodeAnyValue | src/otlp_pb.rs:407-467 | the recursive decoder computes the value of its specification or refuses with it, and terminates by the depth cap |
| OtlpValues.DecodeKeyValue | src/otlp_pb.rs:392-405 | likewise for a key and its value |
| OtlpRoundTrip.DecodesExactly | src/otlp_pb.rs:407-467 | an encoded value decodes to what it means exactly when depth and nesting fit the cap, and is refused otherwise |
| OtlpRoundTrip.PairDecodes | src/otlp_pb.rs:392-405 | likewise for a pair |
| OtlpSpans.Sweep | src/otlp_pb.rs:157-279 | a sweep over a message reads every field in order or fails where the message is malformed |
| OtlpSpans.UnknownFieldIgnored | src/otlp_pb.rs:130-147 | a field a decoder ignores may be put between any two fields of a message |
| OtlpSpans.SweepSeesOnly | src/otlp_pb.rs:175-279 | a sweep that minds one field number depends on those fields only |
| OtlpSpans.ResourceOrderFree | src/otlp_pb.rs:175-231 | a resource's spans do not depend on where its `resource` field stands among its scopes |
| OtlpSpans.ScopeOrderFree | src/otlp_pb.rs:235-279 | a scope's spans do not depend on where its `scope` field stands among them |
| OtlpSpans.SpanIgnoresUnknown | src/otlp_pb.rs:281-324 | a span message means the same with any unknown field inserted |
| OtlpSpans.ResourceIgnoresUnknown | src/otlp_pb.rs:175-198 | so does a resource message |
| OtlpSpans.SpansFromProtobuf | src/otlp_pb.rs:157-168 | the request decoder computes the spans of its specification |
| OtlpRequest.EventDecodes | src/otlp_pb.rs:326-348 | an encoded event decodes to what it means |
| OtlpRequest.LinkDecodes | src/otlp_pb.rs:350-372 | an encoded link decodes to what it means |
| OtlpRequest.SpanPartsDecode | src/otlp_pb.rs:281-324 | an encoded span's fields decode to the parts it means |
| OtlpRequest.ScopeDecodes | src/otlp_pb.rs:235-263 | an encoded scope decodes to its spans with the scope's attributes |
| OtlpRequest.ResourceDecodes | src/otlp_pb.rs:175-231 | an encoded resource decodes to its scopes' spans under its service and tenant |
| OtlpRequest.RequestDecodes | src/otlp_pb.rs:157-168 | a whole encoded request decodes, span by span and field by field, to what was exported: ids in hex, status by code, own attributes over the scope's, links with both ids, service and tenant by the first text under their names; it is refused exactly when a span has an empty id |
| Histogram.IndexMonotone | src/metrics.rs:36-43 | larger durations never land in earlier buckets, and every bucket exists |
| Histogram.BoundBrackets | src/metrics.rs:48-67 | a bucket's bound is never below a duration in it and at most a sixteenth above, but for `u64::MAX`, whose bound is one less |
| Histogram.StopsInItsBucket | src/insights.rs:85-103 | the walk over the buckets stops in the bucket of the true percentile |
| Histogram.PercentileBrackets | src/insights.rs:85-103 | the reported percentile brackets the true one exactly when that is below `u64::MAX` |
| Histogram.RankWithin | src/insights.rs:85-103 | a percentage between 0 and 100 asks for a rank that exists |
| Histogram.RankedExists | src/insights.rs:85-103 | every rank up to the count has its value |
| Histogram.DurationHistogram.Record | src/insights.rs:67-74 | recording adds one observation to the multiset the buckets describe |
| Histogram.DurationHistogram.AtRank | src/insights.rs:85-103 | the walk reports a value that brackets the true one of that rank |
| Histogram.DurationHistogram.Percentile | src/insights.rs:85-103 | the reported value brackets the least observation with at least so many percent of the observations at or below it; an empty histogram reports zero |
| Histogram.RankedIsNearest | src/insights.rs:85-103 | the value of the rank asked for is that observation, and no lower one covers the percentage |
| Histogram.ReportBrackets | src/metrics.rs:155-170 | what the walk reports at a rank that exists brackets the value of that rank |
| Histogram.PastTheLast | src/metrics.rs:155-170 | at a rank past the last the walk falls through to the largest value |
| Histogram.WalkBuckets | src/metrics.rs:155-170 | the loop over the buckets, the same in both histograms, is that walk |
| Histogram.Latency.Record | src/metrics.rs:94-110 | recording adds one duration to those the buckets, the total and the maximum describe |
| Histogram.Latency.CountOnly | src/metrics.rs:119-121 | counting raises the count and leaves the durations alone |
| Histogram.Latency.Percentile | src/metrics.rs:155-170 | the percentile walks the durations to the least rank that covers the percentage of everything counted |
| Histogram.CountOnlyKeepsThePercentile | src/metrics.rs:112-170 | with so many durations timed and so many events only counted, the reported percentile is that of the durations, whatever they are, exactly when the rank asked for, or the last one if it is past that, is the durations' own |
| Histogram.CountOnlyMovesTheMedian | src/metrics.rs:112-170 | with 1 ns and 100 ns timed and two events only counted the median reported is 100 ns, while that of the durations is 1 ns |
| Insights.BinarySearch | src/insights.rs:474-504 | the insertion point leaves no faster span before it and no slower one after |
| Insights.SlowestSpans | src/insights.rs:474-504 | the bounded insertion keeps the slowest spans in descending order: nothing left out is slower than anything kept |
| Insights.Failures | src/insights.rs:373-467 | every group of the bounded map has the exact count, times and newest example of its key; the total counts everything and what is untracked is what has no group |
| Insights.OnlyWhenFull | src/insights.rs:373-467 | a key goes without a group only when the groups are full |
| Insights.WidthIsCeiling | src/insights.rs:244-262 | the bucket width is the least whose buckets reach the end of the window, without overflow |
| Insights.InItsBucket | src/insights.rs:244-351 | a span of the window starts between its bucket's start and the next one's |
| Insights.Series | src/insights.rs:244-351 | every span is counted in exactly one bucket, so the buckets add up to the stream; errors likewise by bucket |
| Content.RunsAreAll | src/content.rs:93-118 | the runs the tokenizer finds are all the maximal runs of letters and digits, in order |
| Content.ForEachToken | src/content.rs:93-118 | the loop yields exactly those runs, lowercased |
| Content.CaseDoesNotMatter | src/content.rs:93-118 | a text and its lowercase have the same tokens |
| Content.ParseQuery | src/content.rs:178-186 | a query holds the distinct tokens of its text |
| Content.Matches | src/content.rs:214-228 | texts match exactly when the query has a token and they hold every one |
| Content.MaskIsModulo | src/content.rs:323-337 | with a power of two of bits the mask is the modulo |
| Content.PositionsDiffer | src/content.rs:323-337 | the odd step makes a token's four positions four different ones |
| Content.ProbeKeyIsWholeCharacters | src/content.rs:128-146 | a probe key is its token up to 40 bytes, and of a longer one the most below the cap that cuts no character |
| Content.SizeIsPowerOfTwo | src/content.rs:348-355 | the size is a power of two within the bounds, eight bits a key unless capped, and never twice what was asked |
| Content.Bloom.Insert | src/content.rs:269-276 | inserting sets exactly the token's positions |
| Content.Bloom.MayContain | src/content.rs:284-290 | a token may be there exactly when its positions are set; an empty filter answers true |
| Content.Bloom.MayContainAll | src/content.rs:293-295 | likewise for a query's tokens |
| Content.DistinctProbeKeys | src/content.rs:154-167 | the keys collected are those of every token of the texts |
| Content.NeverRulesOut | src/content.rs:323-373 | every position of every token of the texts is set by their probe keys, truncated or not |
| Content.Build | src/content.rs:358-373 | a filter built from texts holds exactly their keys' positions and answers true to every query the texts match, for any hash, size and token length |
| Generation.DigestEngine | src/generation.rs:309-397 | digesting lists exactly the load-bearing files, each over the length read first, so appends that land meanwhile are not in it |
| Generation.LivePaths | src/generation.rs:236-336 | the load-bearing files are the three logs, the segments and the payloads, where no directory on the way is hidden, a generation or a pin |
| Generation.CarryOverIsExact | src/generation.rs:309-397 | carrying digests over from an earlier manifest equals digesting everything exactly when every replaced file differs in length or time |
| Generation.ChainedIsFull | src/generation.rs:309-397 | so it does along any chain of checkpoints |
| Generation.VerifyAgainst | src/generation.rs:406-444 | every discrepancy is reported, and no other |
| Generation.VerifyIsExact | src/generation.rs:406-444 | a manifest verifies exactly when every listed file is there unchanged or, for a log, only longer |
| Generation.Store.RemoveWorkingSet | src/generation.rs:561-589 | removal takes exactly the top-level logs and segment files and everything under payloads |
| Generation.Store.CopyFiles | src/generation.rs:507-556 | the copies are laid over the directory one file at a time; a kill leaves some of them, the last perhaps cut short |
| Generation.Store.InstallStaged | src/generation.rs:507-556 | a staged generation that fails verification is refused and nothing changes; else the install completes, or a kill leaves one of the states between |
| Generation.Store.SweepGenerations | src/generation.rs:595-612 | older manifests go, and the one CURRENT names stays |
| Generation.KilledInstallsConverge | src/generation.rs:507-556 | however many installs are killed wherever, CURRENT names a generation whose manifest is there, and the one that completes leaves what the first would have |
| Generation.InstalledVerifies | src/generation.rs:507-556 | the installed generation verifies against its files, is newer than the staged and the replaced one, and every record of a log begun afterwards is replayed over it |
| Generation.OnlyTheOriginReplaysAll | src/generation.rs:64-86 | only the origin is a position before every record a log can hold |
| Generation.OldGenerationOutlivesKills | src/generation.rs:507-556 | a killed install leaves the replaced generation verifying exactly when none of its files is in the way: none is removable, and none is overwritten by a copy that is not empty, which even an identical one is while it is cut short |
| Generation.OrdinaryStoresAreLost | src/generation.rs:507-589 | an install over a store whose manifest lists any top-level log, top-level segment or payload does not outlive every kill |
| Generation.OnlyListedFilesAreLive | src/generation.rs:561-589 | the live files of an installed store are those its manifest lists exactly when no live file was outside the removal's reach |
| Attribution.LeafErrorCause | src/attribution.rs:656-678 | the cause is the earliest error none of whose children failed, of equal starts the one of the smallest trace and then span, and there is none exactly when no such error exists |
| Attribution.CauseExists | src/attribution.rs:656-678 | a run with an error has a cause where failed spans can be numbered so that children come after parents; the exact condition is that of CauseIsCertain |
| Attribution.CauseIsCertain | src/attribution.rs:656-678 | a run has a cause whichever of its spans failed exactly when its parent links form no ring |
| Attribution.OwnChoice | src/attribution.rs:656-678 | whether a run has a cause depends on its links and on which spans failed only |
| Attribution.CyclesHaveNoCause | src/attribution.rs:656-678 | the smallest ring: two failed spans naming each other as parent have no cause |
| Attribution.SelfDepths | src/attribution.rs:466-502 | every span's depth counts the ancestors of its own service and name that a walk of at most 64 steps meets, each once |
| Attribution.WalkIsTheChain | src/attribution.rs:466-502 | the walk follows the chain of parents and meets no span twice |
| Attribution.AncestorsAreAll | src/attribution.rs:466-502 | a walk with more steps than there are spans lists every ancestor once |
| Attribution.SelfDepthIsWhole | src/attribution.rs:466-502 | a self-depth counts every ancestor of its service and name exactly when none of them is past the 64th ancestor |
| Attribution.StoppedWalkIsComplete | src/attribution.rs:466-502 | a walk that stopped before the cap has met every ancestor |

## Left out

- OtlpSpans.SpansFromProtobuf: the decoders of resources, scopes, spans, events and links are steps of the sweep, as functions; only the sweep itself, the readers and the value decoders are loops.
- AnalyticsFold.FoldAnalytics: what the cache or a sidecar has for a segment is an input, and is that segment's rollup if it is there; how the cache and the files keep to that is not modelled.
- AnalyticsFold.LlmAggregateIn: does not model cost in dollars, whose floating-point sums depend on order, nor ranking and truncation of the rows.
- AnalyticsFold.SessionsIn: does not model ordering, paging or the cost of a session.
- CanonicalJson.CanonicalIdentifies: does not model floating-point numbers in JSON, nor whether one reads back as it was written.
- LineLog.OpensExactly: how deep a record may nest is a parameter, the parser's own.
- Content.SizeIsPowerOfTwo: sizes are unbounded, so the overflow of `next_power_of_two` near the largest `usize` is not modelled.
- Histogram.DurationHistogram.Record: does not model the wrap-around of a bucket's 32-bit count.
- Histogram.DurationHistogram.Percentile: the rank is computed over the reals, not in floating point.
- Histogram.Latency.Percentile: likewise.
- Insights.Failures: does not model the order and truncation of the returned rows, nor the histogram of a group.
- Insights.Series: does not model tokens, cost, calls and percentiles of a bucket; they are added up in the same loop.
- Generation.Store.InstallStaged: generation ids are unbounded; a file is copied in two steps, a prefix and the rest.
- Erasure.MaskIsExact: which span belongs to which session is a parameter, resolved elsewhere in the store.
- EvalRuns.RunsStayConsistent: runs are shorter than 2^64 steps, so no allocator saturates.
- The v6 decoder of the migration (`src/migration.rs:786-1072`): its record walk is a simpler form of the v7 one.
- Migration.GoalMeaning: that a converted segment keeps its records is a law of the conversion it takes; `MigrationV7` proves the law for the v7 decoder, sort included, and relies on the segment writer from the sorted records on, which is not part of this model. The sweep of older manifests afterwards is left out.
- Migrator.Store.ConvertFile: the conversion of a file is a parameter; `MigrationV7.MigrateSegment` is the one of a segment.
- Migrator.Store.Complete: does not sweep older manifests after CURRENT moved; `Generation.Store.SweepGenerations` is that sweep.
- Histogram.Latency.Record: does not model updates from several threads at once, nor a count of 2^64 events.
- SHA-256, SipHash, FNV and LZ4 are parameters, injective where an identity rests on it.
- Locks, deadlines, timers, fsync and I/O errors a process survives: a write happens or the process is killed before it.
- Temporary files: a write to a temporary file and its rename are one atomic step.
- Error texts: an error is its kind.
- Scores.DiffName: one score name at a time, numbers as reals; means and the order of the listed examples are not modelled.
- Views and summaries of evaluations beyond that: score statistics and their floating-point means.
- The generation checkpoint driven by the store, pins and replay of the write-ahead log: that code is not part of this model.
- Attribution beyond the cause and self-depths: classification into shapes, outcomes and token trends are chains of conditions.
- Pricing, WAV, SVG and PNG drawing, MCP tool texts and their clamping, HTTP, OTLP over JSON, authentication.
