# heapstore: a model with proofs

This project models the parts of heapstore whose correctness is hardest to see by
reading: what survives failures, crashes and retries of a schema migration; who
owns which heap block in the span buffer; what concurrent adders and committers of
a batch context can do to each other; and whether two registry backends hold the
same records. Everything is stated for all inputs, all runs and all reachable
states of the model.

| files | part of heapstore |
|---|---|
| `Status`, `Widths`, `Storage`, `Paths` | error codes and machine widths; the file system as a map from path to bytes whose every step may fail and whose history lets a crash fall anywhere; 512-byte path buffers |
| `VersionText`, `VersionFile` | the text of `.schema_version` (fgets, strtoul), get_version and set_version, and the atomic register they implement |
| `Cells`, `Tables`, `Replay`, `DataMigration` | column operations on ordered tables, exactly which lists of them may be run again, and backup, restore and application to the database file |
| `MigrationSteps`, `ForwardMigration` | step selection and forward attempts |
| `Schema`, `LifeStages`, `Lifecycle` | the tables the registry adds, the stages a store goes through while its program starts, migrates, fails, crashes and restarts, and the program that does so |
| `SpanBuffer`, `JsonExport`, `JsonRead` | the trace span buffer over an explicit heap of blocks with an owner for each; the JSON exporter with its growing buffer; a reader of what it exports |
| `Registry`, `AgentTable`, `SqlRegistry`, `BackendAgreement` | the linked-list registry and its iterators, the SQLite backend of the agent domain, and the two side by side |
| `BatchQueue`, `BatchProtocol`, `BatchCalls`, `BatchCapacity` | the batch context as one thread sees it, as a protocol of interleaved threads, and call by call |
| `Metrics` | concurrent updates of the operation counters with the compare-exchange loop |
| `Cleanup`, `ServiceNames` | directory measuring and retention cleanup; name cleaning and the bounded table of service log files |

Some choices hold throughout. Each file step, allocation, database statement and
lock-protected section may fail or be interrupted where the C code lets it. Whether one
does is an input: a function from the number of the step to how it goes (`works` of a
disk, a connection or a buffer, `memory` of a call, `unlinks` of a partition), or a
parameter. So the contracts say both what a failure leaves and that nothing fails without
one. Objects that the C code updates in place are classes. What a method does is tied to
a function or predicate over values, and the properties of whole runs are proved
about that function or by methods that drive the real objects through arbitrary
calls. The step table, the target and the current schema version are parameters;
the shipped ones are treated on their own.

Where the code and what is written about it part ways, the model follows the code:

- A target version that is not on the chain of steps is accepted and stamped; a
  later attempt then skips steps (`MigrationSteps.StopoverKeepsPath` says exactly when).
- A restart is not neutral for a migration. Init first stamps a store without a version
  and brings an older one to the current version; only then is a goal of the caller's
  taken up. A program that is up on a version below the current one and asks for another
  goal therefore takes a different route once it has restarted
  (`LifeStages.Plan.MayBeUp` excludes that from `Lifecycle.Heapstore.Retry`;
  `MigrationSteps.StopoverKeepsPath` says when the two routes cover the same steps).
- When init asks for a migration and the version file can then not be read a second time,
  forward returns before it fills its report, and init frees the strings of a report that
  was never written (src/heapstore_core.c:234-239, src/heapstore_migration_forward.c:59-63,
  src/heapstore_migration.c:585-593). `Lifecycle.Heapstore.Migrate` says when exactly;
  nothing is claimed of the program after that.
- heapstore_trace_flush resets the count and frees nothing, so the attribute strings of
  the flushed spans are lost (`SpanBuffer.LosesIff` says exactly which runs lose memory).
- The exporter escapes the name of a span and prints its ids and its status as they are
  (`JsonRead.ArrayReads` says exactly when the array reads back).
- The exporter assumes records of at most 511 bytes, but legal spans can print more
  and may then be cut (`JsonExport.LegalSpanIsCut`; `JsonExport.ExportToJson` says
  exactly when).
- The header promises that a batch insert is all or nothing
  (include/heapstore_registry.h:302-305). The linked list keeps the records before the
  first it refuses (`BackendAgreement.ListBatchAllOrNothingIff` says exactly when the
  promise holds), and a failed COMMIT or ROLLBACK leaves the SQLite transaction open.
- The registry copies the root into 256 bytes, the migration does not. For roots of 256
  characters or more they mean different databases: the migration then finds none,
  changes no table and only stamps the version (`Paths.RegistryDbIsMigratedIff`,
  `DataMigration.ApplyCols`), and for roots of 492 or more it cannot even do that
  (`VersionFile.SetVersion`).
- A database path of 511 characters or more makes the backup name equal to the
  database name, and a backup would then truncate the database
  (`DataMigration.BackupDataFile`, `Paths.RootForSeparateBackup`). heapstore itself does
  not create a database there, because the registry's own path is shorter.
- The retention settings are unsigned and are passed as int, so a setting of 2^31
  days or more cleans nothing (`Cleanup.CleanUp`).

## Model

| member | source | states |
|---|---|---|
| VersionText.ReadVersion | src/heapstore_migration.c:401-435 | the reader, with its fgets, cursor loops and strtoul, computes the function whose grammar the next rows characterise |
| VersionText.ReadGrammar | src/heapstore_migration.c:401-435 | text is accepted exactly when its first line, cut at 31 characters and at a NUL, is blanks, a digit run within unsigned long, blanks; the exact value is returned below 2^32 |
| VersionText.ReadDenoted | src/heapstore_migration.c:434 | a number from 2^32 up to the unsigned long limit is accepted and narrowed modulo 2^32 |
| VersionText.DenotesIsFunctional | src/heapstore_migration.c:401-435 | a text denotes at most one version under that grammar |
| VersionText.PrintThenRead | src/heapstore_migration.c:461 | reading what set_version prints gives the same value back, for every 32-bit version |
| VersionText.BlanksAround | src/heapstore_migration.c:409-432 | blanks, tabs and carriage returns before and behind the number do not matter |
| VersionText.OnlyBlanksAround | src/heapstore_migration.c:416-432 | an accepted line holds nothing but digits and the four blanks |
| VersionText.Fgets | src/heapstore_migration.c:401-406 | the line read is the longest prefix up to a newline within 31 characters |
| VersionText.Strtoul | src/heapstore_migration.c:409-414 | white space, optional sign, longest digit run; ERANGE and the saturated value exactly above ULONG_MAX, negation modulo 2^64, as in section 7.22.1.4 of ISO C11 |
| VersionFile.GetVersion | src/heapstore_migration.c:377-436 | 0 for an absent file, the error of each failing step, and otherwise what the text denotes |
| VersionFile.SetVersion | src/heapstore_migration.c:438-478 | at every intermediate state the version file has its old entry or exactly the new text, durably; success is returned exactly when the switch happened, and always when no file step fails and the path is short enough; only the version file and its temporary change |
| VersionFile.WriteTemporary | src/heapstore_migration.c:456-470 | writing, flushing and closing touch only the temporary file, which holds the whole text durably on success; without a failing step it succeeds |
| VersionFile.PointsOfSet | src/heapstore_migration.c:438-478 | at each point of a set_version call a reader finds the old version before the switch and the new one from it on |
| VersionFile.Run | src/heapstore_migration.c:377-478 | any run of sets, gets and crashes at any file step is a run of an atomic register; a read that gets at the file returns its value, and only a read error on an open file reports corruption; when no file step fails every set takes effect |
| VersionFile.ReadSeesLastWrite | src/private.h:39-46 | a value read is the initial one or was written by a completed set or one cut by a crash, with no completed set after it |
| VersionFile.CrashKeepsVersion | src/heapstore_migration.c:465-477 | a crash image of a disk with a readable version file has the same version |
| VersionFile.LooseCrashKeepsHeld | src/heapstore_migration.c:465-477 | even when a loss of power also takes back renames and removes that returned, the version file is absent or holds a text that was written whole |
| VersionFile.RunWithPowerLoss | src/heapstore_migration.c:377-478 | over any run of sets, gets, crashes and such losses of power to any past state, a read that gets at the file never reports corruption and returns a value the store held before or some set wrote |
| Storage.Disk.Rename | src/private.h:39-46 | the replacement happens in one step or not at all |
| Storage.Disk.Crash | src/heapstore_migration.c:39-49 | where a returned rename or remove is durable: after a crash synced files are as they were and unsynced ones are gone or hold anything |
| Storage.Disk.PowerLoss | src/heapstore_migration.c:39-49 | where it is not, as no directory is synced: each path may be back at any entry it has had, synced ones whole |
| Paths.BackupIsSeparate | src/heapstore_migration.c:53-56 | the 512-byte buffer keeps the backup name apart from the database exactly for paths below 511 characters |
| Paths.RootForSeparateBackup | src/heapstore_migration.c:116-120 | which is exactly when the root is shorter than 490 characters |
| Paths.RegistryDbIsMigratedIff | src/heapstore_registry_sqlite.c:67-92 | the registry opens the database the migration looks for exactly for roots of at most 255 characters; otherwise another file that is not the version file either |
| Paths.VersionFilesAreApart | src/heapstore_migration.c:444-451 | version file, its temporary, database and backup are different files |
| DataMigration.BackupDataFile | src/heapstore_migration.c:51-94 | for any length and any short reads the copy on success is the exact file, durable, and no other file changes; it succeeds whenever no step fails; with the truncated name the database is emptied |
| DataMigration.RestoreDataFile | src/heapstore_migration.c:96-106 | success replaces the database by the backup in one step; failure changes nothing |
| DataMigration.AddColumnTo | src/heapstore_migration.c:159-212 | an existing column is left alone, otherwise it is appended with its default to every row, in one durable statement or not at all; it fails only for a missing table or a failing step |
| DataMigration.DropColumnsFrom | src/heapstore_migration.c:217-320 | the rebuilt table keeps order and cells of the kept columns; dropping all of them or a missing table fails and changes nothing, and so does a failing step |
| DataMigration.KeepColumns | src/heapstore_migration.c:232-252 | the loop over the column names keeps those not to be dropped, in order |
| DataMigration.ApplyCols | src/heapstore_migration.c:324-375 | at every intermediate point the database or the backup holds the exact bytes from before the step, until every operation is in; on success all operations are applied; if the last file step works, a failure ends with exactly the old database, bytes and all, and no backup beside it once the operations had begun, and a success leaves no backup; without failing steps it succeeds exactly when the database takes all the operations |
| DataMigration.CrashKeepsSafety | src/heapstore_migration.c:324-375 | that safety survives a crash at any point |
| Tables.AddMeans | src/heapstore_migration.c:182-212 | an added column comes last and holds its default in every row; every other cell, column and table stays |
| Tables.DropMeans | src/heapstore_migration.c:217-320 | exactly the columns not dropped stay, in order and with their cells; nothing of a dropped one does |
| Tables.RestartAt | src/heapstore_migration.c:182-320 | running j operations over a database where k already ran is running the larger number of them, when no column is both added and dropped |
| Tables.AddsKeepData | src/heapstore_migration.c:182-212 | adds keep every old column in place and every old cell |
| Replay.ReplayableIff | src/heapstore_migration.c:324-375 | restarting a list of operations behind any of them ends in the same columns, order and rows, for every database SQLite can hold on which the list runs to its end, exactly when no lasting column is first added behind one that is dropped and added back; for any other list there is such a database, with one table of one column, that shows it |
| Replay.RetriesConverge | src/heapstore_migration.c:527-583 | after any number of interrupted runs the one that completes leaves what a single run leaves |
| Replay.CompatibleIff | src/heapstore_migration.c:182-320 | over the same databases, interrupted runs always add up to a prefix of one run exactly when no column of a table is both added and dropped |
| Replay.RunsArePrefixes | src/heapstore_migration.c:324-375 | any number of interrupted runs of such a list leaves a prefix of it |
| Replay.RunsKeepData | src/heapstore_migration.c:182-212 | interrupted runs of column adds keep every original cell, row and column |
| MigrationSteps.SelectSteps | src/heapstore_migration.c:531-540 | the selection loop computes the applicable steps in table order, cut at 64 |
| MigrationSteps.SelectionIsPath | src/heapstore_migration.c:527-575 | between two versions on a chain the applicable steps are exactly the contiguous path, and the selection is that path exactly when it has at most 64 steps |
| MigrationSteps.StopoverKeepsPath | src/heapstore_migration_forward.c:56-76 | going by way of an intermediate target covers the whole path exactly when that target is on the chain |
| MigrationSteps.ShippedTable | src/heapstore_migration_forward.c:39-54 | the shipped steps form a chain of column adds, whatever start and target |
| MigrationSteps.ShippedTargetSelectsNothing | src/heapstore_migration_forward.c:56-76 | with the shipped current version no shipped step is selected for target 0 |
| MigrationSteps.ShippedStopoverSkips | src/heapstore_migration_forward.c:39-54 | going from 10000 to 20000 by way of 10050 skips the shipped step that adds the agent columns |
| ForwardMigration.ExecuteSteps | src/heapstore_migration.c:547-567 | steps run in order and stop at the first failure; at every point the tables are at a prefix and the version is untouched; if the last file step works, no step is left half done; without failing steps all run exactly when the database takes their operations |
| ForwardMigration.StampVersion | src/heapstore_migration.c:569-575 | the version is written last, and changes only if that write succeeds |
| ForwardMigration.RunSteps | src/heapstore_migration.c:527-583 | at every point of an attempt the tables hold a prefix of the selected operations and the version is the old one unless all are in; if the last file step works the tables end at whole steps, and without failing steps the attempt succeeds whenever the database takes the operations |
| ForwardMigration.Forward | src/heapstore_migration_forward.c:56-76 | a version at or above the goal is left alone; otherwise the attempt is as above, and success means the version asked for, or the current one when 0 was asked, and all selected operations; between two versions of the chain at most 64 steps apart these are the operations of just the steps between them; without failures it succeeds whenever it can; the report is written exactly when the store is ready and its version can be read |
| ForwardMigration.ShippedIsReplayable | src/heapstore_migration_forward.c:39-54 | every selection from the shipped steps may be retried |
| Lifecycle.Heapstore.Check | src/heapstore_migration.c:480-504 | a fresh store is stamped with the current version and keeps its tables; otherwise nothing changes and migration is needed exactly below it; an unreadable version file is an error, and without failures there is none |
| Lifecycle.Heapstore.Init | src/heapstore_core.c:191-289 | from everything down, init succeeds with all four subsystems up, the version the larger of old and current, and the tables migrated and completed by those of the registry, or fails with everything down; a corrupt version file fails and changes nothing; at every point the disk is on that way; when nothing fails and the tables take the operations, it succeeds |
| Lifecycle.Heapstore.Migrate | src/heapstore_core.c:218-247 | check and forward together: at every point the tables hold a prefix of the operations up to the current version and the version is the old one unless all are in, and success means all of it; the freed report is an unwritten one exactly when the second read of the version fails |
| Lifecycle.Heapstore.StartServices | src/heapstore_core.c:257-299 | the staged teardown leaves all four subsystems up exactly when each comes up, and otherwise none |
| Lifecycle.Heapstore.Shutdown | src/heapstore_core.c:291-308 | takes everything down, and does nothing when not ready |
| Lifecycle.Heapstore.Run | src/heapstore_core.c:191-308 | no run of init, forward and shutdown, with failures and crashes, ever lowers the disk version, up to the call, if any, that frees the unwritten report |
| Lifecycle.Heapstore.Retry | src/heapstore_core.c:191-308 | any calls of init, of forward to one goal and of shutdown, each possibly failing or cut by a crash at any file step, with a restart behind every crash; when a last forward succeeds, version and tables are those of one uninterrupted start and migration, for replayable steps; with adds only, every original cell is unchanged even if none succeeds |
| LifeStages.InitKeepsStage | src/heapstore_core.c:191-289 | whatever stage an interrupted life has reached, init passes only stages of the same plan |
| LifeStages.InitServes | src/heapstore_core.c:208-255 | an init that comes through leaves the current version with all its operations and the registry's tables, from every stage |
| LifeStages.MigrationKeepsStage | src/heapstore_migration.c:527-583 | a forward call passes only stages in which the program may be up, and its success is the end of the plan |
| LifeStages.StagesKeepData | src/heapstore_migration.c:182-212 | with steps that only add columns, no stage has lost an original table, column, row or cell |
| Schema.CreatesMissing | src/heapstore_registry_sqlite.c:16-54 | the registry creates just its missing tables, empty and with their columns |
| Schema.FreshNeedsNoSteps | src/heapstore_registry_sqlite.c:16-54 | a store created afresh has what the shipped steps add: none of them would change it |
| SpanBuffer.NoSharing | src/heapstore_trace.c:96-178 | when the books balance, two places that hold a block hold different blocks |
| SpanBuffer.Trace.Init | src/heapstore_trace.c:36-72 | an empty buffer, or nothing on failure; outstanding results are untouched |
| SpanBuffer.Trace.WriteSpan | src/heapstore_trace.c:96-133 | success appends a deep copy; every other outcome leaves live spans and blocks as they were; ownership stays exact |
| SpanBuffer.Trace.WriteBatch | src/heapstore_trace.c:135-178 | success appends deep copies of all spans in order; capacity or allocation failure leaves live spans and blocks as they were |
| SpanBuffer.Trace.Rollback | src/heapstore_trace.c:163-170 | the rollback loop frees exactly the blocks the batch had made |
| SpanBuffer.Trace.WriteEach | src/heapstore_trace.c:96-178 | writing the spans one by one, when all succeed, leaves the same buffer as the batch |
| SpanBuffer.Trace.CountMatches | src/heapstore_trace.c:202-212 | the first pass counts exactly the spans of the trace, or those that lie wholly within the time range |
| SpanBuffer.Trace.Collect | src/heapstore_trace.c:183-245 | a query returns deep copies of exactly the spans of the trace, or of those that start and end within the time range, each once and in order, in an array of their own; NOT_FOUND exactly when there are none; it leaks neither copies nor array when memory runs out half way, and fails for no other reason |
| SpanBuffer.Trace.DropGathered | src/heapstore_trace.c:230-237 | giving up in the second pass frees exactly the copies made so far |
| SpanBuffer.Trace.FreeSpans | src/heapstore_trace.c:285-294 | freeing a result removes its blocks and its array and nothing else |
| SpanBuffer.Trace.Shutdown | src/heapstore_trace.c:74-94 | frees every live slot's block and leaves results to their owners |
| SpanBuffer.Trace.ResetAfterFlush | src/heapstore_trace.c:362-369 | after the reset the live slots' blocks belong to nobody; without that loss the books balance exactly when no live slot holds a block |
| SpanBuffer.LostBlock | src/heapstore_trace.c:365 | otherwise no assignment of owners accounts for the blocks left behind |
| SpanBuffer.Trace.Flush | src/heapstore_trace.c:311-370 | refused when not initialised, nothing to do when empty, and otherwise the buffer is emptied or, if the file cannot be opened, left alone |
| SpanBuffer.Trace.Run | src/heapstore_trace.c:36-370 | over any run of write, batch, query, free, flush, init and shutdown with any allocation failing, each call answers and changes buffer and results as readers see them exactly as one step relation says, and refuses for lack of memory only when an allocation failed; throughout, the live blocks are those of live slots, outstanding results, callers and flushes, each with one owner, and the live arrays are those of outstanding results |
| SpanBuffer.LosesIff | src/heapstore_trace.c:311-370 | a run loses memory exactly when one of its calls is a flush that goes through while a live span has attributes |
| SpanBuffer.LostCount | src/heapstore_trace.c:362-369 | a flush loses exactly one block for each live span that has attributes |
| JsonExport.ExportToJson | src/heapstore_trace.c:432-514 | for any number of legal spans and through every doubling the exporter ends with its buffer, unless an allocation fails, and the buffer holds exactly the bracketed, comma-joined records if and only if each record ended inside the block of its round |
| JsonExport.NoOverrun | src/heapstore_trace.c:477-507 | the position stays inside the block in every round, even when a record is cut, so the size left never wraps around |
| JsonExport.LegalSpansArePrintable | src/heapstore_trace.c:477-493 | a span within its field sizes and with 64-bit numbers prints at most 656 bytes and no NUL, which is what that needs |
| JsonExport.PosFromFields | src/heapstore_trace.c:477-493 | the position after each round as a sum over the field lengths of the spans, and so the exact condition in those terms |
| JsonExport.ShortRecordsFit | src/heapstore_trace.c:495-504 | records of at most 511 bytes always fit |
| JsonExport.AppendRecord | src/heapstore_trace.c:477-504 | a round keeps the text whole while every record fitted, and keeps a NUL below the position for good once one did not; nothing is written outside the block |
| JsonExport.EscapeName | src/heapstore_trace.c:465-475 | quotes and backslashes are escaped and the 256-byte buffer is never exceeded |
| JsonExport.WhenRecordsAreShort | src/heapstore_trace.c:477-497 | the 511-byte condition in terms of the field lengths of the spans, exactly |
| JsonExport.OneSpanFits | src/heapstore_trace.c:450-453 | for one span that is a bound on the length of its object |
| JsonExport.LegalSpanIsCut | src/heapstore_trace.c:450-514 | a span that respects every field size and is cut nevertheless |
| JsonRead.ArrayReads | src/heapstore_trace.c:459-493 | a reader written from the format alone gets back every field of every span, in order, exactly when no trace id, span id, parent id or status holds a quote or a backslash, whatever the names are |
| JsonRead.ObjectReads | src/heapstore_trace.c:477-493 | the same for one object and what follows it |
| JsonRead.EscapedReads | src/heapstore_trace.c:465-475 | an escaped name reads back as the name, for every name |
| JsonRead.PlainReads | src/heapstore_trace.c:477-493 | a text printed without escaping reads back exactly when it holds no quote and no backslash |
| Registry.Domain.FindNode | src/heapstore_registry.c:38-51 | the walk finds the node of the id exactly when the id is in the map |
| Registry.Domain.Add | src/heapstore_registry.c:84-106 | refuses empty, known and unready, and a node there is no memory for; otherwise prepends one node; the map gains exactly that record |
| Registry.Domain.Get | src/heapstore_registry.c:108-119 | returns the record the map has for the id |
| Registry.Domain.Update | src/heapstore_registry.c:121-132 | replaces the record of a known id in place; list order and nodes stay |
| Registry.Domain.Delete | src/heapstore_registry.c:134-154 | the pointer-to-pointer walk removes exactly the node of the id and keeps the order of the rest |
| Registry.Domain.Splice | src/heapstore_registry.c:143-149 | redirecting one pointer leaves an acyclic list of the other nodes |
| Registry.Domain.Batch | src/heapstore_registry.c:171-183 | stops at the first refused record and keeps exactly the ones before it |
| Registry.Domain.Shutdown | src/heapstore_registry.c:53-63 | walks the list and frees each node once; the domain is empty and unready |
| Registry.Domain.Next | src/heapstore_registry.c:276-285 | returns the record the iterator stands at and moves on, NOT_FOUND at the end |
| Registry.Domain.Iterate | src/heapstore_registry.c:156-169 | with adds, updates and deletes between the calls, none of them a delete of the record the iterator stands at, an iterator returns the records present at its opening newest first, each with the value the registry holds for it at that call, leaving out those deleted before their turn, and then NOT_FOUND forever; the states in between are those the events lead to |
| Registry.EachOnce | src/heapstore_registry.c:156-169 | apart from deleted records, what has come out and what is still due are, in order and once each, the records present at the start |
| Registry.DanglesIff | src/heapstore_registry.c:134-154 | the iterator still points into the list after a delete exactly when another node was deleted |
| Registry.MapOfLookup | src/heapstore_registry.c:38-51 | the map a list stands for has exactly the ids and records of the list |
| Registry.DeletedMap | src/heapstore_registry.c:134-154 | taking one node out of a list removes one id from its map |
| Registry.UpdatedMap | src/heapstore_registry.c:121-132 | replacing a record in the list replaces it in the map |
| AgentTable.ReadBack | src/heapstore_registry_sqlite.c:181-197 | a record bound by position, stored and extracted column by column comes back unchanged, through the signed conversion of its times and the size limits of its strings |
| AgentTable.ColumnsRead | src/heapstore_registry_sqlite.c:181-197 | a column too long for its field is cut to what fits, one that is not text reads as empty, one that is no number as 0 |
| AgentTable.InsertAddsOne | src/heapstore_registry_sqlite_agent.c:67-78 | INSERT fails exactly on a known id and otherwise adds exactly that record |
| AgentTable.UpdateKeepsCreation | src/heapstore_registry_sqlite_agent.c:14-28 | UPDATE replaces every field but created_at, and changes nothing for an unknown id |
| AgentTable.DeleteRemovesOne | src/heapstore_registry_sqlite_agent.c:105-112 | DELETE removes the record of the id |
| SqlRegistry.Connection.SqlExecLocked | src/heapstore_registry_sqlite.c:155-179 | a statement takes effect exactly when success is returned |
| SqlRegistry.Connection.AddAgent | src/heapstore_registry_sqlite_agent.c:67-78 | adds the record, or refuses an empty or known id or a failing database without effect |
| SqlRegistry.Connection.GetAgent | src/heapstore_registry_sqlite.c:199-224 | returns the record of the map, NOT_FOUND, or a database error |
| SqlRegistry.Connection.UpdateAgent | src/heapstore_registry_sqlite_agent.c:92-103 | succeeds for unknown ids too, and keeps created_at of known ones |
| SqlRegistry.Connection.DeleteAgent | src/heapstore_registry_sqlite_agent.c:105-112 | succeeds for unknown ids too |
| SqlRegistry.Connection.BatchInsertAgents | src/heapstore_registry_sqlite.c:256-295 | success inserts all records and closes the transaction; any failure but that of COMMIT or ROLLBACK leaves the table as it was; those two leave a first part of the records pending in the open transaction |
| SqlRegistry.BatchAccepts | src/heapstore_registry_sqlite.c:274-283 | the rows all go in exactly when their ids are new and distinct, and the result is then the union |
| BackendAgreement.EffectsAgreeIff | src/heapstore_registry_sqlite_agent.c:67-154 | exactly which calls leave list and table with the same agents, in terms of the call and the agents before it |
| BackendAgreement.AnswersAgreeIff | src/heapstore_registry.c:84-183 | exactly which of those also answer the same |
| BackendAgreement.WholeBatchIff | src/heapstore_registry.c:171-183 | the list takes a batch whole exactly when its ids are new, distinct and non-empty |
| BackendAgreement.BatchGuards | src/heapstore_registry.c:171-183 | how far each backend gets with a batch, in terms of its ids: the list refuses the first record exactly when its id is empty or known |
| BackendAgreement.ListBatchAllOrNothingIff | src/heapstore_registry.c:171-183 | a list batch is all or nothing exactly when the first record is refused or all ids are new, distinct and non-empty |
| BackendAgreement.FailedRow | src/heapstore_registry_sqlite.c:256-295 | a row failing in mid-batch leaves nothing in the table and exactly the preceding records in the list |
| BackendAgreement.RunBoth | src/heapstore_registry_sqlite_agent.c:67-154 | both backends driven through any calls with memory and the database failing anywhere: a call fails only where memory or a database call did, and a failed call that is no batch changes nothing, so the list goes through the steps of the calls that passed and gives their answers, and so does the table as long as no failed batch has left its transaction open; a run of calls of the same effect in which nothing fails leaves both with the same agents |
| BackendAgreement.RunsAgree | src/heapstore_registry_sqlite_agent.c:67-154 | a run of calls that each have the same effect where they come ends with the same agents |
| BatchQueue.BatchContext.constructor | src/heapstore_core_batch.c:54-68 | the capacity is the request, or 1024 when that is 0 or larger |
| BatchQueue.BatchContext.AppendItem | src/heapstore_core_batch.c:14-36 | links the item behind the tail, or refuses a full context |
| BatchQueue.BatchContext.AddSession | src/heapstore_core_batch.c:70-84 | a record joins the end of the pending ones exactly when there is room and memory, and is refused without effect otherwise; one thread never exceeds the capacity |
| BatchQueue.BatchContext.Discard | src/heapstore_core_batch.c:87-106 | leaves the context empty and frees each item once |
| BatchQueue.Drain | src/heapstore_core_batch.c:142-151 | the drain loop offers each record of the detached list to the registry in order and keeps the first error |
| BatchQueue.BatchContext.Commit | src/heapstore_core_batch.c:127-154 | hands every pending record to the registry in order, whatever became of the one before, and returns the first error |
| BatchQueue.SuccessMeansAll | src/heapstore_core_batch.c:144-149 | success is returned exactly when every record was taken |
| BatchQueue.FirstWins | src/heapstore_core_batch.c:142-151 | while memory lasts, an id not known before ends with the first record that carries it |
| BatchProtocol.RunKeepsInv | src/heapstore_core_batch.c:14-154 | every interleaving keeps mutual exclusion, the shape of queue and detached lists, single ownership and freedom from leaks |
| BatchProtocol.FreeLock | src/heapstore_core_batch.c:26-33 | whenever the lock is free count is the length of the list, tail is its last node, and it holds the successful adds not yet detached, in order |
| BatchProtocol.Conservation | src/heapstore_core_batch.c:127-154 | in every reachable state the successful adds are those handed over, those detached by a commit in progress and those still queued |
| BatchProtocol.StepKeepsHanded | src/heapstore_core_batch.c:142-151 | each commit hands over its list in the order of the adds |
| BatchProtocol.ItemsAddUp | src/heapstore_core_batch.c:127-154 | when all threads are done every successfully added item was handed over exactly once or is still queued, and nothing else is allocated |
| BatchCalls.ExactlyOnce | src/heapstore_core_batch.c:70-154 | over every schedule: when all threads are done, the records of the add calls that returned success are, each as often as it was added, those handed to the registry together with those still queued |
| BatchCalls.ReturnedIff | src/heapstore_core_batch.c:70-84 | which calls those are, read off the schedule: an add of an idle thread that is under way until it leaves the critical section behind the count |
| BatchCalls.RunKeepsTrail | src/heapstore_core_batch.c:14-36 | every item ever allocated holds the record of an add call of its own |
| BatchProtocol.NoDeadlock | src/heapstore_core_batch.c:26-33 | some thread can always take a step |
| BatchCapacity.Overshoot | src/heapstore_core_batch.c:21-33 | with A adders neither count nor the list exceeds capacity + A - 1; with one, never the capacity |
| BatchCapacity.OvershootReached | src/heapstore_core_batch.c:21-33 | for every capacity and number of adders some interleaving reaches that bound |
| Metrics.PeakBounds | src/heapstore_core_metrics.c:46-73 | at every moment of every schedule the counter is the number of updates that have entered and not left, the peak is at most some value the counter had before, and at least what every update past its loop met |
| Metrics.StepKeepsPeak | src/heapstore_core_metrics.c:51-61 | the peak never falls |
| Metrics.FailedExchange | src/heapstore_core_metrics.c:53-61 | a failed exchange strictly shrinks the distance the loop has to go |
| Metrics.OpsAreConcurrency | src/heapstore_core_metrics.c:51-52 | what an update takes through its loop is the value the counter had at the moment it entered |
| Metrics.Terminates | src/heapstore_core_metrics.c:46-73 | n updates take at most n(n + 8) steps under every schedule |
| Metrics.AtRest | src/heapstore_core_metrics.c:46-73 | when all have returned, current is 0, total is fast plus slow, fast, failed and time are exact, and the peak is exactly the highest value the counter had at any moment of the schedule |
| Cleanup.DirSize | src/utils.c:37-122 | the recursive walk adds up sizes and counts of what can be opened, modulo 2^64 and 2^32 |
| Cleanup.Partition.DirClean | src/utils.c:124-202 | removes exactly the old regular files that unlink removes, keeps the others in order, and adds their sizes to the counter |
| Cleanup.PreClean | src/utils.c:204-223 | cleaning goes on exactly when initialised and with a positive number of days |
| Cleanup.Partition.Sweep | src/heapstore_log.c:395-412 | over the listed directories the counter is the number of bytes gone, which the measuring walk confirms if the base can be opened; only old files directly in those directories are gone |
| Cleanup.CleanUp | src/heapstore_core_write.c:175-220 | the reported bytes are those of the files gone from the log base and traces/spans, exactly below 2^64; the measured sizes fall by the same number exactly when the log base can be opened or nothing below it was freed; gone are exactly the files that are past their cutoff, lie directly in a listed directory that can be opened, and can be unlinked; a setting of 0 or of 2^31 days and more cleans nothing |
| Cleanup.CleanedOne | src/utils.c:124-202 | cleaning one directory takes exactly its old files that unlink removes from the whole tree, and opens and closes no directory |
| Cleanup.PutSize | src/utils.c:85-118 | what is freed in one directory is what the tree has less, and what the measuring walk no longer finds if it gets there |
| ServiceNames.IdentSafe | src/utils.c:267-297 | accepts exactly the non-empty names of letters, digits, underscores, hyphens and dots without two dots in a row |
| ServiceNames.PathClean | src/utils.c:225-265 | rejects exactly empty and overlong names, slashes, backslashes and two dots in a row, and then leaves the buffer alone; otherwise fills it with the name, each other character replaced by an underscore, and its NUL |
| ServiceNames.CleanedIsSafe | src/utils.c:225-297 | whatever is accepted comes out safe |
| ServiceNames.SafeIffUnchanged | src/utils.c:225-297 | a name is safe exactly when cleaning accepts and does not change it |
| ServiceNames.CleanTwice | src/utils.c:254-262 | cleaning twice is cleaning once |
| ServiceNames.Collide | src/utils.c:254-262 | exactly which names come out the same |
| ServiceNames.LogFiles.ServiceLogFile | src/heapstore_log.c:135-186 | one stream for each cleaned name, at most 32 of them, and the main log for new names when the table is full; an accepted name is refused only when an open failed |
| ServiceNames.LogFiles.Run | src/heapstore_log.c:135-186 | over any run of requests each is answered from the table as it then is, and once a name has got a stream every later request for the same cleaned name gets that stream |
| ServiceNames.OneStreamEach | src/heapstore_log.c:147-178 | two names in the table share a stream exactly when they are equal, and it is the file of that name |
| ServiceNames.FilesApart | src/heapstore_log.c:160-178 | different names have different files, none of them the main log, each directly in the services directory |

## Left out

- Lifecycle.Heapstore.Retry: needs replayable steps, which Replay.ReplayableIff shows to be exactly the lists for which restarting is safe, and, for a program that is already up, a version above 0 that is current or a goal that is; a database that a foreign program put behind a root of 490 characters or more, where no separate backup fits, is excluded.
- JsonRead.ArrayReads: the reader takes control characters in texts as they are.
- Cleanup.CleanUp: which files are gone is stated for trees whose directories have no two entries of one name; the dry-run flag, which changes only the reported number, is not modelled.
- DataMigration.DropColumnsFrom: key constraints and indexes of a rebuilt table are not modelled, a read error in the middle of the list of columns is not either, and the joined column names are taken to fit the 1024-byte buffer.
- Registry.Domain.Iterate: a delete of the node the iterator stands at is excluded, because the next call would use freed memory.
- SpanBuffer.Trace.Flush: the text of the file it writes is not modelled, and its write errors, which the code ignores, are not either.
- The durability of a rename or remove that returned is assumed for the database and its backup; VersionFile.RunWithPowerLoss does without it for the version file. SQLite's journal files are part of an atomic statement, and its column names are compared as written.
- The stat errors other than absence, file modes, directory creation and symbolic links.
- The migration report, its records_affected counters and the time stamps in it.
- NULL pointer arguments, which every entry point rejects before doing anything.
- The skill and session tables of the SQLite backend and the memory subsystem, which repeat the agent table and the registry in an easier form.
- Iterators and filters of the SQLite backend, whose order is that of the database.
- The circuit breaker, log formatting, levels, rotation, configuration updates, health checks, statistics and the integration layer.
- Resetting the metrics while updates run, and the overflow of counters after 2^32 concurrent or 2^64 total operations.
- Paths cut at 1024 bytes during a directory walk, and the uint64_t sum of batch sizes, which cannot wrap for an array that exists.
- Memory order weaker than sequential consistency for the unlocked reads of a batch context's count.
- The Windows branches, the Python scripts and the PostgreSQL files.
