# Verified model of the sync server's core

A Dafny model of the server's log-entry synchronisation and of the protocols around it, with proofs of what the
service is for: a client that follows `highestSyncSeq` never misses or repeats an entry, the greedy page cut is the
largest one the byte budget allows, sequences follow commit order, tokens are issued once per challenge, connection
limits hold in every window, every instance uses one encryption key, and the log sanitizer terminates on cyclic data
and keeps secrets out of its output. Where the code falls short of this, the model says on exactly which inputs.

`dafny verify dfyconfig.toml` checks the whole project.

## How the modules follow the code

- **The log.** `LogModel` has the table, the filters and the keyset queries. `Allocator` has the write statement as
  a class over the two tables, `WriterProtocol` the same statement cut into its steps (snapshot, allocation under the
  counter-row lock, commit or abort, read-back of a duplicate) and interleaved with other writers and with operators
  that change counter rows. `CommitOrder` proves when commit order survives such changes. `Migration` has the
  back-fill.
- **The readers.** `PageCut` is the greedy pass over a result list; `SyncPull` and `CursorPull` are the two paged
  loops, which refine it whatever their page size. `Draining` and `CursorDraining` chain pulls, `Delivery` joins
  readers and writers, `TimestampResolution` is the wall-clock entry point, `ReceiptOrder` sets receipt times against
  commit order, and `LogEntrySync` is the request that chooses a reader.
- **Graphs.** `DuplicateError` is the worklist search over linked error objects. `SanitizerModel` is the sanitizer's
  recursion over a finite, possibly cyclic graph; `LogSanitizer` is the same in the code's own loops over one shared
  `seen` set. `SanitizerKeys` says which keys are sensitive and `SanitizerOutput` how each kind of value reads;
  `SanitizerPaths`, `SanitizerCycles`, `SanitizerSecrecy` and `SecrecyLimits` prove what the sanitizer promises and
  where it does not keep it.
- **Device authentication.** `Numerals` and `Base58` are the number text; `NseAuth` the challenge table;
  `ChallengeProtocol` every interleaving of token requests at their awaits.
- **Smaller machines.** `RateLimit`, `AwsSecrets` with `ServerKey`, and `CommunityCache`.

A PostgreSQL statement reads one snapshot; a counter row stays locked to the end of the statement that wrote it; a
failed statement changes nothing; the primary key and the unique index are enforced. Clocks, random bytes, ciphers,
signature checks and the answers of remote services are parameters.

## What the proofs show about the code

- **Commit order.** Sequences of a community are exactly 1..n in commit order for all runs in which counter rows are
  only lowered or deleted (`RunsAreOrdered`), and ascend when counters may be raised as well, provided none is lowered
  or deleted while a write to that community is in flight (`QuietRunsAscend`). A raise followed by a delete under a
  stale snapshot breaks the order (`RaiseThenDeleteBreaksOrder`). In general a run keeps it, and the readers see the
  history they rely on, if and only if every write that went through found its counter row or its snapshot up to date
  when it allocated (`RunKeepsOrderIffUpToDate`, `RunIsHistoryIffUpToDate`). That is also exactly when every answered
  entry reaches every client that pulls to the end afterwards (`EntriesArriveIffUpToDate`).
- **A limit of 0** gives the sequence reader an empty page with no next page although rows remain; for all others the
  flag is truthful (`CutIsLongestFit`).
- **Timestamps.** Receipt times are taken before the insert and may run against sequence order: two writers suffice
  (`LateCommitResolvesWrongly`). Starting at a time is exact for every time up to the last one a date can name,
  8640000000000000 ms, if and only if they do not (`ResolutionIsExactIffOrdered`). A later time resolves to 0, and
  everything is sent again (`PastDatesResolveToStart`).
- **The legacy cursor** follows receipt order. A drain has every row that was there when it began; a row that commits
  meanwhile arrives if and only if it lies beyond the cursor reached by then (`LateRowArrivesIffBeyond`), and otherwise
  never (`LateCommitIsMissed`).
- **A duplicate id** is answered with the position stored under it, whichever community that row belongs to, and
  whatever bytes it holds: of two payloads with one id only the first is stored (`DuplicateIdKeepsFirstBytes`). An
  answered payload's own bytes reach every client that asks for them where they are what was stored
  (`AnsweredBytesArrive`), as they are for a write that stored its row and where an id names one payload only.
- **Base58.** Round trips fail exactly on all-zero bytes and on all-`1` text, and encoding the empty byte string
  throws. Decoding stays injective on all valid text.
- **[Circular].** Some values make the sanitizer throw: invalid dates, objects whose `constructor` is null, undefined
  or missing, objects at the depth limit whose class name has no text, and map keys that have none. An object catches
  what its fields throw; a map, set or array does not, and stays in `seen`. Every call restores `seen` if and only if
  no map, set or array holds a throwing value, directly or through error causes (`SeenIsRestoredIffCalm`), and exactly
  then is `[Circular]` shown for a cycle and nothing else, for the fields of any object one could build over the graph
  (`CircularIsExactIffCalm`). Otherwise a shared array can read `[Circular]` without any cycle
  (`InvalidDateFakesACycle`, `MissingConstructorFakesACycle`). It is never shown without a cycle if and only if every
  list with such a value leads to a cycle itself (`CircularIsTrueIffLeaksLeadToCycles`).
- **Secrets.** A key is sensitive if and only if it spells one of the listed parts, in any letter case and with
  anything that is neither letter nor digit in between (`SensitiveIffSpelled`), and exactly the values under such keys
  are redacted (`RedactedIffSpelled`). With values sanitized, as by default, a graph keeps its secrets if and only if
  nothing that is handed over as it is leads to one (`HiddenIffNothingExposed`). Two things are handed over: with
  binary summaries off, the data array of a record that looks like a serialized Buffer (`BufferShows`), and under all
  options, the defaults included, an object that stands as the class name of another, such as the `name` of an own
  `constructor`. So `{"constructor":{"name":{"token":"..."}}}` is written out with its token (`ConstructorShows`).
  Where no class name is an object, secrets are kept if and only if both options are on
  (`OrdinaryGraphsHideIffSanitizedAndSummarized`).
- **Communities.** A start leaves a community without connections, and then without an expiry, if and only if the
  connection drops while it is being started and no other user had one. No sweep ever evicts such a community, however
  long, until a start for it or a disconnect of one of its connections (`DroppedStartIsNeverSwept`). A start that
  throws can leave a community in use with an expiry, in exactly the cases `StartKeepsInUseIff` names; the next sweep
  clears it.

## Model

| member | source | states |
|---|---|---|
| LogModel.ListingSplits | app/src/nest/communities/storage/log-entry-sync.storage.service.ts:254-300 | Cutting a result list after any row cuts the sequence range there: asking again above that row's sequence gives exactly the rest. |
| LogModel.RangesAreFinal | app/src/nest/communities/storage/log-entry-sync.storage.service.ts:68-108 | Under commit order, no lower sequence becomes visible later: the rows between any start and a stored row never change again. |
| LogModel.EndBoundIsARange | app/src/nest/communities/storage/log-entry-sync.storage.service.ts:277-280 | An end bound cuts the listing off there: it is the range of the listing without it. |
| LogModel.HashPicksRows | app/src/nest/communities/storage/log-entry-sync.storage.service.ts:271 | A hash keeps, of the rows listed without it, exactly those with that id, in order. |
| LogModel.HashedDbPicksRows | app/src/nest/communities/storage/log-entry-sync.storage.service.ts:273-275 | A hashed database id keeps exactly the rows stored under it, in order. |
| LogModel.UnfilteredIsCommunity | app/src/nest/communities/storage/log-entry-sync.storage.service.ts:270-289 | Without filters the listing is the community's rows above the start, ascending, each once. |
| Allocator.RecoveredIsAboveAll | app/src/nest/communities/storage/log-entry-sync.storage.service.ts:71-81 | The sequence recovered from the log is above every stored one of the community and one above the highest, or 1. |
| Allocator.LogTables.AddLogEntry | app/src/nest/communities/storage/log-entry-sync.storage.service.ts:52-151 | A new id is appended with the payload in every column and a sequence above everything its community stored, whatever the counter row says, and the counter follows; a stored id is answered with its original position and changes neither table. |
| WriterProtocol.RunsAreSound | app/src/nest/communities/storage/log-entry-sync.storage.service.ts:68-147 | Over every run, tampering with counters included: nothing stored is lost or moved, ids and (community, sequence) pairs stay distinct, and every position a writer was answered is the one stored under its id. |
| WriterProtocol.CommitStoresPayload | app/src/nest/communities/storage/log-entry-sync.storage.service.ts:93-121 | A commit that stores a row stores what its client sent, column by column, and answers with its receipt time and sequence. |
| WriterProtocol.RunsStoreWhatWasSent | app/src/nest/communities/storage/log-entry-sync.storage.service.ts:93-121 | Over every run, each stored row holds what some writer's client sent. |
| WriterProtocol.StoredIdChangesNothing | app/src/nest/communities/storage/log-entry-sync.storage.service.ts:144-147 | While an id is stored, no step of a writer that carries it changes a table. |
| WriterProtocol.RunsAreOrdered | app/src/nest/communities/storage/log-entry-sync.storage.service.ts:68-108 | With stale snapshots, aborts, duplicates and counters lowered or deleted between writes, sequences are exactly 1..n per community and every commit takes the next one. |
| WriterProtocol.NoFreshEntryIsRefused | app/src/nest/communities/storage/log-entry-sync.storage.service.ts:82-104 | When counters are left alone, a commit of an id not yet stored always stores it, at the count of its community plus one. |
| WriterProtocol.LoneWriterIsAddLogEntry | app/src/nest/communities/storage/log-entry-sync.storage.service.ts:68-147 | The protocol's steps of one undisturbed write have exactly the effect of AddLogEntry. |
| CommitOrder.QuietRunsAscend | app/src/nest/communities/storage/log-entry-sync.storage.service.ts:68-108 | Commit order is sequence order even when counters are raised at will, if none is lowered or deleted while a write to its community is in flight. |
| CommitOrder.RunKeepsOrderIffUpToDate | app/src/nest/communities/storage/log-entry-sync.storage.service.ts:68-108 | A run of writers, however counters are tampered with, keeps commit order if and only if every write that went through found its counter row or its own snapshot up to date when it allocated. |
| CommitOrder.RunIsHistoryIffUpToDate | app/src/nest/communities/sync/log-entry-sync.service.ts:276-287 | The logs of a run form the history every pull relies on under exactly the same condition. |
| CommitOrder.RaiseThenDeleteBreaksOrder | app/src/nest/communities/storage/log-entry-sync.storage.service.ts:86-90 | A concrete run from the empty tables, with a raised and then deleted counter under a stale snapshot, in which a lower sequence is committed later. |
| WriterProtocol.ReadsOfARunAreAHistory | app/src/nest/communities/sync/log-entry-sync.service.ts:276-287 | Page reads that fall anywhere in any run of the writers see a history for which every pull is exact. |
| CommitOrder.ReadsOfUpToDateRunsAreAHistory | app/src/nest/communities/sync/log-entry-sync.service.ts:276-287 | The same for runs in which counters are tampered with in any way, when every write that stored a row was up to date. |
| TimestampResolution.ResolutionIsExactIffOrdered | app/src/nest/communities/storage/log-entry-sync.storage.service.ts:176-195 | Resuming after a time gives exactly what was received after it, for every time up to the last a date can name, if and only if receipt times never run against sequence order. |
| TimestampResolution.PastDatesResolveToStart | app/src/nest/communities/storage/log-entry-sync.storage.service.ts:184-194 | A later time has no ISO text, is compared as null and resolves to 0, which is exact if and only if the community has no rows. |
| ReceiptOrder.ResolutionIsExactIffCommitsFollowReceipt | app/src/nest/communities/storage/log-entry-sync.storage.service.ts:52-108 | After any run of writers that keeps commit order, all times up to that one resolve exactly if and only if rows were committed in the order of their receipt. |
| ReceiptOrder.LateCommitResolvesWrongly | app/src/nest/communities/storage/log-entry-sync.storage.service.ts:56-62 | A concrete run of two writers from the empty tables, counters left alone, after which resuming at time 1 skips the row received at 2. |
| PageCut.CutIsLongestFit | app/src/nest/communities/sync/log-entry-sync.service.ts:301-353 | The greedy pass takes the longest admissible prefix under budget and limit; its flag tells truthfully whether rows remain, if and only if the limit is not 0 or nothing matches. |
| PageCut.LongestFitUnique | app/src/nest/communities/sync/log-entry-sync.service.ts:301-336 | That prefix is unique, so the page cut is determined by the list, the budget and the limit. |
| PageCut.SyncCutIsLargestFit | app/src/nest/communities/sync/log-entry-sync.service.ts:306-330 | With the sequence reader's metadata no admissible prefix of any length is longer than the one taken. |
| PageCut.PagesComposeToCut | app/src/nest/communities/sync/log-entry-sync.service.ts:276-353 | Cutting page by page, for any page boundary, is cutting the whole list once. |
| PageCut.TakePage | app/src/nest/communities/sync/log-entry-sync.service.ts:301-336 | The inner loop takes from a page what the greedy pass takes, with the same bytes, flag and reason to stop. |
| PageCut.DecimalReads | app/src/nest/communities/sync/log-entry-sync.service.ts:306-311 | The text of a sequence in the metadata is its digits, without leading zeros, with a sign before a negative one. |
| PageCut.SyncMetadataReads | app/src/nest/communities/sync/log-entry-sync.service.ts:306-311 | The size a row is charged for metadata is that of its sequence, the flag and 34 characters around them. |
| SyncPull.PullBySyncSeq | app/src/nest/communities/sync/log-entry-sync.service.ts:254-368 | With writers committing between page reads: the response is exactly the matching rows of the final store in (resolvedStartSeq, highestSyncSeq], each meeting every bound and filter of the request, within budget and limit, with a truthful flag; on a store that does not change it is one greedy pass. |
| SyncPull.OutcomeInColumns | app/src/nest/communities/sync/log-entry-sync.service.ts:254-368 | In the columns of the rows: only rows of the community above the start, up to the end bound, with the hash and database asked for; all of those its last read saw up to highestSyncSeq, and all of them if there is no next page; and no more than 800000 bytes with metadata for two rows or more. |
| Draining.ChainsDeliverExactly | app/src/nest/communities/sync/log-entry-sync.service.ts:268-274 | However writers interleave, a client that resumes at highestSyncSeq holds exactly the final store's rows between where it began and where it stands, ascending, each once. |
| Draining.FinishedChainsMissNothing | app/src/nest/communities/sync/log-entry-sync.service.ts:342-353 | Once a pull reports no next page, nothing its last read could see is missing. |
| Draining.Drain | app/src/nest/communities/sync/log-entry-sync.service.ts:254-368 | Repeating the pull ends, with the whole filtered list in sequence order; every call with more to come is non-empty, none exceeds the limit, and the calls form a chain as above. |
| Draining.OneShotEqualsDrain | app/src/nest/nse/nse.controller.ts:86-123 | The one-shot read after a sequence or time equals the concatenation of all chained unfiltered pulls from the same start. |
| Draining.OtherTeamsAreRefused | app/src/nest/nse/nse.controller.ts:81-84 | The one-shot read is refused if and only if the token is for another team. |
| Delivery.AnsweredEntriesArrive | app/src/nest/communities/sync/log-entry-sync.service.ts:67-94 | In every run of concurrent writers, an entry whose position was answered reaches every client that afterwards pulls to the end and asked for it. |
| Delivery.AnsweredBytesArrive | app/src/nest/communities/sync/log-entry-sync.service.ts:67-94 | In such a run the answered payload's own bytes are in a response to every such client whose request names it, where they are what was stored. |
| Delivery.OwnCommitIsStoredAsSent | app/src/nest/communities/storage/log-entry-sync.storage.service.ts:93-121 | They are for every write whose commit stored a row, for good. |
| Delivery.OnlyNameIsStoredAsSent | app/src/nest/communities/storage/log-entry-sync.storage.service.ts:144-147 | And for every answered payload whose id was never sent or stored with anything else. |
| Delivery.DuplicateIdKeepsFirstBytes | app/src/nest/communities/storage/log-entry-sync.storage.service.ts:144-147 | A concrete run in which two payloads with one id are both answered, with one position, and only the first one's bytes are stored. |
| Delivery.EntriesArriveIffUpToDate | app/src/nest/communities/sync/log-entry-sync.service.ts:67-94 | However counters are tampered with, all answered entries reach all such clients if and only if every write that stored a row found its counter row or its snapshot up to date when it allocated; otherwise some client pulls to the end and misses one. |
| Delivery.QuietRunsAreUpToDate | app/src/nest/communities/storage/log-entry-sync.storage.service.ts:86-90 | In runs that only lower or delete counters every write is up to date, so all of the above holds of them. |
| CursorPull.ResumeAfterRow | app/src/nest/communities/storage/log-entry-sync.storage.service.ts:243-251 | Resuming from the cursor of any row leaves exactly the rows after it in (received_at, id) order. |
| CursorPull.ListingInColumns | app/src/nest/communities/storage/log-entry-sync.storage.service.ts:217-251 | The cursor reader lists, by receipt time and then by id, exactly the community's rows that meet every filter and time bound and lie strictly behind the cursor; a start that is no date matches nothing, and such an end is no bound. |
| CursorPull.CursorMetadataReads | app/src/nest/communities/sync/log-entry-sync.service.ts:186-193 | The size a row is charged for metadata is that of its cursor, both sequences and the flag and 66 characters around them. |
| CursorPull.PullByCursor | app/src/nest/communities/sync/log-entry-sync.service.ts:130-252 | With writers committing between page reads: the rows are matching, in cursor order, within budget and limit; of those there at the first read only rows beyond the returned cursor are missing, and the flag tells whether any remain. On a store that does not change it is one greedy pass; a limit of 0 lets one row through if the library gives any to `first: 0`. |
| CursorDraining.ChainsPass | app/src/nest/communities/sync/log-entry-sync.service.ts:153-251 | However writers interleave with a chain of cursor pulls, the client has each row once, in cursor order, and of the rows there at its first read only those beyond the cursor it reached are missing. |
| CursorDraining.FinishedChainsMissNothingOld | app/src/nest/communities/sync/log-entry-sync.service.ts:236-251 | Once a pull reports no next page, a matching row that was there at the start was delivered if and only if it lies beyond the cursor the chain began with. |
| CursorDraining.LateRowArrivesIffBeyond | app/src/nest/communities/sync/log-entry-sync.service.ts:236-251 | A row that commits while a client is at a cursor reaches it if and only if the row lies beyond that cursor. |
| ReceiptOrder.LateCommitIsMissed | app/src/nest/communities/sync/log-entry-sync.service.ts:153-251 | On the log of the run above: a client that pulled to the end between the two commits never gets the second row, whatever it pulls from its cursor. |
| CursorDraining.DrainByCursor | app/src/nest/communities/sync/log-entry-sync.service.ts:153-251 | Draining a store that does not change ends with the filtered rows in (received_at, id) order, each once. |
| CursorDraining.DrainsArePermutations | app/src/nest/communities/sync/log-entry-sync.service.ts:153-251 | From a start at or before every row and without upper bounds, the cursor drain is a permutation of the sequence drain from 0. |
| LogEntrySync.GetPaginatedLogEntries | app/src/nest/communities/sync/log-entry-sync.service.ts:96-128 | The community is looked up, and loaded if it is not cached; after the permission check either sequence bound selects the sequence reader, and without one a start time is required and the cursor reader answers, writers committing between the reads of both. Every error case is stated exactly. |
| LogEntrySync.PermittedIffJoinedHere | app/src/nest/communities/sync/log-entry-sync.service.ts:376-425 | A user is let through if and only if the connection registered for them is joined and is the one of the asking socket. |
| LogEntrySync.RefusalNamesReason | app/src/nest/communities/sync/log-entry-sync.service.ts:376-425 | Every other user is refused for one reason, given by the community, the registered connection, its socket and its status. |
| LogEntrySync.JoinedUserIsPermitted | app/src/nest/communities/sync/log-entry-sync.service.ts:376-425 | A user who starts a connection may pull on its socket, and on no other, from when it is joined until it disconnects. |
| Migration.NumberingIsConsecutive | app/src/migrations/Migration20260401170000.ts:11-25 | The back-fill gives each community exactly 1..n. |
| Migration.NumberingFollowsReceipt | app/src/migrations/Migration20260401170000.ts:15-18 | Within a community numbers compare exactly as (received_at, id) does. |
| Migration.Numbered | app/src/migrations/Migration20260401170000.ts:11-25 | Every entry keeps its columns and only gains its number. |
| Migration.MigratedStateIsOrdered | app/src/migrations/Migration20260401170000.ts:11-39 | Numbers and counters after the migration meet every invariant a writer run starts from, and receipt times follow sequence order. |
| Migration.MigrationTables.Up | app/src/migrations/Migration20260401170000.ts:4-40 | The statements in order leave those numbers and counters, and neither the not-null change nor the unique index fails. |
| Migration.MigrationTables.SeedCounters | app/src/migrations/Migration20260401170000.ts:26-33 | A community with n entries gets counter n+1, one without gets none. |
| DuplicateError.IsDuplicateLogEntryIdError | app/src/nest/communities/storage/log-entry-sync.storage.util.ts:17-71 | The search ends on every finite error graph and says true if and only if some object that causes, driver exceptions and original errors lead to reports itself a unique violation and the table's primary key. |
| SanitizerModel.Run | app/src/nest/app/logger/log-sanitizer.ts:70-115 | The recursion ends on every finite graph whose error causes end, by depth left or by containers not yet on the path, and never forgets a node that was in `seen` before the call. |
| LogSanitizer.Sanitize | app/src/nest/app/logger/log-sanitizer.ts:56-68 | The imperative sanitizer, started with an empty set, gives the recursion's result. |
| LogSanitizer.Sanitizer.SanitizeValue | app/src/nest/app/logger/log-sanitizer.ts:70-115 | Result and `seen` set after the call are those of the recursion. |
| LogSanitizer.Sanitizer.SanitizeError | app/src/nest/app/logger/log-sanitizer.ts:150-171 | The same for errors with a cause, exceptions passing through. |
| LogSanitizer.Sanitizer.SanitizeMap | app/src/nest/app/logger/log-sanitizer.ts:173-199 | The same for maps: keys, then values judged by their key's text; an exception leaves the map in `seen`. |
| LogSanitizer.Sanitizer.SanitizeSet | app/src/nest/app/logger/log-sanitizer.ts:201-223 | The same for sets. |
| LogSanitizer.Sanitizer.SanitizeArray | app/src/nest/app/logger/log-sanitizer.ts:225-240 | The same for arrays. |
| LogSanitizer.Sanitizer.SanitizeObject | app/src/nest/app/logger/log-sanitizer.ts:242-282 | The same for objects, which look up their class before anything else, catch exceptions field by field and are always taken out of `seen`. |
| SanitizerKeys.SensitiveIffSpelled | app/src/nest/app/logger/log-sanitizer.ts:368-371 | A key is sensitive if and only if it spells one of the sixteen listed parts, in any letter case, with nothing but characters that are neither letters nor digits in between. |
| SanitizerKeys.CaseDoesNotMatter | app/src/nest/app/logger/log-sanitizer.ts:369 | Keys that differ in letter case only are judged alike. |
| SanitizerKeys.SeparatorsDoNotMatter | app/src/nest/app/logger/log-sanitizer.ts:369 | Inserting a character that is neither letter nor digit anywhere changes nothing. |
| SanitizerKeys.RedactedIffSpelled | app/src/nest/app/logger/log-sanitizer.ts:75-77 | A keyed value is redacted if and only if values are sanitized and its key spells a listed part. |
| SanitizerOutput.SensitiveFieldIsRedacted | app/src/nest/app/logger/log-sanitizer.ts:262-267 | So reads every shown field of an object whose name does, whatever it holds. |
| SanitizerOutput.SensitiveEntryIsRedacted | app/src/nest/app/logger/log-sanitizer.ts:186-189 | And every shown value of a map whose key's text does. |
| SanitizerOutput.TextReads | app/src/nest/app/logger/log-sanitizer.ts:361-366 | A text of more than 256 characters reads as its first 242 and a note; others, and all without sanitizing, as they are. |
| SanitizerOutput.PrimitivesRead | app/src/nest/app/logger/log-sanitizer.ts:127-145 | Numbers, booleans and absent values read as themselves, big integers with an `n`, symbols by their text and functions by their name, if they have one. |
| SanitizerOutput.KeyTextsRead | app/src/nest/app/logger/log-sanitizer.ts:188 | The text a map's value is judged by is the one its key converts to. |
| SanitizerOutput.ArrayReads | app/src/nest/app/logger/log-sanitizer.ts:225-240 | An array shows its first 50 items in order, each rendered, and then how many it leaves out. |
| SanitizerOutput.SetReads | app/src/nest/app/logger/log-sanitizer.ts:201-223 | The same for sets, with their size. |
| SanitizerOutput.MapReads | app/src/nest/app/logger/log-sanitizer.ts:173-199 | The same for maps: each key, and its value as judged by that key's text. |
| SanitizerOutput.ObjectReads | app/src/nest/app/logger/log-sanitizer.ts:242-282 | An object shows its first 100 fields, each rendered or unserializable, its class unless that is Object, and how many fields it leaves out; nothing else. |
| SanitizerOutput.ClassReads | app/src/nest/app/logger/log-sanitizer.ts:248-250 | The class of an object is what its own `constructor` names, else what its class does, and there is none if that is null or missing. |
| SanitizerOutput.RefusedReads | app/src/nest/app/logger/log-sanitizer.ts:177-253 | What lies inside itself, or 8 levels down, reads as a marker that names its kind and size. |
| SanitizerOutput.ErrorReads | app/src/nest/app/logger/log-sanitizer.ts:150-171 | An error reads as its class, name, message and stack, long texts cut, and its cause rendered one level down. |
| SanitizerOutput.DateReads | app/src/nest/app/logger/log-sanitizer.ts:92-94 | A date reads as its ISO text, and throws if it has none. |
| SanitizerOutput.BinaryReads | app/src/nest/app/logger/log-sanitizer.ts:298-355 | Binary data reads as its kind, its length, its first 16 bytes in hexadecimal and whether that is all. |
| SanitizerOutput.SerializedBufferReads | app/src/nest/app/logger/log-sanitizer.ts:323-344 | What looks like a serialized Buffer reads as its length and the numbers among its first 16 items. |
| SanitizerPaths.RunIsTree | app/src/nest/app/logger/log-sanitizer.ts:173-282 | Where no list that is reached holds a throwing value, the shared set acts as the path of enclosing containers: every value is rendered independently of its siblings and the set is restored. |
| SanitizerPaths.SeenIsRestoredIffCalm | app/src/nest/app/logger/log-sanitizer.ts:182-235 | Every call restores `seen` if and only if no map, set or array holds a throwing value, directly or through error causes. |
| SanitizerCycles.CircularIffCycle | app/src/nest/app/logger/log-sanitizer.ts:173-282 | Under both option settings, for a value that reaches no list holding a throwing value, [Circular] is shown if and only if a container that is reached lies inside itself. |
| SanitizerCycles.CircularIsExactIffCalm | app/src/nest/app/logger/log-sanitizer.ts:173-282 | That equivalence holds for the fields of any object one could build over the graph, at every depth, if and only if no map, set or array of the graph holds a throwing value. |
| SanitizerCycles.CircularIsTrueIffLeaksLeadToCycles | app/src/nest/app/logger/log-sanitizer.ts:173-282 | [Circular] is never shown without a cycle if and only if every list holding a throwing value leads to a cycle itself. |
| SanitizerCycles.AcyclicShowsNoneIffCalm | app/src/nest/app/logger/log-sanitizer.ts:173-282 | On a graph without cycles [Circular] is never shown if and only if no list holds a throwing value. |
| SanitizerCycles.CircularStandsAtReturns | app/src/nest/app/logger/log-sanitizer.ts:173-282 | Located: where the sanitizer does not throw, the place of a container in the output reads [Circular] if it lies inside itself on the way there, and otherwise shows the container or the depth marker (same premise as CircularIffCycle). |
| SanitizerCycles.SharedIsNotCircular | app/src/nest/app/logger/log-sanitizer.ts:190-280 | However often values are shared, an acyclic graph is rendered without [Circular] from every value that reaches no list holding a throwing value. |
| SanitizerCycles.InvalidDateFakesACycle | app/src/nest/app/logger/log-sanitizer.ts:230-235 | A concrete graph without cycles whose shared array, holding an invalid date, is shown as [Circular] on its second use. |
| SanitizerCycles.MissingConstructorFakesACycle | app/src/nest/app/logger/log-sanitizer.ts:246-250 | The same with an object whose own `constructor` is null, or that has no class; sanitized alone, such an object makes the sanitizer throw. |
| SanitizerSecrecy.SecretsAreHidden | app/src/nest/app/logger/log-sanitizer.ts:75-77 | Graphs that differ only under sensitive object or map keys, at any depth, give identical output, where nothing handed over as it is leads to a secret. |
| SecrecyLimits.HiddenIffNothingExposed | app/src/nest/app/logger/log-sanitizer.ts:75-115 | With values sanitized a graph hides its secrets from every comparable graph if and only if no public node hands over, as class name or as Buffer data, something that leads to a secret. |
| SecrecyLimits.OrdinaryGraphsHideIffSanitizedAndSummarized | app/src/nest/app/logger/log-sanitizer.ts:63-66 | All graphs whose class names are not objects hide their secrets if and only if values are sanitized and binary data is summarized. |
| SecrecyLimits.ConstructorShows | app/src/nest/app/logger/log-sanitizer.ts:248-260 | Under all options the `name` of an object's own `constructor` becomes its `type` as it is, secrets included. |
| SecrecyLimits.BufferShows | app/src/nest/app/logger/log-sanitizer.ts:323-329 | With summaries off, a secret inside an item of a serialized Buffer's data array can be read from the output. |
| SanitizerModel.Reached | app/src/nest/app/logger/log-sanitizer.ts:377-385 | What an array or object handed over as it is exposes: the least set of nodes that holds it and all its references lead to. |
| Base58.Base58Encode | app/src/nest/nse/nse-auth.service.ts:29-42 | The loops give the specified text for every non-empty byte string, and the empty one is an error. |
| Base58.Base58Decode | app/src/nest/nse/nse-auth.service.ts:44-66 | The loops give the specified bytes for valid text, and otherwise an error naming the first character outside the alphabet. |
| Base58.AlphabetIsBitcoins | app/src/nest/nse/nse-auth.service.ts:26-27 | The 58 symbols in order. |
| Base58.EncodedDenotes | app/src/nest/nse/nse-auth.service.ts:29-42 | The text denotes the number of the bytes, as sums of digits times powers of the base, with a `1` for each leading zero byte and no more. |
| Base58.DecodedDenotes | app/src/nest/nse/nse-auth.service.ts:44-66 | The bytes denote the number of the text. |
| Base58.HexBytes | app/src/nest/nse/nse-auth.service.ts:56-58 | Going through padded hexadecimal gives the shortest byte string, and one zero byte for zero. |
| Base58.DecodeUndoesEncode | app/src/nest/nse/nse-auth.service.ts:29-66 | Encoding fails if and only if there are no bytes; otherwise decoding undoes it if and only if the bytes are not all zero, and else one zero byte too many comes back. |
| Base58.EncodeUndoesDecode | app/src/nest/nse/nse-auth.service.ts:29-66 | Encoding undoes decoding if and only if the text is not all `1`s; k of those decode to k+1 zero bytes. |
| Base58.DecodeIsInjective | app/src/nest/nse/nse-auth.service.ts:216-223 | Equal decoded keys have equal texts, so comparing keys is comparing texts. |
| NseAuth.AcceptedProofNamesRegisteredKey | app/src/nest/nse/nse-auth.service.ts:191-238 | A proof passes if and only if it carries the registered key's own text and a signature valid under it for the consumed challenge. |
| NseAuth.RefusedProofNamesReason | app/src/nest/nse/nse-auth.service.ts:191-238 | Every other proof is refused for one reason, given by the registered key's text and the verifier's verdict. |
| NseAuth.NseAuthService.EvictExpiredChallenges | app/src/nest/nse/nse-auth.service.ts:287-292 | Exactly the challenges whose expiry has passed are dropped. |
| NseAuth.NseAuthService.IssueChallenge | app/src/nest/nse/nse-auth.service.ts:129-155 | The live challenges plus the new one remain, with its device, team and expiry. |
| NseAuth.NseAuthService.BeginToken | app/src/nest/nse/nse-auth.service.ts:165-204 | The request goes on if and only if the service is ready, the challenge is there, has not expired and is this device's, and both texts of the proof are valid; then with that challenge and both decodings. Each refusal is given exactly, and a ready service never keeps the challenge. |
| ChallengeProtocol.TokensAreOneShot | app/src/nest/nse/nse-auth.service.ts:165-248 | For every interleaving with fresh ids, a challenge yields at most one token, for the device and team it was issued for, consumed no later than its expiry. |
| ChallengeProtocol.ValidProofInTimeIsGranted | app/src/nest/nse/nse-auth.service.ts:165-248 | Whatever other requests, issues and sweeps come between, a request made by a challenge's device up to 30000 ms after it was stored, with the registered key and a valid signature, ends in a token for that device and team. |
| ChallengeProtocol.BegunIff | app/src/nest/nse/nse-auth.service.ts:174-204 | In every state a request for a stored challenge goes on to the key lookup if and only if its device makes it within 30000 ms, in valid text. |
| ChallengeProtocol.ProvedIff | app/src/nest/nse/nse-auth.service.ts:206-238 | It then goes on to signing if and only if the proof names the registered key and its signature is valid. |
| ChallengeProtocol.SweepingIsInvisible | app/src/nest/nse/nse-auth.service.ts:174-189 | Under a clock that never goes back, evictions inserted anywhere leave every token request's answer as it was. |
| RateLimit.CountConcurrentConnections | app/src/nest/websocket/ws-rate-limit.ts:1-12 | The loop counts the sockets of an address. |
| RateLimit.WebsocketGateway.PruneConnectionRates | app/src/nest/websocket/ws-rate-limit.ts:30-49 | Exactly the attempts in the window remain, and no address without any. |
| RateLimit.WebsocketGateway.HandleConnection | app/src/nest/websocket/ws.gateway.ts:119-163 | The verdict and the new tables, as the admission rule gives them. |
| RateLimit.AttemptsMatchHistory | app/src/nest/websocket/ws-rate-limit.ts:14-28 | The count a connection is judged by is the number of attempts ever recorded for its address in the closed window, whenever the table was pruned. |
| RateLimit.LimitsHold | app/src/nest/websocket/ws.gateway.ts:92-186 | Over every run under a clock that never goes back, every closed window admits at most the configured number of connections per address, and live sockets never exceed their cap. |
| RateLimit.AdmittedIff | app/src/nest/websocket/ws.gateway.ts:119-163 | After every run a connection is admitted if and only if its address has fewer live sockets than the cap and fewer recorded attempts in the window than the limit; it is recorded as an attempt unless the cap refused it. |
| AwsSecrets.Get | app/src/nest/utils/aws/aws-secrets.service.ts:93-141 | The first answer that is not transient decides, or the third; absence is concluded only from an explicit not-found. |
| AwsSecrets.ReadingIsUnique | app/src/nest/utils/aws/aws-secrets.service.ts:107-138 | What is read is determined by the backend's answers. |
| AwsSecrets.AbsenceIsExplicit | app/src/nest/utils/aws/aws-secrets.service.ts:117-120 | A secret counts as absent only if an answer said not-found outright, after nothing but transient failures. |
| AwsSecrets.FirstFailureDecides | app/src/nest/utils/aws/aws-secrets.service.ts:256-304 | A first failure means absence, another try or the end, exactly by its name, code, status, retryable mark and the wording of its message in any letter case. |
| AwsSecrets.ThirdAnswerIsFinal | app/src/nest/utils/aws/aws-secrets.service.ts:108-138 | After two temporary failures the third answer counts, temporary or not. |
| AwsSecrets.MissingValueIsAnError | app/src/nest/utils/aws/aws-secrets.service.ts:110-116 | A secret without a value is never taken for an absent one; the error names it. |
| ServerKey.ServerKeyManager.InitOrRetrieveServerEncKey | app/src/nest/encryption/server-key-manager.service.ts:196-227 | A cached key is never replaced. Otherwise the key that was stored is cached, whatever is generated; a generated one only after an explicit not-found and a create that succeeded; and in every case the key that the protocol's read and create steps cache for the instance. |
| ServerKey.CachedKeyNeedsNoRead | app/src/nest/encryption/server-key-manager.service.ts:196-202 | A call on an instance that has a key is over at once: nothing is read, created or cached. |
| ServerKey.KeysAgree | app/src/nest/encryption/server-key-manager.service.ts:204-225 | For any number of instances, failed reads and creates that land although reported lost: at most one key is ever stored, and every cached key is that key for good. |
| ServerKey.AnyInstanceDecrypts | app/src/nest/encryption/server-key-manager.service.ts:113-157 | What one instance encrypted at one time, any instance with a key decrypts at any later time. |
| CommunityCache.CommunitiesManagerService.HandleAuthDisconnected | app/src/nest/communities/communities-manager.service.ts:279-299 | The user's connection goes, whichever it is, and the last one to go starts the expiry. |
| CommunityCache.CommunitiesManagerService.StartAuthSyncConnection | app/src/nest/communities/communities-manager.service.ts:229-315 | Reuse, replacement, a throwing start and a start that drops at once: the cache and the status of every connection object after each. |
| CommunityCache.CommunitiesManagerService.ClearUnusedCommunitiesFromMemory | app/src/nest/communities/communities-manager.service.ts:455-478 | Exactly the unused communities whose expiry has come are evicted, and communities in use lose their expiry. |
| CommunityCache.StartKeepsConnectionIff | app/src/nest/communities/communities-manager.service.ts:241-315 | A start keeps the user's connection if and only if it is on the same socket and not closed; otherwise the new one is registered, unless it dropped at once, and nobody else's changes. |
| CommunityCache.DisconnectRemovesUser | app/src/nest/communities/communities-manager.service.ts:279-299 | A disconnect takes that user and nobody else out of the community, closes the connection, and starts an expiry of 300000 ms if no other user is left. |
| CommunityCache.LoadKeepsCached | app/src/nest/communities/communities-manager.service.ts:96-112 | Loading a cached community changes nothing; another joins unused and without an expiry. |
| CommunityCache.SweepRestoresInUse | app/src/nest/communities/communities-manager.service.ts:455-478 | After a sweep no community in use carries an expiry, all of them and their connections are still there, and an unused one is there if and only if its expiry has not come. |
| CommunityCache.UnusedIsEvictedInTime | app/src/nest/communities/communities-manager.service.ts:455-478 | In every run that leaves a community alone after its last user disconnected, it is gone if and only if a sweep came 300000 ms later or more. |
| CommunityCache.EvictionIsTimely | app/src/nest/communities/communities-manager.service.ts:229-478 | Over every run, no sweep evicts a community with a connection, nor one earlier than 300000 ms after its connection map last became empty. |
| CommunityCache.StartsFindTheirConnections | app/src/nest/communities/communities-manager.service.ts:241-260 | After every run each registered connection is an object the service made, so a start finds the one it looks up. |
| CommunityCache.InUseHasNoExpiry | app/src/nest/communities/communities-manager.service.ts:301-315 | When starting never throws, a community in use carries no expiry between events. |
| CommunityCache.StartKeepsInUseIff | app/src/nest/communities/communities-manager.service.ts:261-314 | A start leaves a community in use with an expiry if and only if it throws and the community was waiting to expire or the user's old connection was its only one. |
| CommunityCache.StartEmptiesIffOnlyOneDropped | app/src/nest/communities/communities-manager.service.ts:261-314 | A start leaves the community without connections if and only if it drops at once and no other user had one; then it has no expiry either. |
| CommunityCache.UnexpiringIsNeverSwept | app/src/nest/communities/communities-manager.service.ts:455-478 | Over every run without a start for it or a disconnect of one of its connections, a community with neither connections nor expiry stays in memory. |
| CommunityCache.DroppedStartIsNeverSwept | app/src/nest/communities/communities-manager.service.ts:301-314 | Both together: what a dropped start of the only user leaves behind is evicted by no such run. |

## Left out

- CursorPull.PullByCursor: what the database library answers to `first: 0`, which is a parameter.
- LogSanitizer.Sanitizer.SanitizeError: chains of error causes that form a cycle, on which the code recurses without end.
- SanitizerModel.Run: throwing getters, proxies and `__proto__` keys; a `name` that the own `constructor` of an object inherits; errors, dates, maps, sets, arrays, binary data and functions whose own properties shadow what their class gives (`constructor`, `name`, `message`, `stack`, `size`, `toISOString`); holes in arrays; the order of output keys; the wording of runtime errors; and the bytes behind typed arrays other than their preview.
- TimestampResolution.ResolutionIsExactIffOrdered: how PostgreSQL reads the ISO texts of years after 9999, and fractional milliseconds.
- ServerKey.KeysAgree: the local Redis branch of secret creation, which overwrites, and secrets stored as binary.
- AwsSecrets.Get: the delay between attempts, the cache of environment secrets, and lower-casing letters beyond ASCII in messages.
- CommunityCache.EvictionIsTimely: that a newer connection survives the late disconnect of an older one; the handler removes by user id only, so it does not.
- ChallengeProtocol.TokensAreOneShot: that random challenge ids are fresh, which is assumed.
- WriterProtocol.RunsAreOrdered: clearing the repository while writers are in flight, which deletes rows.
- Negative, fractional or NaN limits and sequences beyond 2^53.
- The backward direction of the cursor reader: its meaning rests on the library's cursor class, which is not part of this model.
- LogEntrySync.GetPaginatedLogEntries: a stored sigchain that cannot be read while a community is loaded, which throws.
- SanitizerCycles.CircularIffCycle: objects of more than 100 fields with a shown field named `__truncatedKeys`, which the truncation count overwrites.
- Signature and size checks before a sync message is written, and the pushing of entries to other sockets.
- PostgreSQL, MikroORM, libsodium, JWT, msgpackr and the authentication library themselves: their effects enter as parameters or as the assumptions listed above.
- Captcha, push notifications, health checks, configuration, other loggers, command-line tools and bootstrap: they would add only easy members.
