# Redirect engine: verified model

A redirect engine answers HTTP requests with redirects. Its rules live in one database per region,
are changed through an admin API, and are replicated by publishing a snapshot to object storage that
every node polls by tag. Each node serves from an in-memory cache of its region's database. Every hit
is sent through a bounded channel to a batch writer, and the request log is rolled up into hourly
statistics. Certificates are kept in a table that is listed like a directory tree, and hits can be
reported as beacon requests whose path carries the fields.

The project models these parts and proves what they are for:

- The **tables** (`Tables.dfy`, `Statements.dfy`) with their unique keys, cascade and ids, and the
  *content* they stand for once ids are forgotten. Every store operation is proved against content.
- The **store** (`Store.dfy`, `Transactions.dfy`) as a class over those tables, statement by
  statement for the two bulk imports, with a fault for every statement. What the imports mean is in
  `Import.dfy`, what an export is and what importing one gives back in `Export.dfy`.
- The **engine** (`Engine.dfy`) as a class that loads and sorts the cache and serves from it;
  `Matching.dfy` says which answers are right for a content, `Cache.dfy` that the cache gives them.
- **Replication** (`Replication.dfy`, `ReplicationConvergence.dfy`, `ReplicationLimits.dfy`) as a
  transition system with any number of nodes and regions, several nodes sharing a store, with polls
  split into HEAD, GET and import. `Syncer.dfy` has the sync loop and the admin handlers as classes,
  and `Refinement.dfy` shows that they take the steps of the transition system.
- **Hit accounting** (`Hits.dfy`, `Rollup.dfy`, `RollupRuns.dfy`): channel and batch writer, one rollup, and
  runs in which the rollups of several nodes overlap.
- **Certificate listing** (`CertList.dfy`) and the **beacon path** (`Beacon.dfy`).
- `Text.dfy`, `Names.dfy` and `Sorting.dfy` hold byte strings, ranks of names, and the order of rows.

Strings are sequences of bytes, as in Go. Where the order of rows is not determined (rules of equal
priority, in SQL and in the engine's unstable sort), an operation's result is described by a relation,
and what is proved holds for every order.

## What the proofs brought out

- **Limits of replication.** Importing an export gives the exported content back exactly when there
  are at most 10000 domains and no status code 0 (`Export.RoundTripIsIdentityIff`); otherwise it gives
  the first 10000 domains with status 0 replaced by 301. The handler for updating a domain stores a
  status of 0 as it comes. A node does not import its own publication, so its store keeps what the
  others do not get, until another node of the region polls and cuts the shared store
  (`Convergence.MatePollCutsSharedStore`). Over whole runs with fresh tags: once every node has completed a
  poll after the last publication, all stores and caches equal what was published if and only if that
  is replicable or nothing has been imported since (`Convergence.ConvergesExactlyIf`).
- **Tags.** The protocol converges exactly in two kinds of setting (`Limits.ConvergesIffSound`): tags
  never repeat, and a reload after an import fails only at nodes that do not hold the current tag (as a
  node does that has itself published last, while it was importing something older); or HEAD and GET see the same object, no reload fails, and a tag may come back with the same body. With
  tags derived from the body and a publication between HEAD and GET, a node can end up with a stale
  store and the current tag (`Limits.TagComesBack`).
- **Orphan queries.** `BulkImportReplace` does not look at the error of a cursor after its last row. A
  query for orphans that ends early goes unnoticed: the import commits, and the orphans it did not
  deliver remain as they were. The contract of `Stores.Store.BulkImportReplace` names what goes, and says
  that the store holds exactly the entries if and only if every orphan went; when both queries end before
  their first row, the content is that of the upserts alone, which is the imported one exactly when there
  was no orphan (`Import.NothingToDeleteIff`). A rollup's grouping query has the same gap: the hour is
  exact afterwards exactly when it was so for every domain not delivered (`Rollup.RollupExactIff`).
- **Overlapping rollups.** The grouping query runs before the transaction. A node that counts an hour
  before its end and commits after another node has rolled it up puts its older count over the exact one
  (`RollupRuns.OverlapLosesExactHour`). A closed hour stays exact exactly as long as no transaction
  commits whose query missed rows of it (`RollupRuns.ClosedHourStaysExactIff`), which needs a rollup that
  straddles the end of the hour (`RollupRuns.StaleStraddles`). A later complete rollup repairs the damage
  (`RollupRuns.HourlyRollupsAreExact`), and a single node does none (`RollupRuns.OneNodeIsExact`).
- **Creating a domain.** When the new row cannot be read back the request fails, but the domain is in the
  store, neither loaded nor published (`Syncers.Handler.CreateDomain`).
- **Priorities.** The engine serves the longest matching pattern exactly when priorities strictly
  increase along nesting (`Matching.LongestMatchIff`); its answer is determined exactly when the rules
  of top priority agree (`Matching.AnswerIsUniqueIff`).
- **Enabled flags.** `BulkImport` ignores the enabled flag of its entries: what it adds is enabled. Added
  to an empty store, an export gives its content back exactly when that is replicable and has nothing
  disabled (`Export.KeepRoundTripIff`).
- **Beacon.** The documentation shows `:` as `%3A`; Go's path escaping leaves `$ & + : = @` as they
  are. The model follows the code; the documented reader still recovers every field.
- **Listing.** A prefix is used as a LIKE pattern. The listing is exact for every store if the prefix has
  no `%`, `_` or backslash, and for no other prefix (`CertList.ListingIsExactIff`): then some key that does
  not start with it is listed.
- **Statistics.** A figure is exact just when no row of its domain and hour was logged after those the
  query behind it had read (`RollupRuns.HitsExactIff`).

## Assumptions

- A mutation (store write, reload, publication) is one step, and so is an import with its reload: the
  syncer's lock guards only the tag, so nothing in the code keeps two publications, or a publication
  and an import in the same region, apart. HEAD, GET and the import are separate steps.
- A publication in the protocol succeeds and returns a tag. Tags of different bodies differ.
- Transactions, unique keys, foreign keys and ids that are never handed out twice are what the
  database promises. A new id is modelled as the last one plus one.
- All inserts into the log and all rollups read one clock that never goes back. A query reads the log as
  it is at one moment, and a transaction takes effect at one moment. In particular a log row is visible
  from the moment of its timestamp on. In PostgreSQL the timestamp is the start of the inserting
  transaction (`internal/store/migrations/001_init_pg.sql:36`, `internal/store/store.go:606-628`), so that a
  row of an hour can appear after the hour has ended, and after the last rollup of it; what is proved
  about closed hours holds for the hours in which no batch is being inserted as they end.

## Model

| member | source | states |
|---|---|---|
| Tables.ContentIsUnique | internal/store/migrations/001_init.sql:3-24 | Under the unique keys and the foreign key, tables stand for one content only. |
| Tables.RowsAreUnique | internal/store/migrations/001_init.sql:3-24 | Names are unique, (domain, path) pairs are unique, and every rule's domain exists, in all consistent tables, which every store operation keeps. |
| Tables.IdsAreNeverReused | internal/store/migrations/001_init.sql:3-24 | In any history of store operations, an id whose row has gone never names a row again, and a domain row keeps its name. |
| Tables.SetRuleRepresents | internal/store/store.go:333-337 | Changing path and columns of a rule row keeps all keys intact and changes the content in that rule alone, if the new path is free. |
| Tables.RemoveDomainRepresents | internal/store/store.go:286-289 | Deleting a domain row with the cascade removes exactly that domain and its rules from the content. |
| Statements.RuleKeyInjective | internal/store/store.go:499 | The string key "id:path" determines both the id and the path. |
| Statements.KeyMembership | internal/store/store.go:533 | Looking a row's string key up in the imported keys decides whether its (domain, path) was imported. |
| Statements.UpsertRuleRepresents | internal/store/store.go:501-516 | An upsert of a rule, whether it inserts or updates, puts that rule over the content. |
| Transactions.OrphanDecision | internal/store/store.go:526-536 | The test on the two maps picks out exactly the rules of imported domains that were not imported. |
| Transactions.UpsertAll | internal/store/store.go:460-518 | Succeeds exactly when no upsert fails; then the content is the old one with the entries put over it, no row has lost its id, and the two sets name exactly the imported domains and rules. |
| Transactions.OrphanCount | internal/store/store.go:521-543 | There are as many rule rows as the content has rules, and as many to delete as it has rules of imported domains that were not imported. |
| Transactions.DeleteOrphanRules | internal/store/store.go:520-543 | Removes exactly the rules in gone, one statement each: orphans only, no more than the rows its query delivers, and all but at most as many as there are rows not delivered. |
| Transactions.DeleteOrphanDomains | internal/store/store.go:545-567 | Removes exactly the domains in gone with their rules, one statement each: only such as were not imported, no more than the names its query delivers, and all but at most as many as there are names not delivered. |
| Transactions.ReachedAll | internal/store/store.go:521-562 | A query that delivers all rows reaches every orphan, and one that delivers none reaches none. |
| Transactions.PrunedIsImportedIff | internal/store/store.go:520-567 | What the upserts and deletes leave is the imported content exactly when every orphan rule and every orphan domain has gone. |
| Transactions.ReplaceAll | internal/store/store.go:460-567 | Upserts and deletes together: how many statements they take, and exactly what they leave, given what the two queries reach. |
| Transactions.Replace | internal/store/store.go:449-570 | The whole transaction: all of it or nothing, and which statements decide that. |
| Transactions.ReplaceMeans | internal/store/store.go:449-570 | The result is the imported content if and only if all orphans went, as they do when both queries deliver all rows; it is that of the upserts when they deliver none. |
| Transactions.KeepAll | internal/store/store.go:386-443 | Succeeds exactly when no insert fails, and then adds what is missing without touching any row. |
| Stores.Store.ListDomains | internal/store/store.go:206-241 | Exactly the requested page, by byte order, of the names that match the search, each with its stored columns, and how many match in all; the page size is 50 if none is given. |
| Names.SliceOfSorted | internal/store/store.go:219-224 | A page of the sorted names is the first offset + limit names without the first offset ones. |
| Stores.Store.ListRules | internal/store/store.go:293-313 | Exactly the rules of the domain, each once, by descending priority. |
| Stores.Store.ExportAll | internal/store/store.go:572-602 | The first 10000 domains by name, each with all its rules by descending priority. |
| Stores.Store.CreateDomain | internal/store/store.go:262-278 | Taken, failed or created, each exactly when; adds the domain unless the name is taken or the insert fails, even when reading it back fails. |
| Stores.Store.UpdateDomain | internal/store/store.go:280-284 | Changes the columns of the named domain, if there is one, and nothing else; a database error changes nothing. |
| Stores.Store.DeleteDomain | internal/store/store.go:286-289 | Removes the domain and its rules, and nothing else; a database error changes nothing. |
| Stores.Store.CreateRule | internal/store/store.go:315-331 | Fails without effect exactly when the database does, the domain is unknown, or it has the path already. |
| Stores.Store.UpdateRule | internal/store/store.go:333-337 | Moves the rule to its new path; fails without effect exactly when the database does or another rule has that path. |
| Stores.Store.DeleteRule | internal/store/store.go:339-342 | Removes exactly the rule with that id; a database error changes nothing. |
| Stores.Store.BulkImport | internal/store/store.go:378-446 | Succeeds exactly when no statement fails; then adds what is missing and counts the entries, otherwise nothing has changed. |
| Stores.Store.BulkImportReplace | internal/store/store.go:449-570 | From any tables, it succeeds exactly when none of the statements it takes fails, and then leaves exactly the content of the entries, surviving rows with their ids; failure leaves the tables as they were. When an orphan query ends early: exactly what remains, and that it is the imported content if and only if every orphan went. |
| Stores.RowsExport | internal/store/store.go:583-599 | The rows of a domain, as listed, are an export of all its rules. |
| Import.LastEntryWins | internal/store/store.go:460-491 | The imported domains are those named, and the last entry of a name decides its columns: status 0 becomes 301, enabled unless the flag says false. |
| Import.LastRuleWins | internal/store/store.go:493-518 | The imported rules are those mentioned, and the last mention of a (domain, path) decides its columns: status 0 becomes 301, enabled unless the flag says false. |
| Import.PutEntriesIsOverlay | internal/store/store.go:460-518 | Upserting entries into any content puts the imported content over it. |
| Import.NothingToDeleteIff | internal/store/store.go:520-567 | The upserts alone, which are all that counts when both orphan queries deliver nothing, give the imported content exactly when every old domain and rule was imported. |
| Import.KeepNeverOverwrites | internal/store/store.go:378-446 | A keeping import changes no existing domain or rule, and afterwards all its entries are there. |
| Import.FirstEntryWins | internal/store/store.go:386-419 | The domains added are those named and missing before, and the first entry of a name decides the columns: status 0 becomes 301, always enabled. |
| Import.FirstRuleWins | internal/store/store.go:421-440 | The rules added are those mentioned and missing before, and the first mention of a (domain, path) decides the columns: status 0 becomes 301, always enabled. |
| Import.KeepTwiceIsOnce | internal/store/store.go:378-446 | Running it twice gives the same content as once. |
| Import.KeepConcat | internal/store/store.go:378-446 | Importing two lists in one call is importing one after the other. |
| Import.KeepIsPerDomain | internal/store/store.go:386-443 | What it leaves for a domain depends on the entries of that domain only. |
| Import.KeepReorder | internal/store/store.go:386-443 | Entries of different domains can be reordered without changing the content. |
| Export.RoundTrip | internal/store/store.go:449-602 | Importing any export of a content gives its first 10000 domains with their rules, status 0 replaced by 301. |
| Export.RoundTripIsIdentityIff | internal/store/store.go:449-602 | The round trip is the identity exactly for at most 10000 domains and no status code 0. |
| Export.RoundTripTwice | internal/store/store.go:449-602 | What one round trip gives, a second leaves unchanged. |
| Export.KeepRoundTripIff | internal/store/store.go:378-446 | A keeping import of an export into an empty store is the identity exactly for replicable contents in which every domain and rule is enabled. |
| Names.FirstSize | internal/store/store.go:219-222 | The limit keeps min(limit, all) names, and all of them exactly when there are no more than the limit. |
| Sorting.SortDescending | internal/redirect/engine.go:77-79 | A permutation in descending order of priority. |
| Matching.MatchPathBySegments | internal/redirect/engine.go:150-159 | A pattern matches exactly the paths that begin with its segments, so `/a` matches `/a/b` and not `/ab`; after a final slash there must be a further segment. |
| Matching.MatchIsPartialOrder | internal/redirect/engine.go:150-159 | Pattern matching is reflexive, antisymmetric and transitive. |
| Matching.MatchesFormChain | internal/redirect/engine.go:150-159 | Of two patterns that match one path, the shorter matches the longer. |
| Matching.AnswerIsUniqueIff | internal/redirect/engine.go:90-137 | A request has one right answer exactly when the host is not served or its rules of top priority agree. |
| Matching.LongestMatchIff | internal/redirect/engine.go:77-112 | Top priority always means longest pattern, for every path, exactly when priorities strictly increase along nesting. |
| Cache.FirstMatchIsTop | internal/redirect/engine.go:106-112 | In a sorted list the first match has the highest priority of all matching enabled rules, and no first match means no match. |
| Cache.CacheRefinesContent | internal/redirect/engine.go:90-137 | What is served from a loaded cache is a right answer for the content it was loaded from; a domain whose rules could not be read is not found. |
| Cache.NotFoundIff | internal/redirect/engine.go:46-103 | Not found is the answer exactly for hosts that are no enabled domain among the first 100000 names. |
| Cache.MeaningPreserved | internal/store/store.go:449-602 | For replicable contents, an engine behind an import answers every request like the exporting one when the top rules agree, and otherwise with a rule of the same priority. |
| Cache.ServedAfterImportIff | internal/redirect/engine.go:46-88 | Behind an import of any content, a host is served exactly when it is enabled and among the first 10000 names. |
| Engines.RowsToRuleList | internal/redirect/engine.go:62-80 | The enabled rows, sorted, list exactly the enabled rules of the domain, highest priority first. |
| Engines.Engine.Reload | internal/redirect/engine.go:46-88 | Fails without effect exactly when the domains cannot be listed; otherwise the cache is a view of the store, less the domains whose rules could not be read. |
| Engines.Engine.Select | internal/redirect/engine.go:102-112 | Target and status are those of the first matching rule, or the domain's defaults if none matches. |
| Engines.Engine.ServeHTTP | internal/redirect/engine.go:90-137 | Answers from the cache; a redirect sends one log entry, with host, path, query, the same status and target, address, agent and referer, dropped just when a channel is full; not found sends none. |
| Replication.PublishKeeps | internal/sync/sync.go:60-88 | What is known of the tags handed out before survives a publication. |
| Replication.OtherKeepsInv | internal/sync/sync.go:118-176 | Every step of a poll, its failures and a restart keep the invariant: the last writer of a store holds the tag it wrote with, and every tag belongs to what the node serves. |
| Replication.InvAlways | internal/sync/sync.go:118-176 | The invariant holds in every state of every run of a sound setting. |
| Replication.TagSoundness | internal/sync/sync.go:119-172 | In every reachable state a node that holds the current tag serves the current object, even if it fetched a newer body under an older tag before. |
| Convergence.PollCatchesUp | internal/sync/sync.go:118-176 | A poll of a node that begins after the last publication and completes, with any steps of other nodes in between, leaves the node with the current tag. |
| Convergence.SettledReflects | internal/sync/sync.go:118-176 | When every node has completed such a poll, every cache and every store is what the current object brings. |
| Convergence.EverythingConverges | internal/sync/sync.go:60-176 | Then every region's store and every node's cache equal what was published last, if that is replicable, although nodes share stores and older imports may land late. |
| Convergence.ConvergedIsReplicable | internal/sync/sync.go:60-176 | In any setting, if something was imported after the last publication, only replicable content converges. |
| Convergence.ConvergesIffReplicable | internal/sync/sync.go:60-176 | With fresh tags, a settled run in which some node has imported converges if and only if what was published is replicable. |
| Convergence.ConvergesExactlyIf | internal/sync/sync.go:60-176 | From the last publication on, a settled run with fresh tags converges if and only if what was published is replicable or nothing was imported. |
| Convergence.QuietStep | internal/sync/sync.go:132-172 | A poll step never changes the object, each import whose reload succeeds uses up one of those pending, one whose reload fails adds none, and with none pending the node's only step is a HEAD that changes nothing. |
| Convergence.AtMostTwoImports | internal/sync/sync.go:132-172 | After the last publication each node imports at most twice, and once more for each import whose reload failed. |
| Convergence.NothingPending | internal/sync/sync.go:132-172 | After two imports with reloads, or one completed poll, a node has no import left to make. |
| Convergence.PollsAreIdle | internal/sync/sync.go:132-138 | From then on, until the next publication, the node stays as it is and each of its polls changes nothing. |
| Convergence.MatePollCutsSharedStore | internal/sync/sync.go:155-172 | After a node publishes and a node of the same region polls, the store they share is the round trip of what was written: the same exactly when that was replicable, although the publisher holds the tag. |
| Limits.TagComesBack | internal/sync/sync.go:119-172 | With tags that may repeat and an object that may change between HEAD and GET, a run that settles without converging. |
| Limits.FailedReloadHides | internal/sync/sync.go:160-172 | With tags that may repeat and reloads that may fail, a run that settles without converging. |
| Limits.PublisherLosesUpdate | internal/sync/sync.go:160-172 | If a reload may fail after the node has published meanwhile, a run that settles without converging. |
| Limits.ConvergesIffSound | internal/sync/sync.go:60-176 | All runs converge exactly in the sound settings. |
| Syncers.Syncer.Publish | internal/sync/sync.go:60-90 | Uploads an export of the store; the tag becomes the one returned, and stays when the upload fails or returns none. |
| Syncers.Syncer.Poll | internal/sync/sync.go:118-176 | Every way a poll can end: unchanged tag, failed request, failed import, failed reload, or store replaced, engine reloaded and tag recorded. |
| Syncers.Handler.ReloadAndPublish | internal/api/handlers.go:39-45 | The cache follows the store unless the reload fails; snapshot and tag follow it where a syncer is configured, the tag unless the upload fails; errors are ignored. |
| Syncers.Handler.CreateDomain | internal/api/handlers.go:91-117 | Bad request, server error, conflict or created, each exactly when; only the last reloads and publishes, and what each leaves in the store. |
| Syncers.Handler.UpdateDomain | internal/api/handlers.go:133-147 | Stores the columns as given, status 0 included, then reloads and publishes; a database error does nothing of this. |
| Syncers.Handler.DeleteDomain | internal/api/handlers.go:149-158 | Removes the domain with its rules, then reloads and publishes; a database error does nothing of this. |
| Syncers.Handler.BulkImport | internal/api/handlers.go:253-269 | Fails exactly when a statement does, doing nothing; otherwise adds what is missing, then reloads and publishes. |
| Refinement.HeadTakesStep | internal/sync/sync.go:119-138 | A HEAD that finds the known tag changes nothing; otherwise the poll goes on with the tag it read. |
| Refinement.GetTakesStep | internal/sync/sync.go:141-158 | A GET hands on the body as it is then; a failed one gives the poll up. |
| Refinement.ImportTakesStep | internal/sync/sync.go:160-174 | An import that reads all rows, with a reload that reads all rules, is the protocol's import, one given up, or one whose reload failed, even if the node itself has published since its HEAD and others have written the store. |
| Refinement.PollTakesSteps | internal/sync/sync.go:118-176 | A poll of the sync loop whose import reads all rows and whose reload reads all rules, failed requests included, is a sequence of the protocol's steps, with any steps of other nodes in between. |
| Refinement.HandlerTakesStep | internal/api/handlers.go:112-116 | What a mutating handler whose reload and upload succeed leaves behind is what the protocol's mutation step leaves behind, whatever point the node's poll has reached. |
| Hits.StepConserves | internal/analytics/pipeline.go:43-84 | Every step keeps: accepted entries are, in order, the batches handed over, the current batch and the channel; the log is the inserted batches; offered is accepted plus dropped; a running writer's batch is below 100. |
| Hits.HitsAreConserved | internal/analytics/pipeline.go:43-84 | This holds in every state of every run. |
| Hits.SendMeans | internal/redirect/engine.go:125-128 | A send is accepted exactly when the channel has room, at its end; otherwise the entry is dropped. |
| Hits.ReceiveMeans | internal/analytics/pipeline.go:60-68 | The 100th entry sends the batch to the database and nothing less does; the batch is then empty, in the log if the insert succeeds, and lost if not. |
| Hits.TickMeans | internal/analytics/pipeline.go:48-56 | A tick, like the end of the drain, empties the batch into the log, or loses it if the insert fails. |
| Hits.NothingLostIff | internal/analytics/pipeline.go:43-84 | In every state of every run, what was accepted is, in order, the log, the batch and the channel exactly if no insert of a batch has failed. |
| Hits.AllOkLosesNothing | internal/store/store.go:606-628 | So if every insert succeeds, nothing accepted is lost in any state. |
| Hits.LeftBehind | internal/analytics/pipeline.go:71-81 | Once the writer has exited, only what was accepted since is in the channel, and it stays there. |
| Hits.NothingLeftBehind | internal/analytics/pipeline.go:71-81 | With no send after the stop, everything accepted has been handed over when the writer has exited, and the log is all that was accepted exactly if no insert of a batch has failed. |
| Hits.DrainedIsRun | internal/analytics/pipeline.go:71-81 | Draining everything and flushing once is a run of the machine. |
| Hits.LogChannel.TrySend | internal/redirect/engine.go:125-128 | Appends the entry, or drops and counts it when the channel is full. |
| Hits.Pipeline.FlushBatch | internal/analytics/pipeline.go:48-56 | Empties the batch; all of it enters the log if the insert succeeds, and none if not. |
| Hits.Pipeline.OnEntry | internal/analytics/pipeline.go:60-68 | Moves one entry from the channel to the batch, and the batch to the database at 100: the machine's receiving step. |
| Hits.Pipeline.OnTick | internal/analytics/pipeline.go:69-70 | Empties the batch into the log if the insert succeeds. |
| Hits.Pipeline.OnDone | internal/analytics/pipeline.go:71-81 | Batch and channel enter the log in order if the insert succeeds; both are empty afterwards. |
| Rollup.FigureGrows | internal/store/store.go:867-871 | A row adds one to the hits of its domain and hour, and one to the addresses exactly when its address has not been seen there before. |
| Rollup.DomainHasRows | internal/store/store.go:867-871 | The grouping delivers exactly the domains with rows in the hour. |
| Rollup.Analytics.Query | internal/store/store.go:867-876 | Delivers the row count and the distinct addresses of domains with rows in the hour, each once: all of them, or as many as the cursor lets through. |
| Rollup.Analytics.Commit | internal/store/store.go:878-922 | Puts all delivered figures over the statistics exactly when no statement fails, otherwise none. |
| Rollup.Analytics.RunRollup | internal/store/store.go:863-923 | Both together: every domain with rows in the hour gets its figures and nothing else changes; failure changes nothing; and what a query that ends early leaves. |
| Rollup.Analytics.RollupNow | internal/analytics/pipeline.go:103-111 | Rolls up the previous hour, then the current one, each independently of the other's failure. |
| Rollup.PrefixExactIff | internal/store/store.go:867-871 | A figure made from the first rows of the log is that of the whole log exactly when the other rows have none of the domain and hour. |
| Rollup.RollupExactIff | internal/store/store.go:878-922 | After a rollup the hour is exact exactly when it was so before for every domain the query did not deliver. |
| RollupRuns.StatsAreOfCoveredLog | internal/store/store.go:863-923 | In every state of every run, with rollups of several nodes overlapping, failing or ending early, each figure is that of the part of the log its query had read. |
| RollupRuns.HitsExactIff | internal/store/store.go:863-923 | Hits are never overcounted, and are exact just when no row of the domain and hour came after those the query had read. |
| RollupRuns.CommitExactIff | internal/store/store.go:878-922 | After a transaction a figure is exact exactly when its query missed nothing, or it was exact and is left alone. |
| RollupRuns.CommitMakesExact | internal/analytics/pipeline.go:103-111 | A complete rollup started in the hour after h makes h exact. |
| RollupRuns.ClosedHourStaysExactIff | internal/store/store.go:863-923 | An exact closed hour stays exact exactly as long as no transaction for it commits whose query missed rows. |
| RollupRuns.ExactFiguresAgree | internal/store/store.go:863-923 | In any two states in which a closed hour is exact, its figures are the same. |
| RollupRuns.StaleStraddles | internal/store/store.go:863-923 | Such a transaction has made its query before the end of the hour and commits after it. |
| RollupRuns.OverlapLosesExactHour | internal/store/store.go:867-922 | A run of two nodes in which a closed hour is exact, and then is not. |
| RollupRuns.HourlyRollupsAreExact | internal/analytics/pipeline.go:86-111 | With rollups that succeed at least hourly, by any nodes and overlapping, every hour is exact once the next one has ended, if each rollup that straddles its end and commits after a complete late one is followed by another complete late one. |
| RollupRuns.OneNodeIsRepaired | internal/analytics/pipeline.go:86-111 | If one node makes all commits, none of its straddling rollups commits after a complete late one. |
| RollupRuns.OneNodeIsExact | internal/analytics/pipeline.go:86-111 | If one node makes all commits, that is so whatever its rollups straddle. |
| RollupRuns.SummaryAgainstLog | internal/store/store.go:652-674 | In any run the summary never exceeds the number of rows in its span, and equals it when the hours are exact. |
| RollupRuns.SummaryConservation | internal/store/store.go:652-674 | Under the same conditions the summary of closed hours is the number of rows logged in them. |
| RollupRuns.OneNodeSummary | internal/store/store.go:652-674 | With one node that makes all commits, it is so without a condition on what its rollups straddle. |
| CertList.PlainLikeIsPrefix | internal/certs/pg_storage.go:67 | For a prefix without special characters the query selects exactly the keys that start with it. |
| CertList.ItemIff | internal/certs/pg_storage.go:80-91 | A key's item is the key itself if it has no slash after the prefix, and otherwise what ends in the first one. |
| CertList.ItemsFollowKeys | internal/certs/pg_storage.go:80-88 | Sorted keys have sorted items, so the keys of one directory are contiguous. |
| CertList.List | internal/certs/pg_storage.go:66-94 | The rows themselves when recursive; otherwise, for sorted rows below the prefix, each immediate file and directory exactly once in strictly increasing order. |
| CertList.ListedIsListing | internal/certs/pg_storage.go:66-94 | Over sorted keys below the prefix, the grouping is strictly increasing and has each immediate file and each immediate directory exactly once, although it compares with the last item only. |
| CertList.ListingOfStore | internal/certs/pg_storage.go:66-94 | So the listing is exactly the immediate level of the stored keys below a plain prefix. |
| CertList.StrayMatch | internal/certs/pg_storage.go:67 | Every prefix with a special character selects some key that does not start with it. |
| CertList.ListingIsExactIff | internal/certs/pg_storage.go:66-94 | The listing is exact for all stores if and only if the prefix has no special character. |
| CertList.UnderscoreListsPhantom | internal/certs/pg_storage.go:67-84 | One such case: "a_" lists the key "ab/c" under a directory "a_b/" that is not there. |
| Beacon.UnquoteEscape | internal/beacon/beacon.go:74-85 | Decoding undoes encoding for every byte string. |
| Beacon.PathEscape | internal/beacon/beacon.go:74-85 | No encoded segment contains "/", "?" or "#" (percent-encoding, section 2.1 of RFC 3986). |
| Beacon.EscapeMeans | internal/beacon/beacon.go:74-85 | Escaping goes byte by byte: letters, digits and `-_.~$&+=:@` stay, everything else becomes `%` and two upper-case hex digits. |
| Beacon.PartsMean | docs/ds2-beacon.md:119-129 | Which field stands at which place of the emitted path, the user agent as its first 200 bytes. |
| Beacon.BeaconRoundTrip | docs/ds2-beacon.md:109-130 | The documented reader recovers every field from the emitted path, empty ones included, and of the user agent the first 200 bytes. |
| Beacon.DocumentedBase | docs/ds2-beacon.md:109-120 | The documented endpoint has the two leading parts the reader skips. |
| Beacon.SamePathIff | internal/beacon/beacon.go:65-85 | Two entries give the same path exactly when they agree in everything but the user agent, and in this up to byte 200. |
| Text.ParsePrintInt | internal/store/store.go:499 | Decimal printing can be read back. |
| Text.PrintedDigits | internal/store/store.go:499 | The printed digits are those of the number in base ten, without a leading zero. |

## Left out

- That polls are in fact made and succeed: convergence is proved for runs in which every node completes a poll after the last publication.
- Stores.Store.ListDomains: what LIKE makes of the search string, which differs between the databases, is a parameter; a negative offset.
- Tables.Consistent: integer widths, timestamps and column defaults.
- SQL text, drivers, dialects, placeholder rewriting and the two statements one upsert takes in SQLite.
- Database errors in the reads of an export, which make a publication fail before its upload.
- Replication with imports whose orphan query ended early, and with reloads that leave a domain out.
- Mutations in the protocol whose reload or publication fails: the handlers are modelled with such failures, the protocol's mutation step is not.
- The handlers for rules: they end like the modelled ones, after the store operations that are modelled.
- JSON, and with it strings that are not valid UTF-8, which would not survive a snapshot unchanged.
- HTTP requests and responses, token checks, host port stripping, client addresses, and how a redirect is written.
- The batch writer's arm for a closed channel, which is never closed, and channels of capacity zero.
- Top paths, top referers, trending and inactive domains, the order and limit of the summary, and pruning of the log.
- Beacon delivery and its worker, which are best effort.
- LIKE and ORDER BY by bytes: a database with another collation can order keys differently.
- Certificate storage other than listing, locks, and everything CertMagic does.
