# Ricochet CLI: a verified model

Ricochet's command-line tool runs a debugger behind a web page, compiles and runs database migrations, serves
and uses a package registry, issues one-use action tokens, and speaks the Language Server Protocol. This
project models the parts of that code where state, interleaving or encoding make mistakes easy, and proves
what each part promises for every input, every run and every interleaving. `dafny verify dfyconfig.toml`
checks all of it.

## Files

- `DebugProtocol`, `DebugSession`: a VM thread that pauses and blocks on a channel, and HTTP handlers that
  check a shared status under a lock, release it, and send later. Handlers between the check and the send are
  part of the state. The class `DebugWebSession` performs the steps on the shared fields.
- `MigrationRunner`, `MigrationFile`, `MigrationRollback`: launchers applying one migration list to one
  database, interleaved and failing anywhere, the apply and rollback loops of a single process, and rollbacks
  interleaved with both. A script is a partial function on schemas; a transaction applies it and records its
  version, or does nothing.
- `MigrationSyntax`, `MigrationReading`, `MigrationOnePass`, `MigrationCompiler`: the migration language as a
  stack machine with a deferred `CREATE TABLE` and a pointer to the last column, against a reading in two
  passes, which binds literals to words and then groups words into statements.
- `MigrationSql`, `MigrationSqlReading`, `MigrationWitnesses`: the SQL printer for three adapters, an
  independent reader that knows quotes (PostgreSQL's dollar quotes among them), comments and terminators, and
  files on which the stated conditions fail.
- `SecureActions`: tokens bound to a generation, limited in number and age, with the clock read before the lock.
- `RegistryNames`, `RegistryVersions`, `RegistryIdempotency`, `RegistryServer`, `RegistryServerSafety`,
  `RegistryServerReplies`, `RegistryRestart`, `RegistryService`: the hosted registry. A request is looked up first and carried out
  later in one section under the registry lock; every write can fail, and a restart can come after any of them.
- `LockFile`, `RegistryClient`, `Reinstall`, `ReinstallTrees`, `RegistryInstall`, `RegistryMirror`: the registry
  client, its lock file, and the paging loop of the mirror, proved against the server above. How long an answer is when encoded
  is a parameter; the client refuses what is too long. Which of its possible hashes a tree is found with, which
  depends on the order in which directories are listed, is a parameter of each install.
- `PackageTree`, `PackageCopy`, `PackageOrder`, `PackageWalk`, `PackageHashes`, `PublishDigest`: the byte strings
  that are hashed for a package tree and for a publish, the copy of a tree, and how many hashes a tree can have.
- `LspTokens`, `LspFraming`, `LspPositions`, `LspLineRule`, `LspOffsets`: token deltas, message framing, and
  positions, as the code computes them and as the protocol means them.
- `Wrappers`, `FiniteSets`, `StringOrder`, `Unicode`, `Utf8`, `Decimal`: shared types, set sizes, the order of
  strings, classes of characters, UTF-8, decimal numbers.

Semantic versions enter as parameters of the registry modules: which strings are versions, their precedence
(section 11 of Semantic Versioning 2.0.0), and which versions a requirement matches. The laws assumed of them
are in `RegistryNames.Semver.Lawful`.

## Where the code does less than one would expect

Each of these is stated as an exact condition or shown by a witness, with the code left as it is.

- A column given a default twice keeps the second one; the first literal is compiled away
  (`MigrationReading.LiteralsUsedExactlyOnce`, `MigrationWitnesses.RepeatedDefaultCompiles`).
- The type-name validator lets `#`, `[` and `$` through. MySQL reads `#` as the start of a comment, SQLite reads
  `[` as a quote up to the next `]`, and PostgreSQL reads `$$` or `$tag$` as a quote up to the same again, unless
  they continue a word (`MigrationWitnesses.DollarsInAWordAreRead`). The name is then not read as the text it is, and
  what follows it may be swallowed: all of it for a single `$$`, nothing for `varchar[10]`, whose bracket closes
  inside the name (`MigrationSqlReading.RenderedSqlReadsBack`, `MigrationWitnesses.EveryDialectIsMisread`).
- A default is not checked at all, and may hold a NUL, at which SQLite and PostgreSQL end the text of the file
  (`MigrationSqlReading.RenderedSqlReadsBack`, `MigrationWitnesses.DefaultIsMisreadIff`).
- Two rollbacks at once can run one down script twice: each reads the recorded versions once, and none looks
  whether the row it deletes is still there (`MigrationRollback.UndoneOnceIff`,
  `MigrationRollback.RollbacksAtWorkIff`).
- A token that waits for the lock can be redeemed after its lifetime, since its age is taken from the clock as
  read before: the real bound on the age is the lifetime plus the longest wait (`SecureActions.AgeBoundIff`).
- A publish that fails to save its registry file is served until the server restarts and is then lost, unless
  another change is saved first: its archive is still there, and files are never overwritten, so the version can
  never be published again and every project that locked it fails to reinstall
  (`RegistryRestart.FailedSaveLosesTheVersion`, `RegistryRestart.AfterRestart`,
  `RegistryRestart.AnotherPublishSaves`, `Reinstall.ReinstallAfterRestartIff`).
- The server keeps every version of a package in one answer, and the client refuses answers above 2 MiB. Enough
  later publishes make every install of the package fail, locked or not (`Reinstall.ReinstallIsStable`,
  `Reinstall.TooManyVersions`).
- A yank that fails to save and is repeated is answered with success without being saved
  (`RegistryServerReplies.YankIsSavedIff`).
- Two identical publishes under way at once: the second one's refusal replaces the first one's success in the
  table, so a retry is told that the version exists (`RegistryServerReplies.TwinsForgetTheSuccess`).
- A file name with a backslash can be hashed under the name of another file. The hash of the package then
  depends on the order in which directories are listed, and so does whether it can be reinstalled
  (`PackageOrder.CopyHashesAlikeIff`, `PackageOrder.ClashingTree`, `ReinstallTrees.StableIffNoClash`).
- LSP 3.17 also ends lines at `\r\n` and at a lone `\r`; the code knows `\n` only. It finds the right boundary for
  every position if and only if the text holds no `\r`, and reports positions a client understands if and only if
  each `\r` stands before a `\n` (`LspLineRule.FollowsLspIff`, `LspLineRule.ReportsIff`,
  `LspLineRule.ReturnsAreMisread`).

The lock file writer checks neither package name nor commit, which the reader does (`LockFile.LockRoundTrip`). No
caller passes it any that the reader would refuse; for installs that is `Reinstall.EntryReadsBack`. The mirror
ends at a page of search results above 2 MiB (`RegistryMirror.Mirror`), which names short enough for files cannot
fill.

## Model

| member | source | states |
|---|---|---|
| DebugSession.RunKeepsInv | crates/ricochet_cli/src/lib.rs:7873-7965 | the status, the channel queue and the handlers between check and send stay accountable to each other after every step of every interleaving |
| DebugSession.AtMostOneResumeAcceptedPerPause | crates/ricochet_cli/src/lib.rs:8104-8149 | in every interleaving of the paused VM and any number of handlers, one pause accepts at most one resume |
| DebugSession.ResumesAreConsumedInTheirOwnPause | crates/ricochet_cli/src/lib.rs:7889-7927 | whatever the VM takes off the channel was accepted before, under the pause id it named; a resume is taken in the very pause it was accepted in |
| DebugSession.PastPausesEndedOnce | crates/ricochet_cli/src/lib.rs:7889-7927 | a pause that is over was ended by exactly one resume, accepted for it, or by the server hanging up, never both |
| DebugSession.WaitingPauseHasOneResumeAtMost | crates/ricochet_cli/src/lib.rs:8104-8149 | while the VM waits, the status says paused exactly when no resume is on its way, and otherwise exactly one is |
| DebugSession.NoResumeIsLost | crates/ricochet_cli/src/lib.rs:7889-7965 | once the session is finished, every resume that was accepted has been consumed |
| DebugSession.NothingAfterCompletion | crates/ricochet_cli/src/lib.rs:8104-8121 | after completion every later request is refused as complete and completion is never taken back |
| DebugSession.BreakpointsMayArriveLate | crates/ricochet_cli/src/debug_protocol.rs:144-204 | a run in which a breakpoint command is consumed in a later pause than the one it was accepted in |
| DebugSession.DebugWebSession.EnterPause | crates/ricochet_cli/src/lib.rs:7889-7910 | publishing a pause is the Pause step of the protocol |
| DebugSession.DebugWebSession.CheckControl | crates/ricochet_cli/src/lib.rs:8104-8143 | the check under the status lock is the Check step, and refuses with the reason the status gives |
| DebugSession.DebugWebSession.SendControl | crates/ricochet_cli/src/lib.rs:8145-8167 | the send after the lock is released is the Send step, at whatever time it comes; without a receiver it completes the session |
| DebugSession.DebugWebSession.ReceiveCommand | crates/ricochet_cli/src/lib.rs:7911-7916 | one round of the loop leaves the wait exactly when the command resumes, which was then accepted for this pause, or when every sender is gone |
| DebugSession.DebugWebSession.LeavePause | crates/ricochet_cli/src/lib.rs:7917-7924 | going on clears the paused flag |
| DebugSession.DebugWebSession.MarkSessionCompleted | crates/ricochet_cli/src/lib.rs:8369-8373 | completion is the Complete step |
| MigrationRunner.RunKeepsInv | crates/ricochet_cli/src/lib.rs:3433-3484 | recorded versions, schema and log of effects of all launchers agree after every step, with failures anywhere |
| MigrationRunner.EachScriptAtMostOnceInOrder | crates/ricochet_cli/src/lib.rs:3433-3484 | with any number of launchers, each script takes effect at most once, in list order, only if it was not recorded at the start, and the schema is the fold of those that did |
| MigrationRunner.DoneMeansComplete | crates/ricochet_cli/src/lib.rs:3456-3484 | once one launcher finishes, every script of the list is recorded and has taken effect or was there before |
| MigrationRunner.DatabaseStaysPrefix | crates/ricochet_cli/src/lib.rs:3433-3484 | from a database that is a prefix of the list, every state of every interleaving is a prefix, and the whole list once a launcher is done |
| MigrationRunner.AppliedIsNextMissing | crates/ricochet_cli/src/lib.rs:3456-3478 | a launcher that applies a script always applies the first missing one, whatever the others did |
| MigrationFile.DatabaseFile.Commit | crates/ricochet_cli/src/lib.rs:3461-3481 | a transaction applies the script and records its version, or changes nothing |
| MigrationFile.DatabaseFile.ApplyPackaged | crates/ricochet_cli/src/lib.rs:3433-3484 | the packaged loop records exactly the missing versions up to where it stopped, with the schema their scripts make in order, and stops early only at a failing script or fault |
| MigrationFile.DatabaseFile.ApplyCommandLine | crates/ricochet_cli/src/lib.rs:3391-3431 | the command-line loop does the same from the set it read at the start, and counts what it applied |
| MigrationFile.DatabaseFile.Rollback | crates/ricochet_cli/src/lib.rs:3557-3619 | whatever step fails, the recorded set is the old one minus its j largest versions, j at most the steps asked, and all of them on success; the schema is what the j down scripts make |
| MigrationFile.UndoneIsShorterPrefix | crates/ricochet_cli/src/lib.rs:3583-3606 | if down scripts invert up scripts, j of them lead from the schema of n migrations to that of n - j |
| MigrationFile.RollbackLeavesPrefix | crates/ricochet_cli/src/lib.rs:3557-3619 | rolling back j of a prefix of n migrations leaves exactly the prefix of n - j, recorded set and schema |
| MigrationFile.AppliedIsPrefix | crates/ricochet_cli/src/lib.rs:4223-4277 | for a list in version order, the recorded versions of a prefix read back in order are the versions of that prefix |
| MigrationRollback.UndoneOnceIff | crates/ricochet_cli/src/lib.rs:3557-3619 | in every interleaving of launchers and rollbacks each migration is undone at most once for each time it was applied if and only if every delete finds its row, which the code does not check |
| MigrationRollback.OneAtATimeUndoesOnce | crates/ricochet_cli/src/lib.rs:3557-3619 | rollbacks that start one after the other has ended undo nothing twice, whatever is applied meanwhile |
| MigrationRollback.TwoRollbacksUndoTwice | crates/ricochet_cli/src/lib.rs:3571-3602 | a run of two rollbacks that read the same versions and both run one down script |
| MigrationRollback.RollbacksAtWorkIff | crates/ricochet_cli/src/lib.rs:3557-3619 | where some down script can run twice in a row: for every w, all runs with never more than w rollbacks at work undo nothing twice if and only if w is at most one |
| StringOrder.AscendingListingIsUnique | crates/ricochet_cli/src/lib.rs:4267-4277 | a set of versions has one ascending listing, which is what the ordered maps iterate over |
| MigrationReading.StatementsFollowDeclarations | crates/ricochet_cli/src/migration_dsl.rs:113-315 | the statements are, in order, one for each declaring word, with the names that word was given |
| MigrationReading.BindConservesLiterals | crates/ricochet_cli/src/migration_dsl.rs:69-115 | for every string, the literals written are those taken by words plus those left on the stack |
| MigrationReading.GroupConserves | crates/ricochet_cli/src/migration_dsl.rs:137-299 | what the words took is what the statements hold, plus the defaults that were overwritten |
| MigrationReading.LiteralsUsedExactlyOnce | crates/ricochet_cli/src/migration_dsl.rs:249-299 | every literal is used exactly once if and only if no column is given a default twice; the earlier default is lost otherwise |
| MigrationReading.SomethingOverwritten | crates/ricochet_cli/src/migration_dsl.rs:288-299 | a second default on one column always drops the first |
| MigrationOnePass.ApplyKeepsConsistent | crates/ricochet_cli/src/migration_dsl.rs:113-330 | after every word the column pointer names the last column of the open CREATE, or the last statement, an ADD COLUMN, and creates and drops have not met |
| MigrationOnePass.ModifierNeverMissesItsTarget | crates/ricochet_cli/src/migration_dsl.rs:249-286 | a modifier fails only when there is no column to modify: the failures for a target that is no longer a column are unreachable |
| MigrationOnePass.ApplyKeepsValid | crates/ricochet_cli/src/migration_dsl.rs:113-315 | every identifier and type name that reaches a statement has passed its validator |
| MigrationOnePass.RunAgreesWithReading | crates/ricochet_cli/src/migration_dsl.rs:69-345 | the one-pass machine with its deferred CREATE TABLE and column pointer computes the grouping of the two-pass reading from every reachable state, and fails exactly when that fails or creates and drops mix |
| MigrationCompiler.RunTokensIsReading | crates/ricochet_cli/src/migration_dsl.rs:69-88 | executing the tokens one by one gives the reading of the whole list |
| MigrationCompiler.Compiler.PopString | crates/ricochet_cli/src/migration_dsl.rs:316-320 | the last literal is taken, or the word fails and the stack is empty |
| MigrationCompiler.Compiler.FinishCurrentCreate | crates/ricochet_cli/src/migration_dsl.rs:322-330 | the open CREATE TABLE becomes the last statement, unless it has no columns |
| MigrationCompiler.Compiler.TableCreate | crates/ricochet_cli/src/migration_dsl.rs:117-135 | is the table-create step of the one-pass machine; refused once a drop was seen |
| MigrationCompiler.Compiler.DeclareColumn | crates/ricochet_cli/src/migration_dsl.rs:137-159 | is the column step; refused without an open CREATE TABLE |
| MigrationCompiler.Compiler.ColumnAdd | crates/ricochet_cli/src/migration_dsl.rs:161-184 | is the column-add step |
| MigrationCompiler.Compiler.ColumnDrop | crates/ricochet_cli/src/migration_dsl.rs:186-198 | is the column-drop step |
| MigrationCompiler.Compiler.ColumnRename | crates/ricochet_cli/src/migration_dsl.rs:200-215 | is the column-rename step |
| MigrationCompiler.Compiler.IndexCreate | crates/ricochet_cli/src/migration_dsl.rs:217-233 | is the index-create step |
| MigrationCompiler.Compiler.IndexDrop | crates/ricochet_cli/src/migration_dsl.rs:235-247 | is the index-drop step |
| MigrationCompiler.Compiler.ModifyLastColumn | crates/ricochet_cli/src/migration_dsl.rs:249-286 | changes the column just declared and nothing else, and fails only for want of a column |
| MigrationCompiler.Compiler.Default | crates/ricochet_cli/src/migration_dsl.rs:288-299 | is the default step, its literal taken from the stack |
| MigrationCompiler.Compiler.TableDrop | crates/ricochet_cli/src/migration_dsl.rs:301-314 | is the table-drop step; refused once a create was seen |
| MigrationCompiler.Compiler.ExecuteWord | crates/ricochet_cli/src/migration_dsl.rs:90-115 | every word is the step of the machine its name stands for; unknown words are refused |
| MigrationCompiler.Compiler.Compile | crates/ricochet_cli/src/migration_dsl.rs:69-88 | succeeds exactly when the tokens have a reading that the adapter can render, and returns its rendering |
| MigrationCompiler.Compiler.Finish | crates/ricochet_cli/src/migration_dsl.rs:332-345 | accepts an empty stack and at least one statement, and renders them |
| MigrationCompiler.Compiler.RenderSql | crates/ricochet_cli/src/migration_dsl.rs:347-439 | renders all statements in order, or refuses one the adapter cannot add a column with |
| MigrationCompiler.Compiler.RenderStatement | crates/ricochet_cli/src/migration_dsl.rs:354-421 | the text of each statement is that of its parts and a terminator |
| MigrationCompiler.Compiler.RenderCreateTable | crates/ricochet_cli/src/migration_dsl.rs:441-458 | the text of a CREATE TABLE, with all its columns in order |
| MigrationCompiler.Compiler.RenderColumnDefinition | crates/ricochet_cli/src/migration_dsl.rs:460-480 | the text of a column with its flags and default |
| MigrationCompiler.CompiledSqlReadsBack | crates/ricochet_cli/src/migration_dsl.rs:69-481 | whatever compiles is read back by a quote-aware SQL reader as exactly the compiled statements, in order, if and only if no type name opens a quote or comment that the dialect alone knows, PostgreSQL's dollar quotes included, and, but for MySQL, no default holds a NUL |
| MigrationSqlReading.DoubledQuoteRoundTrip | crates/ricochet_cli/src/migration_dsl.rs:29-42 | text quoted by doubling ends at its own closing quote and decodes to itself (SQL-92 sections 5.2 and 5.3) |
| MigrationSqlReading.EscapedRoundTrip | crates/ricochet_cli/src/migration_dsl.rs:36-42 | MySQL literals, with backslashes and quotes escaped, end at their own quote and decode to themselves |
| MigrationSqlReading.LexIdentifier | crates/ricochet_cli/src/migration_dsl.rs:29-34 | a quoted identifier is read as one lexeme holding the original name, for every adapter, exactly when the database sees all of it, as it does for every validated name |
| MigrationSqlReading.LexValue | crates/ricochet_cli/src/migration_dsl.rs:36-42 | a literal is read as one lexeme holding the original text exactly when the database sees all of it: always for MySQL, without a NUL for the others |
| MigrationSqlReading.ReadStatement | crates/ricochet_cli/src/migration_dsl.rs:347-421 | a rendered statement whose type names open nothing is split off at its own terminator, whatever follows, if and only if the database sees all of its defaults |
| MigrationSqlReading.RenderedSqlReadsBack | crates/ricochet_cli/src/migration_dsl.rs:347-481 | the rendered file reads back as its statements if and only if no validated type name holds `#` for MySQL, `[` for SQLite or, outside a word, a dollar-quote delimiter for PostgreSQL, and no default holds a NUL for the last two |
| MigrationWitnesses.TypeIsMisreadIff | crates/ricochet_cli/src/migration_dsl.rs:568-582 | a type name that passes its check gives a file that compiles to SQL which does not read back exactly when it opens a quote or comment |
| MigrationWitnesses.EveryDialectIsMisread | crates/ricochet_cli/src/migration_dsl.rs:568-582 | there are such files for every adapter: `#`, `[`, `$$` and a tagged dollar quote as types |
| MigrationWitnesses.DollarsInAWordAreRead | crates/ricochet_cli/src/migration_dsl.rs:568-582 | dollar signs that continue a word do no harm |
| MigrationWitnesses.DefaultIsMisreadIff | crates/ricochet_cli/src/migration_dsl.rs:288-299 | a default gives a file that compiles to SQL which does not read back exactly when the database does not see all of it |
| MigrationWitnesses.NulIsMisread | crates/ricochet_cli/src/migration_dsl.rs:288-299 | there are such files for SQLite and PostgreSQL |
| MigrationWitnesses.RepeatedDefaultCompiles | crates/ricochet_cli/src/migration_dsl.rs:288-299 | a file that gives a column two defaults compiles, and some literal of it is not used as often as it was written |
| SecureActions.SecretActionRegistry.Issue | crates/ricochet_cli/src/secure_action.rs:73-110 | drops the expired, keeps the capacity of the generation, and enters a fresh id or nothing |
| SecureActions.SecretActionRegistry.Take | crates/ricochet_cli/src/secure_action.rs:112-135 | succeeds exactly for a present id, its own generation and an age below the lifetime; a wrong generation changes nothing |
| SecureActions.SecretActionRegistry.InvalidateGeneration | crates/ricochet_cli/src/secure_action.rs:137-143 | removes exactly the entries of the generation |
| SecureActions.SecretActionRegistry.InvalidateAll | crates/ricochet_cli/src/secure_action.rs:145-151 | removes every entry |
| SecureActions.RunKeepsInv | crates/ricochet_cli/src/secure_action.rs:73-151 | entries, calls under way and log agree after every step, the clock being read before the lock |
| SecureActions.CapacityHolds | crates/ricochet_cli/src/secure_action.rs:81-92 | in every interleaving no generation ever holds more than 32 entries |
| SecureActions.EachIssueRedeemedAtMostOnce | crates/ricochet_cli/src/secure_action.rs:112-135 | in every interleaving each issue is redeemed at most once |
| SecureActions.RedemptionsMatchTheirIssue | crates/ricochet_cli/src/secure_action.rs:112-135 | a redemption returns the binding of an earlier issue, asked for under its generation, with an age below five minutes by the call's own reading of the clock, which is not after the redemption |
| SecureActions.DistinctTokensRedeemOnce | crates/ricochet_cli/src/secure_action.rs:92-110 | without repeated tokens no id is redeemed twice |
| SecureActions.AgeBoundIff | crates/ricochet_cli/src/secure_action.rs:112-135 | for every wait w and age a, all runs whose redeeming calls wait at most w redeem below age a if and only if a is at least the lifetime plus w; so the lifetime is kept if and only if no call waits |
| RegistryNames.ArtifactPathIsValid | crates/ricochet_cli/src/hosted_registry_server.rs:1308-1339 | every artifact path made from a valid name, version and leaf passes the path check of the loader |
| RegistryNames.ArchiveLeafIsPlain | crates/ricochet_cli/src/hosted_registry_server.rs:468-476 | the archive name of a valid package version is one plain path segment |
| RegistryVersions.SortedAscends | crates/ricochet_cli/src/hosted_registry_server.rs:1287-1293 | sorting leaves the versions in precedence order (Semantic Versioning 2.0.0 section 11) |
| RegistryVersions.SortedIsDistinct | crates/ricochet_cli/src/hosted_registry_server.rs:1287-1293 | sorting keeps versions distinct |
| RegistryVersions.LatestIsLatest | crates/ricochet_cli/src/hosted_registry_server.rs:1295-1306 | there is a latest version exactly when some version is not yanked and meets the requirement, and nothing that does comes after it |
| RegistryVersions.SortingFindsTheLatest | crates/ricochet_cli/src/hosted_registry.rs:848-869 | the client's filter, sort and pop picks the version the server's scan picks, for every list |
| RegistryVersions.LatestNonYankedVersion | crates/ricochet_cli/src/hosted_registry_server.rs:1295-1306 | the scan returns the latest version that is not yanked |
| RegistryIdempotency.Prune | crates/ricochet_cli/src/hosted_registry_server.rs:1250-1261 | at most 4096 records are left, exactly that many when something was removed; survivors are unaltered and every removed record is older, by time then key, than every survivor |
| RegistryIdempotency.PrunedIsUnique | crates/ricochet_cli/src/hosted_registry_server.rs:1250-1261 | what pruning promises leaves one possible table |
| RegistryIdempotency.Store | crates/ricochet_cli/src/hosted_registry_server.rs:1222-1248 | storing is inserting, then pruning |
| RegistryServerSafety.RunKeepsInv | crates/ricochet_cli/src/hosted_registry_server.rs:410-581 | over every run of begun, committed, failing and interrupted requests, memory and disk keep keys equal to names, versions distinct and ascending, files as listed; what is on disk is in memory and persists |
| RegistryServerSafety.ReleasesAreImmutable | crates/ricochet_cli/src/hosted_registry_server.rs:433-581 | between restarts a listed release stays listed with its paths and integrities, and changes only by being yanked once |
| RegistryServerSafety.SavedStateLoads | crates/ricochet_cli/src/hosted_registry_server.rs:905-987 | after every run, what is on disk is accepted by the loader, and a restart serves exactly that |
| RegistryServerSafety.EachVersionIsAddedOnce | crates/ricochet_cli/src/hosted_registry_server.rs:433-508 | no interleaving, failure or restart enters a package version a second time |
| RegistryServerSafety.Pushed | crates/ricochet_cli/src/hosted_registry_server.rs:497-499 | adding a version to a sorted list keeps it sorted and distinct, and adds that entry only |
| RegistryServerSafety.Uploaded | crates/ricochet_cli/src/hosted_registry_server.rs:684-773 | what a validated upload leads to passes the loader and is backed by the files written |
| RegistryServerSafety.PublishKeeps | crates/ricochet_cli/src/hosted_registry_server.rs:433-517 | a publish section keeps the registry well formed wherever it stops |
| RegistryServerSafety.YankKeeps | crates/ricochet_cli/src/hosted_registry_server.rs:540-580 | a yank section keeps the registry well formed and yanks nothing else |
| RegistryServerReplies.SectionTouchesOneVersion | crates/ricochet_cli/src/hosted_registry_server.rs:433-580 | a section changes no entry but that of its own package version |
| RegistryServerReplies.PublishSucceedsIff | crates/ricochet_cli/src/hosted_registry_server.rs:433-517 | a publish without a fault succeeds exactly when the version is unlisted and none of its files exists; then it is saved and is what was uploaded |
| RegistryRestart.FailedSaveLosesTheVersion | crates/ricochet_cli/src/hosted_registry_server.rs:507-517 | a publish whose save fails is listed until the restart, and afterwards in every run if and only if another change was saved with it before; otherwise it is unlisted for ever and every new attempt is an internal error |
| RegistryRestart.AfterRestart | crates/ricochet_cli/src/hosted_registry_server.rs:905-987 | a listed release is listed in every run after a restart if and only if it was on disk, and is then the same release |
| RegistryRestart.AnotherPublishSaves | crates/ricochet_cli/src/hosted_registry_server.rs:507-517 | any publish that succeeds saves every version that is listed |
| RegistryServerReplies.YankIsSavedIff | crates/ricochet_cli/src/hosted_registry_server.rs:540-580 | a yank answered with success is on disk if and only if it marked the version itself or the disk had it already |
| RegistryServerReplies.RepeatedYankMayNotBeSaved | crates/ricochet_cli/src/hosted_registry_server.rs:566-568 | a failed yank repeated is answered with success and not saved |
| RegistryServerReplies.RecordIsFinal | crates/ricochet_cli/src/hosted_registry_server.rs:1191-1248 | once no request with its key is under way, a record does not change in any run that keeps it |
| RegistryServerReplies.RepetitionsGetTheSameResponse | crates/ricochet_cli/src/hosted_registry_server.rs:423-517 | a request that alone holds its key is answered the same when repeated, after any run that keeps its record; another request under the key is refused; neither changes anything |
| RegistryServerReplies.TwinsForgetTheSuccess | crates/ricochet_cli/src/hosted_registry_server.rs:423-517 | of two identical publishes under way the second is refused and its refusal replaces the remembered success |
| RegistryService.HostedRegistry.constructor | crates/ricochet_cli/src/hosted_registry_server.rs:905-916 | a server starts on the document on disk, if the loader accepts it |
| RegistryService.HostedRegistry.PackageResponse | crates/ricochet_cli/src/hosted_registry_server.rs:888-903 | the response lists the package with its latest version |
| RegistryService.HostedRegistry.Remember | crates/ricochet_cli/src/hosted_registry_server.rs:1222-1248 | the response is stored under the key and the table pruned |
| RegistryService.HostedRegistry.WriteNewFile | crates/ricochet_cli/src/hosted_registry_server.rs:873-886 | a file is created or nothing is changed |
| RegistryService.HostedRegistry.WriteOptionalArtifacts | crates/ricochet_cli/src/hosted_registry_server.rs:801-844 | attestation and signature are written in order; the first failure keeps what was written |
| RegistryService.HostedRegistry.WriteFiles | crates/ricochet_cli/src/hosted_registry_server.rs:465-482 | the archive is written, then the optional artifacts |
| RegistryService.HostedRegistry.PublishLocked | crates/ricochet_cli/src/hosted_registry_server.rs:435-508 | is the publish section of the model, state, response and whether it is remembered; success means saved, and files only grow |
| RegistryService.HostedRegistry.YankLocked | crates/ricochet_cli/src/hosted_registry_server.rs:540-571 | is the yank section of the model |
| RegistryService.HostedRegistry.Serve | crates/ricochet_cli/src/hosted_registry_server.rs:410-581 | a whole request: refused, replayed or carried out, and remembered when it is to be; files only grow, and a change answered with success is saved |
| LockFile.LockRoundTrip | crates/ricochet_cli/src/lib.rs:7366-7434 | a written entry reads back as the spec that wrote it if and only if its package name and commit, which only the reader checks, are well formed |
| LockFile.OtherEntriesKept | crates/ricochet_cli/src/lib.rs:7366-7434 | writing an entry leaves every other entry and the rest of the document as they were |
| LockFile.RewritingIsStable | crates/ricochet_cli/src/lib.rs:7366-7434 | writing an entry again changes nothing |
| LockFile.Lock.Write | crates/ricochet_cli/src/lib.rs:7366-7445 | the document is edited as specified, or refused and unchanged |
| Reinstall.ServedIsAccepted | crates/ricochet_cli/src/hosted_registry.rs:592-674 | a package of a state the loader accepts is accepted by the client, with the same entries, if and only if the answer is at most 2 MiB long |
| Reinstall.TooManyVersions | crates/ricochet_cli/src/hosted_registry.rs:592-604 | if each version takes at least a byte, a package with more than 2 MiB of versions does not fit and no install of it succeeds |
| Reinstall.ListedIsFetched | crates/ricochet_cli/src/hosted_registry_server.rs:583-605 | a listed version can be downloaded under its listed path and unpacks to the package it is listed as; it is accepted in every order of listing if and only if its tree has one hash |
| Reinstall.SelectedSatisfies | crates/ricochet_cli/src/hosted_registry.rs:871-898 | the chosen version is one of the listed ones and meets the manifest's requirement |
| Reinstall.EntryReadsBack | crates/ricochet_cli/src/lib.rs:6059-6168 | the entry an install writes is always readable |
| Reinstall.InstallPins | crates/ricochet_cli/src/hosted_registry.rs:403-482 | a successful install installs a listed release that meets the requirement, leaves its package in the cache and pins it in the lock entry |
| Reinstall.PinnedIsResolved | crates/ricochet_cli/src/hosted_registry.rs:871-998 | a pinned release is chosen again whenever it is listed, yanked or not and whatever is newer, in an answer that is not too long, and no field check refuses it; otherwise the install is refused |
| Reinstall.ReinstallIff | crates/ricochet_cli/src/hosted_registry.rs:403-482 | reinstalling a pinned release succeeds exactly when it is still listed, in an answer of at most 2 MiB, and its tree is found with the hash it was published with; then with the same version, integrities and lock entry |
| Reinstall.ReinstallIsStable | crates/ricochet_cli/src/hosted_registry.rs:403-482 | after an install, any run of publishes, yanks and failures, and restarts once the release is on disk, leaves every reinstall with the outcome of the first, with or without the package cache, if and only if the answer for the package still fits 2 MiB and its tree has one hash in every order of listing |
| Reinstall.ReinstallAfterRestartIff | crates/ricochet_cli/src/hosted_registry.rs:871-898 | once the server has restarted every reinstall succeeds if and only if the release had been saved by then, and answer and tree are as above |
| ReinstallTrees.StableIffNoClash | crates/ricochet_cli/src/hosted_registry.rs:403-482 | for a package unpacked from given files, and a digest without collisions, every reinstall after any run ends as the first if and only if the answer still fits and no two files have one slash-separated name and different contents |
| RegistryInstall.LocalProject.Unpack | crates/ricochet_cli/src/hosted_registry.rs:414-458 | the cached package is checked, or the archive fetched, checked and unpacked; caches that were there are not touched, and what a failed unpacking wrote stays |
| RegistryInstall.LocalProject.Install | crates/ricochet_cli/src/lib.rs:5462-5578 | is the install of the model, on the project's caches and lock file; a failed one leaves the lock file as it was |
| RegistryMirror.Search | crates/ricochet_cli/src/hosted_registry_server.rs:321-363 | the page at an offset of all matches by ascending name, capped at 100 |
| RegistryMirror.Collect | crates/ricochet_cli/src/hosted_registry.rs:372-377 | all names of a page are checked and added |
| RegistryMirror.Mirror | crates/ricochet_cli/src/hosted_registry.rs:361-382 | against an unchanging registry the paging loop ends, with success if and only if every page it asks for fits 2 MiB, and has then found exactly the packages with a version that is not yanked |
| RegistryMirror.EntryIffLive | crates/ricochet_cli/src/hosted_registry_server.rs:331-343 | a package is listed in a search exactly when it has a version that is not yanked |
| PackageTree.PreimageIsUniquelyDecodable | crates/ricochet_cli/src/lib.rs:7049-7060 | different lists of NUL-free names and contents are hashed as different byte strings |
| PackageTree.HeaderSpells | crates/ricochet_cli/src/lib.rs:7049-7050 | the first bytes hashed are the version label and a NUL |
| PackageCopy.CopyPutsCollected | crates/ricochet_cli/src/lib.rs:7066-7164 | the copy succeeds exactly when the hash walk does, and writes exactly the files that walk collects, `.git` directories left out at every depth |
| PackageCopy.CopiedFiles | crates/ricochet_cli/src/lib.rs:7119-7164 | all the collected files, and no others, are in the copy |
| PackageCopy.ShownIsCollected | crates/ricochet_cli/src/lib.rs:7066-7102 | however the copy's directories are listed, the walk over it collects the files of the original |
| PackageOrder.CopyIsShown | crates/ricochet_cli/src/lib.rs:7104-7164 | the copy is itself a directory tree |
| PackageOrder.SameFilesSameSort | crates/ricochet_cli/src/lib.rs:7045-7047 | the sort forgets the order of listing when names decide contents |
| PackageOrder.FirstAfterSort | crates/ricochet_cli/src/lib.rs:7047 | the sort is stable: of one name the first stays first |
| PackageOrder.CopyHashesAlikeIff | crates/ricochet_cli/src/lib.rs:7037-7164 | a copy hashes like the original in every order of listing if and only if no two hashed files have one slash-separated name and different contents |
| PackageOrder.PlainPathsNeverClash | crates/ricochet_cli/src/lib.rs:6584-6586 | where no name holds a backslash nothing clashes |
| PackageOrder.ClashingTree | crates/ricochet_cli/src/lib.rs:6584-6586 | a package tree that copies, and whose hash depends on the order of listing |
| PackageHashes.OneHashIff | crates/ricochet_cli/src/lib.rs:7037-7102 | without digest collisions a tree has one hash over all orders of listing if and only if no two of its files have one slash-separated name and different contents |
| PackageWalk.CollectFiles | crates/ricochet_cli/src/lib.rs:7066-7102 | the recursive walk pushes exactly the collected files, in order |
| PackageWalk.PackageTreePreimage | crates/ricochet_cli/src/lib.rs:7037-7064 | the hasher is fed the preimage of the sorted files |
| PackageWalk.CopyTarget.CopyEntries | crates/ricochet_cli/src/lib.rs:7119-7164 | the copy walk creates what the specification says, also when it stops at a link |
| PublishDigest.PreimageIsUniquelyDecodable | crates/ricochet_cli/src/hosted_registry_server.rs:1263-1285 | different bodies with lengths below 2^64 are digested as different byte strings, whatever optional parts each has |
| PublishDigest.LittleEndianIsInjective | crates/ricochet_cli/src/hosted_registry_server.rs:1283 | eight little-endian bytes determine a length below 2^64 |
| PublishDigest.LabelsSpell | crates/ricochet_cli/src/hosted_registry_server.rs:1270-1276 | the four labels |
| PublishDigest.UpdateDigestPart | crates/ricochet_cli/src/hosted_registry_server.rs:1281-1285 | a part is its label, its length and its bytes |
| PublishDigest.PublishBody | crates/ricochet_cli/src/hosted_registry_server.rs:1263-1279 | the hasher is fed the preimage of the body |
| Utf8.BytesAreInjective | crates/ricochet_cli/src/lib.rs:7054 | different names have different bytes |
| Utf8.DecodeInverts | crates/ricochet_cli/src/lsp.rs:1728-1729 | decoding the bytes of a text gives the text (RFC 3629 section 3) |
| Utf8.DecodedIsText | crates/ricochet_cli/src/lsp.rs:1728-1729 | whatever is decoded are the bytes of a text, so that a line is read exactly when it is UTF-8 |
| Decimal.PrintParse | crates/ricochet_cli/src/lsp.rs:1740-1747 | a printed length parses back, up to the 64-bit bound |
| LspFraming.ReadsBack | crates/ricochet_cli/src/lsp.rs:1724-1764 | a written message reads back, and reading stops right behind it |
| LspFraming.MessagesReadBack | crates/ricochet_cli/src/lsp.rs:1724-1764 | any list of written messages reads back in order, to the last byte, and then ends cleanly (LSP 3.17, "Header Part") |
| LspFraming.Stream.ReadLine | crates/ricochet_cli/src/lsp.rs:1728-1729 | takes the bytes of a line up to and with its line feed, or everything, and fails when they are not UTF-8 |
| LspFraming.Stream.ReadHeaderLines | crates/ricochet_cli/src/lsp.rs:1727-1749 | the header loop, with values trimmed of Unicode white space, ends as specified, at the start of the body |
| LspFraming.Stream.Read | crates/ricochet_cli/src/lsp.rs:1724-1756 | the next body, or the error, of the body's JSON too; the rest of the input is left |
| LspFraming.Stream.Write | crates/ricochet_cli/src/lsp.rs:1758-1764 | appends the framed message |
| LspTokens.DecodesIff | crates/ricochet_cli/src/lsp.rs:1499-1529 | the relative stream decodes to the emitted tokens if and only if their starts ascend, that is, no subtraction saturates |
| LspTokens.TokensDecode | crates/ricochet_cli/src/lsp.rs:1499-1529 | for tokens in source order that do not overlap the stream decodes to exactly the emitted tokens (LSP 3.17, "Semantic Tokens") |
| LspTokens.SemanticTokenData | crates/ricochet_cli/src/lsp.rs:1499-1529 | the loop emits the stream of the typed, single-line, non-empty tokens |
| LspPositions.PositionInverts | crates/ricochet_cli/src/lsp.rs:1695-1722 | every character boundary of every text is found again at its UTF-16 position (LSP 3.17, "Position") |
| LspPositions.PositionLands | crates/ricochet_cli/src/lsp.rs:1695-1722 | a position is found exactly when its line exists, and lands in that line on the first boundary with at least its character, or on the line's end |
| LspPositions.LandingIsMonotone | crates/ricochet_cli/src/lsp.rs:1695-1722 | a later position never lands earlier |
| LspLineRule.FollowsLspIff | crates/ricochet_cli/src/lsp.rs:1695-1722 | the code finds the boundary that LSP 3.17 means (section "Text Documents"), at every position, if and only if the text holds no carriage return |
| LspLineRule.ReportsIff | crates/ricochet_syntax/src/diagnostic.rs:100-143 | every boundary outside line ends is reported as a position that means it under the rule of LSP 3.17 if and only if each carriage return stands before a line feed |
| LspLineRule.ReturnsAreMisread | crates/ricochet_cli/src/lsp.rs:1695-1722 | the code goes one too far behind the end of a line that ends with both, and does not find the line behind a lone carriage return |
| LspOffsets.OffsetForPosition | crates/ricochet_cli/src/lsp.rs:1695-1722 | the loop over bytes returns the byte offset of that boundary |
| LspOffsets.InLine | crates/ricochet_cli/src/lsp.rs:1714-1721 | the walk over the line ends at that boundary |
| LspOffsets.LineStarts | crates/ricochet_syntax/src/diagnostic.rs:100-108 | every byte offset after a line feed, and zero |
| LspOffsets.Utf16Position | crates/ricochet_syntax/src/diagnostic.rs:127-143 | the position of a boundary: the lines before it and the UTF-16 units since its line's start; it is the position the decoded token stream is built from |
| LspOffsets.SpansDecode | crates/ricochet_cli/src/lsp.rs:1499-1529 | for tokens whose byte spans ascend, as the lexer gives them, the stream decodes to exactly what was emitted, on every text |

## Left out

- HTTP, routing, multipart parsing, authentication and publisher policies: requests start parsed and
  authenticated; header rules for idempotency keys are not modelled.
- JSON, TOML and gzip: documents are values, and an archive is the tree it unpacks to. Of the size limits, those on
  responses and archives are modelled; those on uploads, archive entries and unpacked files are not.
- SHA-256: preimages are proved different, digests are not; integrities are opaque strings.
- Semantic version parsing: a parameter with the laws named above.
- Database engines other than one whose transactions are atomic, and the PostgreSQL and MySQL runners.
- Migration discovery from file names, and validation of versions: a migration list comes in version order.
- The lexer and parser of the language: tokens come as a list, and byte positions in DSL messages are dropped.
- Breakpoint bookkeeping inside the VM, the event stream of the debug page, the terminal debugger.
- Partly written files: a failing file operation changes nothing; the failing operation of a section is chosen
  by `Fault`, and a crash is such a fault followed by a restart.
- Git, path and static-registry dependencies, and the check that a package path stays inside the project.
- The second half of `mirror`, which writes the mirrored files.
- File names that are not valid Unicode, and symbolic links beyond their refusal.
- LspFraming.Stream.Read: which bodies are JSON is a parameter; what they say is left out.
- LspOffsets.Utf16Position: the offset has to be a character boundary, since the original slices the text there.
- RegistryMirror.Search: asks for a registry the loader accepts, which every reachable state is.
- Debug, project scaffolding, formatting and benchmark commands: user interface or constant text.
