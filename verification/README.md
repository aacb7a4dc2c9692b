# Verified models of the migrator, the seed restore and the polling helpers

This project models three programs of the repository and proves what they promise.

**The schema migrator** (`cmd/verify-db/main.go`). A process takes a session-level advisory lock, creates
the history table, discovers and sorts the migration files, and applies each of them in a transaction that
also records its version and checksum. It is modelled three times, and the three are proved to agree:

- `Migration` gives the sequential meaning: what one call of `applyMigration` and one uninterrupted run do
  to the committed database. SQL is an uninterpreted, possibly failing effect on an abstract schema, the
  checksum an uninterpreted function; both are parameters, so every theorem is about all of them.
- `MigratorProgram` is the program itself, a class that updates the database in place. A fault may hit the
  query for the lock, the creation of the history table (done or not), the reading of the directory, and the
  lookup, begin, SQL, insert and commit of each file. `RunMigrator` is proved equal to the sequential meaning
  with these faults.
- `Protocol` is a state machine for any number of processes that interleave statement by statement. Actions
  start a process, let it take its next statement, kill it, end the session that holds the lock while the
  process goes on, and change files on disk. An open transaction carries the committed schema it executed on
  and what its SQL made of it. If another transaction has committed in between, the schema after the commit
  is an arbitrary function of the two, so that every theorem holds for whatever the database makes of
  overlapping transactions. A state is reachable when some sequence of actions leads to it (`Run`); actions
  that are not possible change nothing.

`ProtocolSafety`, `ProtocolConvergence`, `ProtocolRuns` and `ProtocolProgress` prove the invariants over all
runs, the refinement to the sequential meaning, that a process left alone performs it, and that no process
runs or waits for ever. `FileNames` and `Discovery` cover the file name format, its order, and the discovery
loop; `RunTheorems` covers when a run finishes and where it stops, drift, upgrades and renaming.

**The seed restore** (`cmd/restore-seed/main.go`). `SeedTables` has the tables, the constraints of the schema
in `migrations/`, and the SQL statements as functions that fail when a constraint would break. `SeedRestore`
proves exactly when the transaction succeeds and what it leaves; `RestoreProgram` is the transaction as a
method on a database object. Theorems hold for any seed list with distinct codes, which the program's list is.

**The polling helpers** (`examples/openai-go-sdk-reference/polling.go`). `Polling` has the loop that the three
`PollStatus` methods share, over an arbitrary trace of replies and context states.

Results that need no hypothesis one might expect, or fail without one:

- Renaming descriptions never matters: file name order between different versions is the order of
  version-with-separator, whether or not one version is a prefix of another.
- File name order is version order exactly when no version extends another with a character below `_`;
  `10_x.sql` runs before `1_x.sql`.
- A database reached by overlapping, crashing and lock-losing processes over an unchanging directory always
  finishes as if nothing had happened. This needs neither the lock nor a history lookup inside the transaction:
  each process has passed everything before its file, and the primary key does the rest.
- Over an unchanging directory, a process that reports success has told the truth about all of it, whatever
  others did meanwhile.
- The schema is the serial result of the committed SQL as long as nobody commits on a schema that has been
  replaced since. Live lock sessions give that for any directories and contents, an unchanging directory
  gives it without the lock, and so does a schedule in which no commit falls between the execution and the
  end of another transaction.
- A run asks nothing of SQL that is already recorded: it finishes exactly when its files can be read, none
  has drifted, and the unrecorded SQL executes in order.
- Unless a call breaks, a restore fails exactly when a row that stays refers to a row that goes, that is, a
  journal line of another company uses an account of company 1000 or an entry of another company reverses
  one of its entries, or when an id drawn from a sequence is taken.
- A polling interval is slept as asked exactly when its nanoseconds fit 64 bits.

Where documentation and code differ, the code is followed. `README.md` of the repository (lines 270-271) lists
the scan before the lock, but the lock is taken first. The comments of the polling helpers promise a default
of one second, but the server's hint comes first, and a hint that is not positive is used for its own sleep.

## Model

| member | source | states |
|---|---|---|
| FileNames.BelowIsLexicographic | cmd/verify-db/main.go:118 | the order of names is decided at the first difference, where the smaller character or the end of the name comes first |
| FileNames.SortIsDetermined | cmd/verify-db/main.go:118 | any sorted rearrangement of the names is the same list, so the library's algorithm does not matter |
| FileNames.IncreasingListIsUnique | cmd/verify-db/main.go:118-119 | a strictly increasing list is determined by the set of its names |
| FileNames.NameRoundTrip | cmd/verify-db/main.go:122-128 | a name splits exactly if it has a separator, its parts rebuild it, and a rebuilt name has the version it was built from |
| FileNames.FilenameOrderIsKeyOrder | cmd/verify-db/main.go:118-128 | two file names are ordered by version plus separator (a name without a separator by itself), whatever their descriptions |
| FileNames.FilenameOrderAgainstVersionOrder | cmd/verify-db/main.go:118-128 | for two files, name order is version order if and only if neither version extends the other with a character below the separator |
| FileNames.RunFollowsVersionOrder | cmd/verify-db/main.go:95-130 | a sorted directory goes through its versions in lexicographic order if and only if no version in it extends another that way |
| FileNames.SameVersionsSameOrder | cmd/verify-db/main.go:118-128 | two listings with the same versions run them in the same order |
| FileNames.SameKeysSameOrder | cmd/verify-db/main.go:118-128 | the same for any sorted listings, with versions that occur twice and names without one |
| FileNames.EqualWidthIsNumeric | cmd/verify-db/main.go:118-128 | for digit strings of one length, order and equality are those of the numbers |
| FileNames.NumericRunOrder | cmd/verify-db/main.go:118-128 | with all-digit versions of one width, files run in increasing numeric order |
| Discovery.CandidatesAreTheMigrations | cmd/verify-db/main.go:102-107 | exactly the names of non-directory entries that are some text followed by `.sql` are considered |
| Discovery.AcceptedMeansDistinct | cmd/verify-db/main.go:102-116 | candidates are accepted if and only if all have a version and no two share one |
| Discovery.DiscoverIsExact | cmd/verify-db/main.go:93-120 | what a successful discovery returns: a strictly increasing permutation of exactly the names of non-directory entries that end in `.sql` |
| Discovery.DiscoverSucceedsIffWellNamed | cmd/verify-db/main.go:93-120 | discovery succeeds if and only if every such entry contains `_` and no two of them start with the same text before it |
| Discovery.DiscoverReportsTheFirst | cmd/verify-db/main.go:110-112 | a failed discovery reports the first entry of the listing that breaks a rule after well-named ones, and which rule |
| Discovery.SameKeysSameVerdict | cmd/verify-db/main.go:102-116 | discovery accepts or rejects by versions alone, down to the name or version it complains about |
| Discovery.DiscoverMigrations | cmd/verify-db/main.go:93-120 | the loop with its version map succeeds exactly for well-named listings, returns exactly their `.sql` files in increasing order, and stops with the specified error otherwise |
| Migration.CallIsAllOrNothing | cmd/verify-db/main.go:141-190 | a call commits everything it does or changes nothing; it commits exactly if the version is new, both reads and the SQL succeed and nothing breaks before the commit; only a lost commit answer makes a committed call look failed; it skips exactly if the recorded checksum is that of the file and the lookup works |
| Migration.ReasonsAreTrue | cmd/verify-db/main.go:141-190 | the error of a call that stops names its file and says what went wrong with it |
| Migration.FaultsHit | cmd/verify-db/main.go:141-190 | what each fault makes of a call: it stops the call with its own error exactly if the call gets that far, and nothing is committed unless only the answer was lost |
| Migration.RunExtends | cmd/verify-db/main.go:35-37 | a run never changes or removes a recorded row or a committed effect |
| Migration.PassedIsUpToDate | cmd/verify-db/main.go:148-155 | every file a run has passed is recorded with the checksum of what is on disk |
| Migration.ResumeFromPrefix | cmd/verify-db/main.go:35-37 | going on from any point a run has reached gives the store and outcome of the whole run |
| Migration.StoppedRunIsAPrefix | cmd/verify-db/main.go:35-37 | a run that stops leaves exactly what the files before the one it stopped at left |
| Migration.RerunIsIdempotent | cmd/verify-db/main.go:28-39 | running again after any run, finished or stopped, changes nothing and ends the same way |
| Migration.RunDoesExactlyThePending | cmd/verify-db/main.go:141-190 | a finished run executes exactly the files not recorded before, once each and in order, and records exactly these |
| Migration.InterruptedRunIsAPrefix | cmd/verify-db/main.go:141-190 | however faults cut a run off, its store is one that an uninterrupted run passes through |
| Migration.FirstFaultEndsTheRun | cmd/verify-db/main.go:35-37 | the first fault at a file that would be applied ends the run with its error, and with the store before that file, or after it if only the commit's answer was lost |
| Migration.SuccessIsUndisturbed | cmd/verify-db/main.go:18-40 | a run that reports success is one that nothing has disturbed; each fault of the setup, and a rejected directory, ends it with its own error |
| Migration.RestartConverges | cmd/verify-db/main.go:28-39 | after a run cut off by any faults of its setup or its calls, an uninterrupted one ends as if there had been no first |
| MigratorProgram.Database.ApplyMigration | cmd/verify-db/main.go:141-190 | the in-place call has exactly the effect and result of the sequential meaning, for every fault |
| MigratorProgram.Database.ApplyMigrations | cmd/verify-db/main.go:35-37 | the loop has the effect and outcome of the sequential run with its faults, and changes nothing but under the lock as it found it |
| MigratorProgram.Database.RunMigrator | cmd/verify-db/main.go:18-40 | refused without effect while another session has the lock; otherwise the run with the faults of its setup and of each call; every change is made while the session holds the lock, the lock is as it was however the run ends, and success means an undisturbed run |
| MigratorProgram.RunTwice | cmd/verify-db/main.go:18-40 | a faulty run followed by a healthy one gives what a single healthy run gives |
| RunTheorems.RowIsTheOldOne | cmd/verify-db/main.go:146-152 | a lone run meets for each file the row that was there at its start, so it never skips a version it committed itself |
| RunTheorems.RunFinishesIffApplicable | cmd/verify-db/main.go:141-190 | a run finishes if and only if all files can be read, none has drifted, and the SQL that is not recorded yet executes one after the other |
| RunTheorems.MigrateSucceedsIff | cmd/verify-db/main.go:18-40 | the program succeeds if and only if all migrations have distinct versions and their sorted list is applicable in that sense |
| RunTheorems.FirstObstacleStopsTheRun | cmd/verify-db/main.go:141-190 | otherwise it ends at the first file that is not applicable after those before it, with that file's error, having done exactly the unrecorded files before it |
| RunTheorems.DriftStopsTheRun | cmd/verify-db/main.go:148-155 | the run ends with a mismatch at a file if and only if that file has drifted and those before it are applicable; then exactly the unrecorded files before it have taken effect |
| RunTheorems.RunKeepsBooks | cmd/verify-db/main.go:174-184 | versions take effect at most once and the history is exactly the record of that |
| RunTheorems.FinishedRunMatchesDisk | cmd/verify-db/main.go:130-155 | with an injective checksum, a finished run means that for every file the bytes on disk were executed for its version, and no others |
| RunTheorems.UpgradeEqualsFreshInstall | cmd/verify-db/main.go:93-120 | running on a directory and then on one that continues its list equals running on the second alone, in history, schema, order of effects and outcome |
| RunTheorems.AdditionsAreInOrder | cmd/verify-db/main.go:35-37 | what a finished run adds is the unrecorded files, strictly increasing by name |
| RunTheorems.UpgradeOrderIffPrefix | cmd/verify-db/main.go:93-120 | running on one directory and then on another applies files in the order of a fresh install of the second if and only if the first list is a prefix of the second |
| RunTheorems.RenamingIsHarmless | cmd/verify-db/main.go:118-190 | over two lists with the same versions and contents, the order of effects and every decision, with the version it is about, are the same; only stored file names differ |
| RunTheorems.RenamedDirectoryIsHarmless | cmd/verify-db/main.go:18-40 | the same for whole runs over two directories, including what discovery rejects and why |
| Protocol.OnlyCommitsChangeTheStore | cmd/verify-db/main.go:141-190 | in the protocol, committed state changes only by table creation and by commits; a failed or interrupted attempt leaves it alone |
| Protocol.StopsExactlyWithReason | cmd/verify-db/main.go:59-190 | a process exits with failure at its next statement exactly for the reason its position allows (lock taken, directory rejected, file unreadable, checksum differs, SQL fails, key taken), and with success exactly at the end of its list |
| Protocol.OnlyFinishersSucceed | cmd/verify-db/main.go:35-40 | no action of any kind makes another process report success |
| Protocol.CrashEndsTheProcess | cmd/verify-db/main.go:28-39 | a killed process ends with failure, its lock is free and its transaction is gone |
| Protocol.TwoCanWork | cmd/verify-db/main.go:59-61 | with a lost lock session two processes can work at once, from any idle state |
| Protocol.WhatACommitLeaves | cmd/verify-db/main.go:174-184 | a commit leaves the staged schema, unless another commit has replaced the one it was staged on; then it leaves what the database merges |
| Protocol.LockStaysRight | cmd/verify-db/main.go:59-77 | the lock is held by exactly the process that is working, after every action but the loss of the session |
| Protocol.MutualExclusion | cmd/verify-db/main.go:28-39 | while lock sessions live, in every reachable state at most one process is between taking the lock and exiting, the lock is free exactly if none is, and only its holder can change the database |
| ProtocolSafety.KeysStayExclusive | cmd/verify-db/main.go:81-86 | the primary key keeps an inserted but uncommitted version out of the history and out of every other open transaction |
| ProtocolSafety.EveryVersionAtMostOnce | cmd/verify-db/main.go:145-187 | in every reachable state of any mix of processes, crashes, lost locks and edits, no version has taken effect twice, history and effects agree, and old rows are unchanged |
| ProtocolSafety.ChecksumsAreHonest | cmd/verify-db/main.go:130-187 | if no file changes between the two reads of a call on it, every history row holds the checksum of the bytes whose effect was committed |
| ProtocolSafety.EditInTheWindow | cmd/verify-db/main.go:143-163 | an edit between the two reads is recorded under the checksum of the old bytes while the new ones take effect; the bytes still agree if and only if the edit changed nothing, and the rows are still true if and only if the checksums agree |
| ProtocolSafety.FreshCommitsAreSerial | cmd/verify-db/main.go:168-187 | with or without the lock, the schema stays the serial result as long as nobody commits on a schema that was replaced since the transaction executed, whatever the database makes of overlapping commits |
| ProtocolSafety.FreshIfNoneOverlaps | cmd/verify-db/main.go:168-187 | without any lock, that is so if no commit falls between the execution and the end of another transaction |
| ProtocolSafety.SchemaIsSerial | cmd/verify-db/main.go:59-77 | while lock sessions live, for any directories and contents, the schema is the serial execution of the committed SQL in commit order |
| ProtocolConvergence.SameUnrecordedFile | cmd/verify-db/main.go:35-37 | processes that have passed everything before their unrecorded files are at the same file |
| ProtocolConvergence.CommitFollowsRun | cmd/verify-db/main.go:174-187 | whatever overlaps, the only commit possible is that of the file one run would apply next, with the schema it would produce |
| ProtocolConvergence.UnchangingDirectoryIsSerial | cmd/verify-db/main.go:168-187 | and it is so over an unchanging directory, even with lost locks: the schema stays serial |
| ProtocolConvergence.EveryReachableStateIsOnTheRun | cmd/verify-db/main.go:35-37 | over an unchanging directory, every reachable database is one that a single uninterrupted run passes through |
| ProtocolConvergence.EffectsAreAPrefixOnceInOrder | cmd/verify-db/main.go:145-187 | in every such state the added effects are the unrecorded files of a prefix of the list, once each and in order, with the schema and history that gives |
| ProtocolConvergence.PrefixInvariant | cmd/verify-db/main.go:80-86 | from an empty database, the effects are a prefix of the sorted list and the recorded versions are exactly its versions |
| ProtocolConvergence.EveryReachableStateConverges | cmd/verify-db/main.go:33-39 | from every reachable state an uninterrupted run ends with the database and outcome of a run from the beginning, success or not |
| ProtocolConvergence.ReportedSuccessIsTrue | cmd/verify-db/main.go:18-40 | when any process of any reachable state has reported success, every file is recorded with its checksum and the database is exactly that of one finished uninterrupted run |
| ProtocolRuns.EveryCommitIsProgress | cmd/verify-db/main.go:141-190 | the number of listed files not yet recorded falls by exactly one with every commit and never otherwise changes |
| ProtocolRuns.OneFile | cmd/verify-db/main.go:141-190 | at most six statements of an undisturbed process amount to one call of the sequential meaning |
| ProtocolRuns.UndisturbedProcessIsMigrate | cmd/verify-db/main.go:18-40 | a process left alone does exactly what the sequential meaning says, within six statements per file and four more |
| ProtocolRuns.CrashRestartConverges | cmd/verify-db/main.go:18-40 | after any overlapping, crashing and lock-losing processes, one undisturbed process leaves the database and outcome of a direct run, and another one changes nothing |
| ProtocolProgress.EveryProcessIsBounded | cmd/verify-db/main.go:18-40 | under any interleaving, with crashes, lost locks and, after the listing, edits, a process takes at most six statements per file and four more that do not wait, and then it has exited |
| ProtocolProgress.HolderLetsGo | cmd/verify-db/main.go:80-86 | a process waits only for the key of another open transaction, whose next statement or end lets it go: after a commit it fails on the key, after a crash its row gets in |
| ProtocolProgress.SomebodyCanMove | cmd/verify-db/main.go:141-190 | no deadlock: unless all processes have exited, one can move |
| ProtocolProgress.EveryReachableStateCanComeToRest | cmd/verify-db/main.go:18-40 | from every reachable state statements alone bring all processes to their ends and free the lock |
| SeedRestore.RestoreCompanyExactly | cmd/restore-seed/main.go:59-65 | the upsert fails if and only if it needs a new id and that is taken; otherwise the one seed company, under its old id or the new one, has the seed data and no other row changes |
| SeedRestore.EveryStatementKeepsSound | cmd/restore-seed/main.go:33-109 | after every single statement all references point at existing rows and codes are unique |
| SeedRestore.UpsertOnlyInserts | cmd/restore-seed/main.go:71-96 | with no account of the company left, the update branch is never taken; the statement succeeds if and only if its ids are free and adds one row per seed |
| SeedRestore.UpsertUpdatesOrInserts | cmd/restore-seed/main.go:71-96 | the statement in full, with its update branch: rows with a listed code get the listed name and type under their id, every listed account has a row, no other row changes |
| SeedRestore.UpsertRefusesRepeats | cmd/restore-seed/main.go:71-96 | it fails on a list that names a code twice |
| SeedRestore.NewIdsByPlace | cmd/restore-seed/main.go:71-96 | a new row has the id of its place in the list, since every row draws one |
| SeedRestore.ClearJournalsExactly | cmd/restore-seed/main.go:34-43 | the journal deletes fail if and only if an entry that stays reverses one that goes, and remove exactly the company's entries and lines |
| SeedRestore.DeleteAccountsExactly | cmd/restore-seed/main.go:49-53 | the account delete fails if and only if a line that stays uses an account that goes |
| SeedRestore.RestoreIsExact | cmd/restore-seed/main.go:27-116 | the restore succeeds if and only if nothing that stays refers to seed rows and new ids are free, and then: one seed company with the seed data, no entries or lines, exactly the listed accounts, kept document types, every other row as it was |
| SeedRestore.RestoreRowByRow | cmd/restore-seed/main.go:27-116 | the same in rows only, without the sets the statements delete: an entry or line is gone exactly if its company has code 1000, the accounts of that company are the listed ones, and every other row is as it was; and exactly when the restore succeeds |
| SeedRestore.RestoreLeavesOthersAlone | cmd/restore-seed/main.go:27-116 | every company with another code keeps its row, accounts, entries and lines, and no other company appears |
| SeedRestore.RestoredAgain | cmd/restore-seed/main.go:27-116 | restoring restored tables changes nothing but the ids of the seed accounts |
| SeedRestore.RestoreTwice | cmd/restore-seed/main.go:27-116 | with ids drawn from the sequences only, a second restore succeeds after a first and gives the same contents |
| RestoreProgram.SeedDatabase.RunTransaction | cmd/restore-seed/main.go:27-116 | the statements run on the transaction's view; the tables change if and only if the commit is made, which a lost answer hides, and failures only use up ids |
| RestoreProgram.SeedDatabase.RestoreSeed | cmd/restore-seed/main.go:17-120 | the program reports the first call that breaks or that a constraint refuses, in terms of the tables it started from; if all worked, or only the commit's answer was lost, the tables are restored row by row, otherwise they are unchanged and only ids are used up |
| RestoreProgram.StopsAtFirstFailure | cmd/restore-seed/main.go:27-116 | the statements in sequence stop at the first call that is broken or refused by a condition on the original tables |
| RestoreProgram.RestoreAgain | cmd/restore-seed/main.go:17-120 | whatever broke a first restore, even a lost answer to its commit, a second one leaves the tables restored |
| Polling.AtoiReadsExactly | examples/openai-go-sdk-reference/polling.go:21-26 | exactly the texts of an optional sign and digits whose number fits 64 bits are read, as that number |
| Polling.HintByHeader | examples/openai-go-sdk-reference/polling.go:21-26 | the hint is the integer that the header writes, and 1000 if it writes none |
| Polling.SleepIsAsAsked | examples/openai-go-sdk-reference/polling.go:45 | the sleep is as long as asked if and only if the interval is not negative and its nanoseconds fit 64 bits; a negative one in that range is no sleep |
| Polling.DecisionByRounds | examples/openai-go-sdk-reference/polling.go:34-60 | polling goes on exactly while every round gets an unfinished object and a live context; otherwise it ends in the first round that does not, with its error, its object, its invalid status, or cancellation |
| Polling.FirstPositiveIntervalSticks | examples/openai-go-sdk-reference/polling.go:41-45 | a positive caller interval is used throughout; otherwise each sleep follows its own hint until the first positive one, which then stays |
| Polling.TotalSleepIsProportional | examples/openai-go-sdk-reference/polling.go:41-45 | with a positive interval that fits, the whole sleep is that interval for every round that slept |
| Polling.PollStatus | examples/openai-go-sdk-reference/polling.go:30-61 | the loop returns what the first round that does not go on says, after one Get more than its index, and sleeps the stated intervals, once for every unfinished object |

## Left out

- Ledger, orders, inventory, purchasing, reporting and document numbering (`internal/core`) are not part of this model; it is about the three programs above.
- PostgreSQL itself: atomic commit, discarding uncommitted work at session end, a unique key on which a second insert waits and then fails, and try-lock are assumed. Migration SQL is taken to have no transaction control and not to touch the history table.
- The SQL of one file executes in one step, on the schema committed at that moment; that a transaction sees commits made between two of its own statements is not modelled. How overlapping changes are merged is left to an arbitrary function, so no claim is made about the schema after a commit on a replaced one.
- SHA-256 is any function of the bytes; injectivity is a hypothesis of the one theorem that needs it. The `applied_at` clock column is left out.
- Connection setup, pools, timeouts, environment variables, logging and the texts of error messages.
- Names are sequences of characters compared by code point, which for UTF-8 text is the byte order the program uses; names that are not valid UTF-8 are not modelled.
- FileNames.Sort: models the result of the library's sort, not its algorithm or its work in place.
- Protocol.Run: a failure of any call is a crash of the process, so which error is logged is only modelled in the sequential meaning.
- RestoreProgram.SeedDatabase.RestoreSeed: other sessions writing at the same time are not modelled, and how many ids a statement that breaks has drawn is only bounded; columns the restore does not read are reduced to one payload each, and the tables are values that one field holds, replaced at the commit.
- Polling.PollStatus: covers finite traces and reports that polling still goes on at their end; one method stands for the three services, whose error prefixes are left out, as are HTTP and the effect of request options.
- Out of scope: `migrations/apply_patch.go` (one statement without a record of it), `cmd/app`, `cmd/server` and `web/web.go` (wiring and HTTP), `cmd/verify-agent` (a manual check that prints), and the rest of the client copy (generated types and thin request wrappers).
