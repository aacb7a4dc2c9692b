/**
 What one uninterrupted migrator run does to the database: the sequential meaning that the
 imperative program (MigratorProgram) and the concurrent protocol (Protocol) are both proved against.
 */
module Migration {
  import opened Prelude
  import opened FileNames
  import opened Discovery

  /** The state of the application's tables. SQL is an uninterpreted, possibly failing, effect on it. */
  type Schema(==, !new)

  /** What is outside the program: the checksum function, what executing SQL text does, and what a
      commit makes of a schema that is no longer the one the transaction executed on: `merge` gets the
      committed schema, the one executed on, and the one that the execution produced. Nothing is assumed
      about any of them. */
  datatype Server = Server(
    hash: string -> string,
    exec: (Schema, string) -> Option<Schema>,
    merge: (Schema, Schema, Schema) -> Schema)

  /** A row of schema_migrations, keyed by version. */
  datatype Row = Row(filename: string, checksum: string)

  /** A committed migration: the bytes that were checksummed and the bytes that were executed. */
  datatype Effect = Effect(version: string, filename: string, summed: string, sql: string)

  /** The committed database, with the commits that led to it in order. */
  datatype Store = Store(table: bool, history: map<string, Row>, schema: Schema, log: seq<Effect>)

  datatype Disk = Disk(entries: seq<DirEntry>, contents: map<string, string>)

  datatype Fatal =
    | LockBusy
    | LockFailed
    | TableFailed
    | DirectoryFailed
    | DiscoveryFailed(error: DiscoverError)
    | BadName(filename: string)
    | ReadFailed(filename: string)
    | QueryFailed(filename: string)
    | ChecksumMismatch(filename: string, expected: string, actual: string)
    | ExecFailed(filename: string)
    | InsertFailed(filename: string)
    | TransactionFailed(filename: string)

  datatype CallResult = Skipped | Applied | Stopped(why: Fatal)

  // ---------------------------------------------------------------------------------------------
  // One call of applyMigration
  // ---------------------------------------------------------------------------------------------

  function Commit(server: Server, store: Store, effect: Effect, schema: Schema): Store {
    store.(history := store.history[effect.version := Row(effect.filename, server.hash(effect.summed))],
           schema := schema,
           log := store.log + [effect])
  }

  /** What goes wrong between the program and the database during one call, if anything. A commit
      whose answer is lost has been made, although the program reports it as failed. */
  datatype Fault = Healthy | QueryBroken | BeginRefused | ExecBroken | InsertBroken | CommitRefused | CommitUnanswered

  /** One call. `first` and `second` are what its two reads of the file return. */
  function ApplyBytes(server: Server, store: Store, filename: string, first: Option<string>, second: Option<string>, fault: Fault)
    : (Store, CallResult)
  {
    if !HasVersion(filename) then (store, Stopped(BadName(filename)))
    else if first.None? then (store, Stopped(ReadFailed(filename)))
    else if fault == QueryBroken || !store.table then (store, Stopped(QueryFailed(filename)))
    else
      var version, checksum := Version(filename), server.hash(first.value);
      if version in store.history then
        var existing := store.history[version].checksum;
        (store, if existing == checksum then Skipped else Stopped(ChecksumMismatch(filename, existing, checksum)))
      else if second.None? then (store, Stopped(ReadFailed(filename)))
      else if fault == BeginRefused then (store, Stopped(TransactionFailed(filename)))
      else
        var executed := server.exec(store.schema, second.value);
        if fault == ExecBroken || executed.None? then (store, Stopped(ExecFailed(filename)))
        else if fault == InsertBroken then (store, Stopped(InsertFailed(filename)))
        else if fault == CommitRefused then (store, Stopped(TransactionFailed(filename)))
        else
          var after := Commit(server, store, Effect(version, filename, first.value, second.value), executed.value);
          (after, if fault == CommitUnanswered then Stopped(TransactionFailed(filename)) else Applied)
  }

  /** Reading a file: its bytes, or a failure. */
  function ReadFile(disk: Disk, filename: string): Option<string> {
    if filename in disk.contents then Some(disk.contents[filename]) else None
  }

  /** One call with nothing failing and the file staying as it is. */
  function ApplyFile(server: Server, store: Store, disk: Disk, filename: string): (Store, CallResult) {
    ApplyBytes(server, store, filename, ReadFile(disk, filename), ReadFile(disk, filename), Healthy)
  }

  // ---------------------------------------------------------------------------------------------
  // A whole run
  // ---------------------------------------------------------------------------------------------

  datatype Progress = Progress(store: Store, fatal: Option<Fatal>)

  /** The loop of main over `files`: it goes on until the list ends or a call stops the program. */
  function RunFiles(server: Server, store: Store, disk: Disk, files: seq<string>): Progress {
    if files == [] then Progress(store, None)
    else
      var before := RunFiles(server, store, disk, files[..|files| - 1]);
      if before.fatal.Some? then before
      else
        var (after, result) := ApplyFile(server, before.store, disk, files[|files| - 1]);
        Progress(after, if result.Stopped? then Some(result.why) else None)
  }

  function WithTable(store: Store): Store { store.(table := true) }

  /** A run from taking the lock to the end: create the history table, discover, apply. */
  function Migrate(server: Server, store: Store, disk: Disk): Progress {
    match Discover(disk.entries)
    case Failure(error) => Progress(WithTable(store), Some(DiscoveryFailed(error)))
    case Success(files) => RunFiles(server, WithTable(store), disk, files)
  }

  // ---------------------------------------------------------------------------------------------
  // Runs, prefix by prefix
  // ---------------------------------------------------------------------------------------------

  /** `filename` is recorded with the checksum of what is on disk: a call on it only skips. */
  predicate UpToDate(server: Server, store: Store, disk: Disk, filename: string) {
    && HasVersion(filename) && filename in disk.contents
    && Version(filename) in store.history
    && store.history[Version(filename)].checksum == server.hash(disk.contents[filename])
  }

  lemma RunOneMore(server: Server, store: Store, disk: Disk, files: seq<string>, n: nat)
    requires n < |files|
    ensures var before := RunFiles(server, store, disk, files[..n]);
            RunFiles(server, store, disk, files[..n + 1]) ==
            if before.fatal.Some? then before
            else
              var (after, result) := ApplyFile(server, before.store, disk, files[n]);
              Progress(after, if result.Stopped? then Some(result.why) else None)
  {
    assert files[..n + 1][..n] == files[..n];
  }

  /** What a run keeps: rows and effects already there, and the table. */
  ghost predicate Extends(later: Store, earlier: Store) {
    && later.table == earlier.table
    && earlier.log <= later.log
    && forall v :: v in earlier.history ==> v in later.history && later.history[v] == earlier.history[v]
  }

  lemma {:induction false} RunExtends(server: Server, store: Store, disk: Disk, files: seq<string>)
    ensures Extends(RunFiles(server, store, disk, files).store, store)
  {
    if files == [] {
    } else {
      RunExtends(server, store, disk, files[..|files| - 1]);
    }
  }

  /** Everything a run has passed without stopping is up to date in the store it has reached. */
  lemma {:induction false} PassedIsUpToDate(server: Server, store: Store, disk: Disk, files: seq<string>)
    requires RunFiles(server, store, disk, files).fatal.None?
    ensures forall i :: 0 <= i < |files| ==> UpToDate(server, RunFiles(server, store, disk, files).store, disk, files[i])
  {
    if files == [] {
    } else {
      var front := files[..|files| - 1];
      PassedIsUpToDate(server, store, disk, front);
      assert forall i :: 0 <= i < |front| ==> files[i] == front[i];
    }
  }

  /** A run over files that are all up to date changes nothing and does not stop. */
  lemma {:induction false} UpToDateIsSkipped(server: Server, store: Store, disk: Disk, files: seq<string>)
    requires store.table
    requires forall i :: 0 <= i < |files| ==> UpToDate(server, store, disk, files[i])
    ensures RunFiles(server, store, disk, files) == Progress(store, None)
  {
    if files == [] {
    } else {
      UpToDateIsSkipped(server, store, disk, files[..|files| - 1]);
    }
  }

  /** Continuing from any point a run has reached gives what the run would have given: store and
      outcome, success or not. */
  lemma {:induction false} ResumeFromPrefix(server: Server, store: Store, disk: Disk, files: seq<string>, j: nat)
    requires store.table && j <= |files|
    requires RunFiles(server, store, disk, files[..j]).fatal.None?
    ensures RunFiles(server, RunFiles(server, store, disk, files[..j]).store, disk, files) == RunFiles(server, store, disk, files)
    decreases |files|
  {
    var reached := RunFiles(server, store, disk, files[..j]).store;
    if j == |files| {
      assert files[..j] == files;
      RunExtends(server, store, disk, files);
      PassedIsUpToDate(server, store, disk, files);
      UpToDateIsSkipped(server, reached, disk, files);
    } else {
      var front := files[..|files| - 1];
      assert front[..j] == files[..j];
      ResumeFromPrefix(server, store, disk, front, j);
    }
  }

  /** A call either commits everything it does or changes nothing, whatever fails. It commits exactly if
      the version is not recorded, both reads and the SQL succeed and nothing breaks before the commit;
      it reports that it has applied the file exactly if it has committed and got the answer, and that
      it has skipped it only if the recorded checksum is that of the file. */
  lemma CallIsAllOrNothing(server: Server, store: Store, filename: string, first: Option<string>, second: Option<string>, fault: Fault)
    ensures var (after, result) := ApplyBytes(server, store, filename, first, second, fault);
            var version := Version(filename);
            && (after != store <==>
                  && HasVersion(filename) && first.Some? && second.Some? && store.table && version !in store.history
                  && server.exec(store.schema, second.value).Some? && fault in {Healthy, CommitUnanswered})
            && (after != store ==>
                  after == Commit(server, store, Effect(version, filename, first.value, second.value), server.exec(store.schema, second.value).value))
            && (result.Applied? <==> after != store && fault == Healthy)
            && (result.Skipped? <==>
                  && HasVersion(filename) && first.Some? && store.table && version in store.history
                  && store.history[version].checksum == server.hash(first.value) && fault != QueryBroken)
  {
    assert forall effect: Effect :: |store.log + [effect]| == |store.log| + 1;
  }

  /** Whether `why` is a true account of what stops a call: each error names the file and says what went
      wrong with it. */
  ghost predicate IsTrueReason(server: Server, store: Store, filename: string, first: Option<string>, second: Option<string>, fault: Fault, why: Fatal) {
    match why
    case BadName(f) => f == filename && '_' !in filename
    case ReadFailed(f) => f == filename && (first.None? || second.None?)
    case QueryFailed(f) => f == filename && (fault == QueryBroken || !store.table)
    case ChecksumMismatch(f, expected, actual) =>
      && f == filename && Version(f) in store.history && first.Some?
      && expected == store.history[Version(f)].checksum && actual == server.hash(first.value) && expected != actual
    case ExecFailed(f) => f == filename && (fault == ExecBroken || (second.Some? && server.exec(store.schema, second.value).None?))
    case InsertFailed(f) => f == filename && fault == InsertBroken
    case TransactionFailed(f) => f == filename && fault in {BeginRefused, CommitRefused, CommitUnanswered}
    case _ => false
  }

  /** A call that stops says why. */
  lemma ReasonsAreTrue(server: Server, store: Store, filename: string, first: Option<string>, second: Option<string>, fault: Fault)
    ensures var result := ApplyBytes(server, store, filename, first, second, fault).1;
            result.Stopped? ==> IsTrueReason(server, store, filename, first, second, fault, result.why)
  {
    NameRoundTrip(filename, [], []);
  }

  /** The run stops at the file with index `k`, having processed the files before it. */
  ghost predicate StopsAt(server: Server, store: Store, disk: Disk, files: seq<string>, k: nat)
    requires k < |files|
  {
    var end := RunFiles(server, store, disk, files);
    && end.fatal.Some?
    && RunFiles(server, store, disk, files[..k]) == Progress(end.store, None)
    && ApplyFile(server, end.store, disk, files[k]) == (end.store, Stopped(end.fatal.value))
  }

  /** A run that stops leaves exactly what the files before the one it stopped at left. */
  lemma {:induction false} StoppedRunIsAPrefix(server: Server, store: Store, disk: Disk, files: seq<string>)
    requires RunFiles(server, store, disk, files).fatal.Some?
    ensures exists k :: 0 <= k < |files| && StopsAt(server, store, disk, files, k)
  {
    var front, last := files[..|files| - 1], files[|files| - 1];
    var before := RunFiles(server, store, disk, front);
    if before.fatal.Some? {
      StoppedRunIsAPrefix(server, store, disk, front);
      var k :| 0 <= k < |front| && StopsAt(server, store, disk, front, k);
      assert files[..k] == front[..k] && files[k] == front[k];
      assert StopsAt(server, store, disk, files, k);
    } else {
      CallIsAllOrNothing(server, before.store, last, ReadFile(disk, last), ReadFile(disk, last), Healthy);
      assert StopsAt(server, store, disk, files, |files| - 1);
    }
  }

  /** Running again after any run, whether it finished or stopped, changes nothing and ends the same
      way. */
  lemma RerunIsIdempotent(server: Server, store: Store, disk: Disk)
    ensures var once := Migrate(server, store, disk);
            Migrate(server, once.store, disk) == once
  {
    if Discover(disk.entries).Success? {
      var files := Discover(disk.entries).value;
      var start := WithTable(store);
      var once := RunFiles(server, start, disk, files);
      RunExtends(server, start, disk, files);
      assert WithTable(once.store) == once.store;
      if once.fatal.Some? {
        StoppedRunIsAPrefix(server, start, disk, files);
        var k :| 0 <= k < |files| && StopsAt(server, start, disk, files, k);
        ResumeFromPrefix(server, start, disk, files, k);
      } else {
        assert files[..|files|] == files;
        ResumeFromPrefix(server, start, disk, files, |files|);
      }
    }
  }

  // ---------------------------------------------------------------------------------------------
  // The closed form of a run
  // ---------------------------------------------------------------------------------------------

  /** The files whose versions are not in `history`, in order. */
  function Pending(files: seq<string>, history: map<string, Row>): seq<string> {
    if files == [] then []
    else
      var last := files[|files| - 1];
      Pending(files[..|files| - 1], history) + (if Version(last) in history then [] else [last])
  }

  lemma {:induction false} PendingMembers(files: seq<string>, history: map<string, Row>, f: string)
    ensures f in Pending(files, history) <==> f in files && Version(f) !in history
  {
    if files == [] {
    } else {
      PendingMembers(files[..|files| - 1], history, f);
      assert files == files[..|files| - 1] + [files[|files| - 1]];
    }
  }

  function EffectOf(disk: Disk, filename: string): Effect
    requires filename in disk.contents
  {
    Effect(Version(filename), filename, disk.contents[filename], disk.contents[filename])
  }

  ghost predicate Readable(disk: Disk, files: seq<string>) {
    forall f :: f in files ==> f in disk.contents
  }

  function EffectsOf(disk: Disk, files: seq<string>): (effects: seq<Effect>)
    requires Readable(disk, files)
    ensures |effects| == |files|
    ensures forall i :: 0 <= i < |files| ==> effects[i] == EffectOf(disk, files[i])
  {
    seq(|files|, i requires 0 <= i < |files| => EffectOf(disk, files[i]))
  }

  /** The schema after executing the SQL of `log` in order; nothing if any of it fails. */
  function ExecAll(server: Server, schema: Schema, log: seq<Effect>): Option<Schema> {
    if log == [] then Some(schema)
    else
      match ExecAll(server, schema, log[..|log| - 1])
      case None => None
      case Some(before) => server.exec(before, log[|log| - 1].sql)
  }

  /** The history after recording the effects of `log` in order. */
  function RecordAll(server: Server, history: map<string, Row>, log: seq<Effect>): map<string, Row> {
    if log == [] then history
    else
      var last := log[|log| - 1];
      RecordAll(server, history, log[..|log| - 1])[last.version := Row(last.filename, server.hash(last.summed))]
  }

  /** Between `store` and `after`, exactly the pending files among `files` took effect, once each and
      in order: their effects were appended to the log, the schema is the result of executing them in
      that order, and the history gained their rows and nothing else. */
  ghost predicate DidExactly(server: Server, after: Store, store: Store, disk: Disk, files: seq<string>) {
    var pending := Pending(files, store.history);
    && Readable(disk, pending)
    && ExecAll(server, store.schema, EffectsOf(disk, pending)) == Some(after.schema)
    && after.table == store.table
    && after.log == store.log + EffectsOf(disk, pending)
    && after.history == RecordAll(server, store.history, EffectsOf(disk, pending))
  }

  /** A recorded version was in the history before or is one of the log's; a version the log does not
      mention keeps its row. */
  lemma {:induction false} RecordedVersions(server: Server, history: map<string, Row>, log: seq<Effect>)
    ensures forall v :: v in RecordAll(server, history, log) <==> v in history || exists e :: e in log && e.version == v
    ensures forall v :: v in history && (forall e :: e in log ==> e.version != v) ==> RecordAll(server, history, log)[v] == history[v]
  {
    if log == [] {
    } else {
      RecordedVersions(server, history, log[..|log| - 1]);
      assert log == log[..|log| - 1] + [log[|log| - 1]];
    }
  }

  lemma {:induction false} RunDoesExactlyThePending(server: Server, store: Store, disk: Disk, files: seq<string>)
    requires DistinctVersions(files)
    requires RunFiles(server, store, disk, files).fatal.None?
    ensures DidExactly(server, RunFiles(server, store, disk, files).store, store, disk, files)
  {
    if files == [] {
      assert Pending(files, store.history) == [];
      assert EffectsOf(disk, []) == [];
    } else {
      var front, last := files[..|files| - 1], files[|files| - 1];
      RunDoesExactlyThePending(server, store, disk, front);
      NewVersion(files);
      OneMoreDone(server, RunFiles(server, store, disk, front).store, store, disk, front, last);
      assert files == front + [last];
    }
  }

  lemma NewVersion(files: seq<string>)
    requires DistinctVersions(files) && files != []
    ensures DistinctVersions(files[..|files| - 1])
    ensures forall f :: f in files[..|files| - 1] ==> Version(f) != Version(files[|files| - 1])
  {
  }

  /** A version that none of the files before it has is recorded now exactly if it was at the start. */
  lemma OnlyPendingIsRecorded(server: Server, before: Store, store: Store, disk: Disk, front: seq<string>, version: string)
    requires DidExactly(server, before, store, disk, front)
    requires forall f :: f in front ==> Version(f) != version
    ensures version in before.history <==> version in store.history
  {
    var done := EffectsOf(disk, Pending(front, store.history));
    RecordedVersions(server, store.history, done);
    forall e | e in done ensures e.version != version {
      var i :| 0 <= i < |done| && done[i] == e;
      PendingMembers(front, store.history, Pending(front, store.history)[i]);
    }
  }

  lemma PendingOneMore(front: seq<string>, last: string, history: map<string, Row>)
    ensures Pending(front + [last], history) == Pending(front, history) + (if Version(last) in history then [] else [last])
  {
  }

  lemma EffectsOneMore(server: Server, store: Store, disk: Disk, done: seq<string>, last: string)
    requires Readable(disk, done) && last in disk.contents
    ensures Readable(disk, done + [last])
    ensures EffectsOf(disk, done + [last]) == EffectsOf(disk, done) + [EffectOf(disk, last)]
    ensures RecordAll(server, store.history, EffectsOf(disk, done + [last]))
            == RecordAll(server, store.history, EffectsOf(disk, done))[Version(last) := Row(last, server.hash(disk.contents[last]))]
    ensures ExecAll(server, store.schema, EffectsOf(disk, done + [last])) ==
              match ExecAll(server, store.schema, EffectsOf(disk, done))
              case None => None
              case Some(schema) => server.exec(schema, disk.contents[last])
  {
    var more := EffectsOf(disk, done + [last]);
    assert more == EffectsOf(disk, done) + [EffectOf(disk, last)];
    assert more[..|more| - 1] == EffectsOf(disk, done);
  }

  lemma OneMoreCommitted(server: Server, before: Store, after: Store, store: Store, disk: Disk, front: seq<string>, last: string)
    requires DidExactly(server, before, store, disk, front)
    requires last in disk.contents && Version(last) !in store.history
    requires server.exec(before.schema, disk.contents[last]) == Some(after.schema)
    requires after == Commit(server, before, EffectOf(disk, last), after.schema)
    ensures DidExactly(server, after, store, disk, front + [last])
  {
    var done := Pending(front, store.history);
    PendingOneMore(front, last, store.history);
    EffectsOneMore(server, store, disk, done, last);
    assert after.log == store.log + EffectsOf(disk, done + [last]);
  }

  lemma OneMoreDone(server: Server, before: Store, store: Store, disk: Disk, front: seq<string>, last: string)
    requires DidExactly(server, before, store, disk, front)
    requires !ApplyFile(server, before, disk, last).1.Stopped?
    requires forall f :: f in front ==> Version(f) != Version(last)
    ensures DidExactly(server, ApplyFile(server, before, disk, last).0, store, disk, front + [last])
  {
    OnlyPendingIsRecorded(server, before, store, disk, front, Version(last));
    var after := ApplyFile(server, before, disk, last).0;
    if Version(last) in store.history {
      PendingOneMore(front, last, store.history);
      assert Pending(front + [last], store.history) == Pending(front, store.history);
      assert after == before;
    } else {
      OneMoreCommitted(server, before, after, store, disk, front, last);
    }
  }

  // ---------------------------------------------------------------------------------------------
  // Interrupted runs
  // ---------------------------------------------------------------------------------------------

  function FaultAt(faults: seq<Fault>, n: nat): Fault {
    if n < |faults| then faults[n] else Healthy
  }

  /** The loop of main when call n meets the fault at n. */
  function RunWithFaults(server: Server, store: Store, disk: Disk, files: seq<string>, faults: seq<Fault>): Progress {
    if files == [] then Progress(store, None)
    else
      var n := |files| - 1;
      var before := RunWithFaults(server, store, disk, files[..n], faults);
      if before.fatal.Some? then before
      else
        var bytes := ReadFile(disk, files[n]);
        var (after, result) := ApplyBytes(server, before.store, files[n], bytes, bytes, FaultAt(faults, n));
        Progress(after, if result.Stopped? then Some(result.why) else None)
  }

  /** What goes wrong before the first file, if anything: the query for the lock, the statement that
      creates the history table, which may have created it although its answer is lost, or reading the
      directory. */
  datatype SetupFault = NoSetupFault | LockBroken | TableRefused | TableUnanswered | DirectoryUnreadable

  function MigrateWithFaults(server: Server, store: Store, disk: Disk, setup: SetupFault, faults: seq<Fault>): Progress {
    match setup
    case LockBroken => Progress(store, Some(LockFailed))
    case TableRefused => Progress(store, Some(TableFailed))
    case TableUnanswered => Progress(WithTable(store), Some(TableFailed))
    case DirectoryUnreadable => Progress(WithTable(store), Some(DirectoryFailed))
    case NoSetupFault =>
      match Discover(disk.entries)
      case Failure(error) => Progress(WithTable(store), Some(DiscoveryFailed(error)))
      case Success(files) => RunWithFaults(server, WithTable(store), disk, files, faults)
  }

  /** The error with which the program ends when a fault hits its call on a file. */
  function ErrorOf(fault: Fault, filename: string): Fatal
    requires fault != Healthy
  {
    match fault
    case QueryBroken => QueryFailed(filename)
    case ExecBroken => ExecFailed(filename)
    case InsertBroken => InsertFailed(filename)
    case _ => TransactionFailed(filename)
  }

  /** Every fault hits: what a call does under a fault, by what it would do without. A call that would
      apply its file stops with the error of the fault, and has committed only if just the answer was
      lost; one that would get as far as its lookup, or its transaction, stops there if that breaks; and
      faults that a call does not get to make no difference. */
  lemma FaultsHit(server: Server, store: Store, filename: string, bytes: Option<string>, fault: Fault)
    requires fault != Healthy
    ensures var (after, result) := ApplyBytes(server, store, filename, bytes, bytes, fault);
            var (there, healthy) := ApplyBytes(server, store, filename, bytes, bytes, Healthy);
            && after == (if fault == CommitUnanswered then there else store)
            && (healthy.Applied? ==> result == Stopped(ErrorOf(fault, filename)))
            && (healthy.Skipped? || (healthy.Stopped? && healthy.why.ChecksumMismatch?) ==>
                  result == if fault == QueryBroken then Stopped(QueryFailed(filename)) else healthy)
            && (healthy.Stopped? && healthy.why.ExecFailed? ==>
                  result == if fault in {QueryBroken, BeginRefused} then Stopped(ErrorOf(fault, filename)) else healthy)
            && (healthy.Stopped? && !healthy.why.ChecksumMismatch? && !healthy.why.ExecFailed? ==> result == healthy)
  {
  }

  lemma FaultyCall(server: Server, store: Store, filename: string, bytes: Option<string>, fault: Fault)
    ensures var (after, result) := ApplyBytes(server, store, filename, bytes, bytes, fault);
            var healthy := ApplyBytes(server, store, filename, bytes, bytes, Healthy);
            && (!result.Stopped? ==> (after, result) == healthy)
            && (result.Stopped? ==> after == store || (healthy == (after, Applied)))
  {
  }

  /** The store after a possibly faulty call is the one before it or the one after a healthy call. */
  lemma FaultyCallIsAPrefix(server: Server, store: Store, before: Store, disk: Disk, files: seq<string>, n: nat, fault: Fault)
    requires n < |files| && RunFiles(server, store, disk, files[..n]) == Progress(before, None)
    ensures var (after, result) := ApplyBytes(server, before, files[n], ReadFile(disk, files[n]), ReadFile(disk, files[n]), fault);
            && (RunFiles(server, store, disk, files[..n]) == Progress(after, None) || RunFiles(server, store, disk, files[..n + 1]) == Progress(after, None))
            && (!result.Stopped? ==> RunFiles(server, store, disk, files[..n + 1]) == Progress(after, None))
  {
    FaultyCall(server, before, files[n], ReadFile(disk, files[n]), fault);
    RunOneMore(server, store, disk, files, n);
  }

  /** An uninterrupted run over `files` reaches `reached` without stopping on the way. */
  ghost predicate PassesThrough(server: Server, store: Store, disk: Disk, files: seq<string>, reached: Store) {
    exists k :: 0 <= k <= |files| && RunFiles(server, store, disk, files[..k]) == Progress(reached, None)
  }

  lemma LongerRunPassesThrough(server: Server, store: Store, disk: Disk, files: seq<string>, n: nat, reached: Store)
    requires n <= |files| && PassesThrough(server, store, disk, files[..n], reached)
    ensures PassesThrough(server, store, disk, files, reached)
  {
    var k :| 0 <= k <= n && RunFiles(server, store, disk, files[..n][..k]) == Progress(reached, None);
    assert files[..k] == files[..n][..k];
  }

  /** However a run is cut off, the store it leaves is one that an uninterrupted run passes through. */
  lemma {:induction false} InterruptedRunIsAPrefix(server: Server, store: Store, disk: Disk, files: seq<string>, faults: seq<Fault>)
    ensures PassesThrough(server, store, disk, files, RunWithFaults(server, store, disk, files, faults).store)
    ensures RunWithFaults(server, store, disk, files, faults).fatal.None? ==>
              RunFiles(server, store, disk, files) == RunWithFaults(server, store, disk, files, faults)
  {
    if files == [] {
      assert RunFiles(server, store, disk, files[..0]) == Progress(store, None);
    } else {
      var n := |files| - 1;
      InterruptedRunIsAPrefix(server, store, disk, files[..n], faults);
      var before := RunWithFaults(server, store, disk, files[..n], faults);
      if before.fatal.Some? {
        LongerRunPassesThrough(server, store, disk, files, n, before.store);
      } else {
        FaultyCallIsAPrefix(server, store, before.store, disk, files, n, FaultAt(faults, n));
        assert files[..n + 1] == files;
      }
    }
  }

  lemma {:induction false} HealthySoFar(server: Server, store: Store, disk: Disk, files: seq<string>, faults: seq<Fault>)
    requires forall k :: 0 <= k < |faults| && k < |files| ==> faults[k] == Healthy
    ensures RunWithFaults(server, store, disk, files, faults) == RunFiles(server, store, disk, files)
  {
    if files == [] {
    } else {
      HealthySoFar(server, store, disk, files[..|files| - 1], faults);
    }
  }

  lemma {:induction false} FaultyRunSticks(server: Server, store: Store, disk: Disk, files: seq<string>, faults: seq<Fault>, k: nat)
    requires k <= |files| && RunWithFaults(server, store, disk, files[..k], faults).fatal.Some?
    ensures RunWithFaults(server, store, disk, files, faults) == RunWithFaults(server, store, disk, files[..k], faults)
    decreases |files|
  {
    if k == |files| {
      assert files[..k] == files;
    } else {
      var front := files[..|files| - 1];
      assert front[..k] == files[..k];
      FaultyRunSticks(server, store, disk, front, faults, k);
    }
  }

  /** The first fault of a run, if it hits a file that would be applied, ends the run with its error; the
      store is that before the file, or that after it if only the answer to the commit was lost. */
  lemma FirstFaultEndsTheRun(server: Server, store: Store, disk: Disk, files: seq<string>, faults: seq<Fault>, n: nat, before: Store)
    requires n < |files| && n < |faults| && faults[n] != Healthy && forall k :: 0 <= k < n ==> faults[k] == Healthy
    requires RunFiles(server, store, disk, files[..n]) == Progress(before, None)
    requires ApplyFile(server, before, disk, files[n]).1.Applied?
    ensures RunWithFaults(server, store, disk, files, faults)
            == Progress(if faults[n] == CommitUnanswered then ApplyFile(server, before, disk, files[n]).0 else before,
                        Some(ErrorOf(faults[n], files[n])))
  {
    HealthySoFar(server, store, disk, files[..n], faults);
    FaultsHit(server, before, files[n], ReadFile(disk, files[n]), faults[n]);
    assert files[..n + 1][..n] == files[..n];
    FaultyRunSticks(server, store, disk, files, faults, n + 1);
  }

  /** A program that reports success has met no fault before its files, and is one that nothing has
      disturbed; a fault of the setup ends it with its own error before any file is looked at. */
  lemma SuccessIsUndisturbed(server: Server, store: Store, disk: Disk, setup: SetupFault, faults: seq<Fault>)
    ensures var end := MigrateWithFaults(server, store, disk, setup, faults);
            && (end.fatal.None? ==> setup == NoSetupFault && end == Migrate(server, store, disk))
            && (setup == LockBroken ==> end == Progress(store, Some(LockFailed)))
            && (setup == TableRefused ==> end == Progress(store, Some(TableFailed)))
            && (setup == TableUnanswered ==> end == Progress(store.(table := true), Some(TableFailed)))
            && (setup == DirectoryUnreadable ==> end == Progress(store.(table := true), Some(DirectoryFailed)))
            && (setup == NoSetupFault && Discover(disk.entries).Failure? ==>
                  end == Progress(store.(table := true), Some(DiscoveryFailed(Discover(disk.entries).error))))
  {
    if setup == NoSetupFault && Discover(disk.entries).Success? {
      InterruptedRunIsAPrefix(server, WithTable(store), disk, Discover(disk.entries).value, faults);
    }
  }

  /** Crash and restart: after a run cut off by any faults, an uninterrupted run ends where it would
      have ended without the first one. */
  lemma RestartConverges(server: Server, store: Store, disk: Disk, setup: SetupFault, faults: seq<Fault>)
    ensures Migrate(server, MigrateWithFaults(server, store, disk, setup, faults).store, disk) == Migrate(server, store, disk)
  {
    if setup.NoSetupFault? && Discover(disk.entries).Success? {
      RestartFilesConverges(server, store, disk, Discover(disk.entries).value, faults);
    } else {
      assert WithTable(WithTable(store)) == WithTable(store);
    }
  }

  lemma RestartFilesConverges(server: Server, store: Store, disk: Disk, files: seq<string>, faults: seq<Fault>)
    ensures var end := RunWithFaults(server, WithTable(store), disk, files, faults);
            RunFiles(server, WithTable(end.store), disk, files) == RunFiles(server, WithTable(store), disk, files)
  {
    var start := WithTable(store);
    InterruptedRunIsAPrefix(server, start, disk, files, faults);
    var end := RunWithFaults(server, start, disk, files, faults);
    var k :| 0 <= k <= |files| && RunFiles(server, start, disk, files[..k]) == Progress(end.store, None);
    RunExtends(server, start, disk, files[..k]);
    assert WithTable(end.store) == end.store;
    ResumeFromPrefix(server, start, disk, files, k);
  }
}
