/**
 Properties of whole migrator runs: exactly when a run finishes and where it stops otherwise, what drift
 does, what upgrading a directory does, what renaming files does, and what a finished run says about the
 bytes on disk.
 */
module RunTheorems {
  import opened Prelude
  import opened FileNames
  import opened Discovery
  import opened Migration

  // ---------------------------------------------------------------------------------------------
  // When a run finishes, and where it stops
  // ---------------------------------------------------------------------------------------------

  /** `filename` was applied from bytes with another checksum than those on disk. */
  predicate Drifted(server: Server, store: Store, disk: Disk, filename: string) {
    && filename in disk.contents
    && Version(filename) in store.history
    && store.history[Version(filename)].checksum != server.hash(disk.contents[filename])
  }

  /** What the run needs of its files: all can be read, none has drifted, and the SQL of those that are
      not recorded yet can be executed one after the other. */
  ghost predicate Applicable(server: Server, store: Store, disk: Disk, files: seq<string>) {
    && Readable(disk, files)
    && (forall f :: f in files ==> !Drifted(server, store, disk, f))
    && PendingExecutes(server, store, disk, files)
  }

  /** The pending files can be read, and their SQL can be executed one after the other. */
  ghost predicate PendingExecutes(server: Server, store: Store, disk: Disk, files: seq<string>) {
    var pending := Pending(files, store.history);
    Readable(disk, pending) && ExecAll(server, store.schema, EffectsOf(disk, pending)).Some?
  }

  /** What stops the run at a file when the files before it are applicable and this one is not. */
  function Obstacle(server: Server, store: Store, disk: Disk, filename: string): Fatal {
    if filename !in disk.contents then ReadFailed(filename)
    else if Version(filename) in store.history then
      ChecksumMismatch(filename, store.history[Version(filename)].checksum, server.hash(disk.contents[filename]))
    else ExecFailed(filename)
  }

  lemma {:induction false} FatalSticks(server: Server, store: Store, disk: Disk, files: seq<string>, k: nat)
    requires k <= |files| && RunFiles(server, store, disk, files[..k]).fatal.Some?
    ensures RunFiles(server, store, disk, files) == RunFiles(server, store, disk, files[..k])
    decreases |files|
  {
    if k < |files| {
      var front := files[..|files| - 1];
      assert front[..k] == files[..k];
      FatalSticks(server, store, disk, front, k);
    } else {
      assert files[..k] == files;
    }
  }

  /** At the head of iteration n, the row that file n meets is the one it met at the start. */
  lemma RowIsTheOldOne(server: Server, store: Store, disk: Disk, files: seq<string>, n: nat)
    requires DistinctVersions(files) && n < |files|
    requires RunFiles(server, store, disk, files[..n]).fatal.None?
    ensures var now := RunFiles(server, store, disk, files[..n]).store;
            && (Version(files[n]) in now.history <==> Version(files[n]) in store.history)
            && (Version(files[n]) in store.history ==> now.history[Version(files[n])] == store.history[Version(files[n])])
            && now.table == store.table
  {
    var now := RunFiles(server, store, disk, files[..n]).store;
    RunDoesExactlyThePending(server, store, disk, files[..n]);
    forall f | f in files[..n] ensures Version(f) != Version(files[n]) {
      var i :| 0 <= i < n && files[i] == f;
    }
    OnlyPendingIsRecorded(server, now, store, disk, files[..n], Version(files[n]));
    RunExtends(server, store, disk, files[..n]);
  }

  lemma OneMoreApplicable(server: Server, store: Store, disk: Disk, front: seq<string>, last: string, reached: Schema)
    requires Applicable(server, store, disk, front)
    requires ExecAll(server, store.schema, EffectsOf(disk, Pending(front, store.history))) == Some(reached)
    ensures Applicable(server, store, disk, front + [last])
            <==> last in disk.contents && !Drifted(server, store, disk, last)
                 && (Version(last) in store.history || server.exec(reached, disk.contents[last]).Some?)
  {
    var files := front + [last];
    ReadableOneMore(server, store, disk, front, last);
    PendingOneMore(front, last, store.history);
    if last in disk.contents {
      EffectsOneMore(server, store, disk, Pending(front, store.history), last);
      if Version(last) in store.history {
        assert Pending(files, store.history) == Pending(front, store.history);
      }
    }
  }

  lemma ReadableOneMore(server: Server, store: Store, disk: Disk, front: seq<string>, last: string)
    ensures Readable(disk, front + [last]) <==> Readable(disk, front) && last in disk.contents
    ensures (forall f :: f in front + [last] ==> !Drifted(server, store, disk, f))
            <==> (forall f :: f in front ==> !Drifted(server, store, disk, f)) && !Drifted(server, store, disk, last)
  {
    forall f ensures f in front + [last] <==> f in front || f == last {}
  }

  /** What stops a call on a readable or unreadable file, by the row and the schema it meets. */
  lemma WhatStopsACall(server: Server, now: Store, disk: Disk, f: string)
    requires HasVersion(f) && now.table
    ensures ApplyFile(server, now, disk, f).1.Stopped?
            <==> f !in disk.contents || Drifted(server, now, disk, f)
                 || (Version(f) !in now.history && server.exec(now.schema, disk.contents[f]).None?)
    ensures ApplyFile(server, now, disk, f).1.Stopped? ==> ApplyFile(server, now, disk, f).1.why == Obstacle(server, now, disk, f)
  {
  }

  /** Whether the next file is applicable is what one call on it finds out. */
  lemma NextCall(server: Server, store: Store, now: Store, disk: Disk, front: seq<string>, last: string)
    requires HasVersion(last) && now.table && Applicable(server, store, disk, front)
    requires ExecAll(server, store.schema, EffectsOf(disk, Pending(front, store.history))) == Some(now.schema)
    requires Version(last) in now.history <==> Version(last) in store.history
    requires Version(last) in store.history ==> now.history[Version(last)] == store.history[Version(last)]
    ensures ApplyFile(server, now, disk, last).1.Stopped? <==> !Applicable(server, store, disk, front + [last])
    ensures ApplyFile(server, now, disk, last).1.Stopped? ==> ApplyFile(server, now, disk, last).1.why == Obstacle(server, store, disk, last)
  {
    OneMoreApplicable(server, store, disk, front, last, now.schema);
    WhatStopsACall(server, now, disk, last);
    assert Drifted(server, now, disk, last) <==> Drifted(server, store, disk, last);
    assert Obstacle(server, now, disk, last) == Obstacle(server, store, disk, last);
  }

  lemma NextFile(server: Server, store: Store, disk: Disk, files: seq<string>, n: nat)
    requires DistinctVersions(files) && store.table && n < |files|
    requires RunFiles(server, store, disk, files[..n]).fatal.None? && Applicable(server, store, disk, files[..n])
    ensures RunFiles(server, store, disk, files[..n + 1]).fatal
            == if Applicable(server, store, disk, files[..n + 1]) then None else Some(Obstacle(server, store, disk, files[n]))
  {
    var now := RunFiles(server, store, disk, files[..n]).store;
    RowIsTheOldOne(server, store, disk, files, n);
    RunDoesExactlyThePending(server, store, disk, files[..n]);
    NextCall(server, store, now, disk, files[..n], files[n]);
    assert files[..n] + [files[n]] == files[..n + 1];
    RunOneMore(server, store, disk, files, n);
  }

  /** The same for a shorter list. */
  lemma FrontIsApplicable(server: Server, store: Store, disk: Disk, files: seq<string>)
    requires files != [] && Applicable(server, store, disk, files)
    ensures Applicable(server, store, disk, files[..|files| - 1])
  {
    var front, last := files[..|files| - 1], files[|files| - 1];
    assert files == front + [last];
    PendingOneMore(front, last, store.history);
    var done := Pending(front, store.history);
    forall f | f in done ensures f in disk.contents {
      PendingMembers(front, store.history, f);
    }
    if Version(last) in store.history {
      assert Pending(files, store.history) == done;
    } else {
      EffectsOneMore(server, store, disk, done, last);
    }
  }

  lemma NothingIsApplicable(server: Server, store: Store, disk: Disk)
    ensures Applicable(server, store, disk, [])
  {
    assert EffectsOf(disk, []) == [];
  }

  /** Exactly when a run finishes: its files can all be read, none has drifted, and the SQL that is not
      recorded yet executes. SQL that is recorded is not asked to run again. */
  lemma {:induction false} RunFinishesIffApplicable(server: Server, store: Store, disk: Disk, files: seq<string>)
    requires DistinctVersions(files) && store.table
    ensures RunFiles(server, store, disk, files).fatal.None? <==> Applicable(server, store, disk, files)
  {
    if files == [] {
      NothingIsApplicable(server, store, disk);
    } else {
      var n := |files| - 1;
      assert files[..n + 1] == files;
      NewVersion(files);
      RunFinishesIffApplicable(server, store, disk, files[..n]);
      if Applicable(server, store, disk, files[..n]) {
        NextFile(server, store, disk, files, n);
      } else if Applicable(server, store, disk, files) {
        FrontIsApplicable(server, store, disk, files);
      }
    }
  }

  /** Exactly when the program succeeds: every migration has a version, no two share one, and the sorted
      list of them is applicable. */
  lemma MigrateSucceedsIff(server: Server, store: Store, disk: Disk)
    ensures Migrate(server, store, disk).fatal.None?
            <==> DistinctVersions(Candidates(disk.entries)) && Applicable(server, WithTable(store), disk, Sort(Candidates(disk.entries)))
  {
    DiscoverIsExact(disk.entries);
    if Discover(disk.entries).Success? {
      RunFinishesIffApplicable(server, WithTable(store), disk, Discover(disk.entries).value);
    }
  }

  /** How a run that does not finish ends: at the first file that is not applicable after those before
      it, with the error of that file. The pending files before it have taken effect, and nothing at or
      after it has. */
  lemma FirstObstacleStopsTheRun(server: Server, store: Store, disk: Disk, files: seq<string>, n: nat)
    requires DistinctVersions(files) && store.table && n < |files|
    requires Applicable(server, store, disk, files[..n]) && !Applicable(server, store, disk, files[..n + 1])
    ensures var end := RunFiles(server, store, disk, files);
            end.fatal == Some(Obstacle(server, store, disk, files[n])) && DidExactly(server, end.store, store, disk, files[..n])
  {
    RunFinishesIffApplicable(server, store, disk, files[..n]);
    NextFile(server, store, disk, files, n);
    FatalSticks(server, store, disk, files, n + 1);
    RunOneMore(server, store, disk, files, n);
    var before := RunFiles(server, store, disk, files[..n]);
    CallIsAllOrNothing(server, before.store, files[n], ReadFile(disk, files[n]), ReadFile(disk, files[n]), Healthy);
    RunDoesExactlyThePending(server, store, disk, files[..n]);
  }

  /** Every run that does not finish has such a file. */
  lemma {:induction false} FirstObstacle(server: Server, store: Store, disk: Disk, files: seq<string>) returns (n: nat)
    requires !Applicable(server, store, disk, files)
    ensures n < |files| && Applicable(server, store, disk, files[..n]) && !Applicable(server, store, disk, files[..n + 1])
  {
    if files == [] {
      NothingIsApplicable(server, store, disk);
      assert false;
    } else {
      var front := files[..|files| - 1];
      if Applicable(server, store, disk, front) {
        n := |front|;
        assert files[..n + 1] == files;
      } else {
        n := FirstObstacle(server, store, disk, front);
        assert files[..n] == front[..n] && files[..n + 1] == front[..n + 1];
      }
    }
  }

  /** A readable, recorded file that is not applicable after others that are has drifted. */
  lemma ObstacleIsDrift(server: Server, store: Store, disk: Disk, files: seq<string>, n: nat)
    requires n < |files| && Applicable(server, store, disk, files[..n]) && !Applicable(server, store, disk, files[..n + 1])
    requires Obstacle(server, store, disk, files[n]).ChecksumMismatch?
    ensures Drifted(server, store, disk, files[n])
  {
    assert files[..n] + [files[n]] == files[..n + 1];
    var reached := ExecAll(server, store.schema, EffectsOf(disk, Pending(files[..n], store.history))).value;
    OneMoreApplicable(server, store, disk, files[..n], files[n], reached);
  }

  /** Drift: the run ends with a checksum mismatch at a file exactly if that file has drifted and all
      before it are applicable; then the unrecorded files before it have taken effect and nothing else. */
  lemma DriftStopsTheRun(server: Server, store: Store, disk: Disk, files: seq<string>, d: nat)
    requires DistinctVersions(files) && store.table && d < |files|
    ensures var end := RunFiles(server, store, disk, files);
            && ((end.fatal.Some? && end.fatal.value.ChecksumMismatch? && end.fatal.value.filename == files[d])
                <==> Drifted(server, store, disk, files[d]) && Applicable(server, store, disk, files[..d]))
            && (Drifted(server, store, disk, files[d]) && Applicable(server, store, disk, files[..d]) ==>
                  && end.fatal == Some(ChecksumMismatch(files[d], store.history[Version(files[d])].checksum, server.hash(disk.contents[files[d]])))
                  && DidExactly(server, end.store, store, disk, files[..d]))
  {
    if Drifted(server, store, disk, files[d]) && Applicable(server, store, disk, files[..d]) {
      assert files[..d + 1][d] == files[d];
      FirstObstacleStopsTheRun(server, store, disk, files, d);
    }
    RunFinishesIffApplicable(server, store, disk, files);
    if !Applicable(server, store, disk, files) {
      var n := FirstObstacle(server, store, disk, files);
      FirstObstacleStopsTheRun(server, store, disk, files, n);
      if Obstacle(server, store, disk, files[n]).ChecksumMismatch? && files[n] == files[d] {
        assert n == d by {
          assert Version(files[n]) == Version(files[d]);
        }
        ObstacleIsDrift(server, store, disk, files, n);
      }
    }
  }

  // ---------------------------------------------------------------------------------------------
  // Books: what history and log say about each other
  // ---------------------------------------------------------------------------------------------

  /** Every version has taken effect at most once, and the history is exactly the record of that. */
  ghost predicate Books(server: Server, store: Store) {
    && (forall i, j :: 0 <= i < j < |store.log| ==> store.log[i].version != store.log[j].version)
    && (forall v :: v in store.history <==> exists e :: e in store.log && e.version == v)
    && (forall e :: e in store.log ==> e.version in store.history
                                        && store.history[e.version] == Row(e.filename, server.hash(e.summed)))
  }

  lemma CommitKeepsBooks(server: Server, store: Store, effect: Effect, schema: Schema)
    requires Books(server, store) && effect.version !in store.history
    ensures Books(server, Commit(server, store, effect, schema))
  {
  }

  lemma {:induction false} RunKeepsBooks(server: Server, store: Store, disk: Disk, files: seq<string>)
    requires Books(server, store)
    ensures Books(server, RunFiles(server, store, disk, files).store)
  {
    if files == [] {
    } else {
      var front, last := files[..|files| - 1], files[|files| - 1];
      RunKeepsBooks(server, store, disk, front);
      var before := RunFiles(server, store, disk, front);
      var bytes := ReadFile(disk, last);
      CallIsAllOrNothing(server, before.store, last, bytes, bytes, Healthy);
      if before.fatal.None? && ApplyFile(server, before.store, disk, last).0 != before.store {
        CommitKeepsBooks(server, before.store, EffectOf(disk, last), server.exec(before.store.schema, bytes.value).value);
      }
    }
  }

  /** The bytes executed are the bytes checksummed. */
  ghost predicate Honest(store: Store) {
    forall e :: e in store.log ==> e.summed == e.sql
  }

  lemma {:induction false} RunStaysHonest(server: Server, store: Store, disk: Disk, files: seq<string>)
    requires Honest(store)
    ensures Honest(RunFiles(server, store, disk, files).store)
  {
    if files == [] {
    } else {
      RunStaysHonest(server, store, disk, files[..|files| - 1]);
    }
  }

  /** With a checksum that tells all bytes apart, a run finishes only if for every file the bytes on disk
      are the bytes that were executed for its version, in this run or in an earlier one, and no other
      bytes ever were. */
  lemma FinishedRunMatchesDisk(server: Server, store: Store, disk: Disk, files: seq<string>)
    requires Books(server, store) && Honest(store)
    requires forall x, y :: server.hash(x) == server.hash(y) ==> x == y
    requires RunFiles(server, store, disk, files).fatal.None?
    ensures var log := RunFiles(server, store, disk, files).store.log;
            forall f :: f in files ==>
              && (exists e :: e in log && e.version == Version(f))
              && (forall e :: e in log && e.version == Version(f) ==> ReadFile(disk, f) == Some(e.sql))
  {
    RunKeepsBooks(server, store, disk, files);
    RunStaysHonest(server, store, disk, files);
    PassedIsUpToDate(server, store, disk, files);
    forall f | f in files ensures UpToDate(server, RunFiles(server, store, disk, files).store, disk, f) {
      var i :| 0 <= i < |files| && files[i] == f;
    }
    forall f | f in files {
      BytesOnDiskWereExecuted(server, RunFiles(server, store, disk, files).store, disk, f);
    }
  }

  lemma BytesOnDiskWereExecuted(server: Server, store: Store, disk: Disk, f: string)
    requires Books(server, store) && Honest(store) && UpToDate(server, store, disk, f)
    requires forall x, y :: server.hash(x) == server.hash(y) ==> x == y
    ensures exists e :: e in store.log && e.version == Version(f)
    ensures forall e :: e in store.log && e.version == Version(f) ==> ReadFile(disk, f) == Some(e.sql)
  {
    forall e | e in store.log && e.version == Version(f) ensures e.sql == disk.contents[f] {
      assert server.hash(disk.contents[f]) == server.hash(e.summed);
    }
  }

  // ---------------------------------------------------------------------------------------------
  // Upgrades
  // ---------------------------------------------------------------------------------------------

  lemma {:induction false} SameBytesSameRun(server: Server, store: Store, disk1: Disk, disk2: Disk, files: seq<string>)
    requires forall f :: f in files ==> ReadFile(disk1, f) == ReadFile(disk2, f)
    ensures RunFiles(server, store, disk1, files) == RunFiles(server, store, disk2, files)
  {
    if files == [] {
    } else {
      SameBytesSameRun(server, store, disk1, disk2, files[..|files| - 1]);
    }
  }

  /** Running on a directory and then on one that continues its list is the same as running on the
      second one alone: same history, schema, order of effects and outcome. */
  lemma UpgradeEqualsFreshInstall(server: Server, store: Store, disk1: Disk, disk2: Disk)
    requires Discover(disk1.entries).Success? && Discover(disk2.entries).Success?
    requires Discover(disk1.entries).value <= Discover(disk2.entries).value
    requires forall f :: f in Discover(disk1.entries).value ==> ReadFile(disk1, f) == ReadFile(disk2, f)
    ensures Migrate(server, Migrate(server, store, disk1).store, disk2) == Migrate(server, store, disk2)
  {
    var files1, files2 := Discover(disk1.entries).value, Discover(disk2.entries).value;
    var start := WithTable(store);
    SameBytesSameRun(server, start, disk1, disk2, files1);
    RunExtends(server, start, disk2, files1);
    var first := RunFiles(server, start, disk2, files1);
    assert WithTable(first.store) == first.store;
    assert files2[..|files1|] == files1;
    if first.fatal.None? {
      ResumeFromPrefix(server, start, disk2, files2, |files1|);
    } else {
      StoppedRunIsAPrefix(server, start, disk2, files1);
      var k :| 0 <= k < |files1| && StopsAt(server, start, disk2, files1, k);
      assert files1[..k] == files2[..k];
      ResumeFromPrefix(server, start, disk2, files2, k);
    }
  }

  function LogNames(log: seq<Effect>): (names: seq<string>)
    ensures |names| == |log|
    ensures forall i :: 0 <= i < |log| ==> names[i] == log[i].filename
  {
    seq(|log|, i requires 0 <= i < |log| => log[i].filename)
  }

  /** A finished run appends the pending files, and these are strictly increasing by name. */
  lemma AdditionsAreInOrder(server: Server, store: Store, disk: Disk, files: seq<string>)
    requires DistinctVersions(files) && StrictlyIncreasing(files)
    requires RunFiles(server, store, disk, files).fatal.None?
    ensures LogNames(RunFiles(server, store, disk, files).store.log) == LogNames(store.log) + Pending(files, store.history)
    ensures StrictlyIncreasing(Pending(files, store.history))
  {
    RunDoesExactlyThePending(server, store, disk, files);
    PendingIncreases(files, store.history);
    var added := EffectsOf(disk, Pending(files, store.history));
    assert LogNames(added) == Pending(files, store.history);
    assert LogNames(store.log + added) == LogNames(store.log) + LogNames(added);
  }

  lemma {:induction false} PendingIncreases(files: seq<string>, history: map<string, Row>)
    requires StrictlyIncreasing(files)
    ensures StrictlyIncreasing(Pending(files, history))
  {
    if files == [] {
    } else {
      var front, last := files[..|files| - 1], files[|files| - 1];
      PendingIncreases(front, history);
      forall f | f in Pending(front, history) ensures Below(f, last) {
        PendingMembers(front, history, f);
        var i :| 0 <= i < |front| && files[i] == f;
      }
    }
  }

  /** From an empty database, running on one directory and then on another applies files in the order of
      a fresh install of the second if and only if the list of the first is a prefix of that of the
      second: a file that sorts before an applied one is applied late. */
  lemma UpgradeOrderIffPrefix(server: Server, store: Store, disk1: Disk, disk2: Disk, files1: seq<string>, files2: seq<string>)
    requires store.history == map[] && store.log == []
    requires DistinctVersions(files1) && StrictlyIncreasing(files1)
    requires DistinctVersions(files2) && StrictlyIncreasing(files2)
    requires RunFiles(server, store, disk1, files1).fatal.None?
    requires RunFiles(server, store, disk2, files2).fatal.None?
    requires RunFiles(server, RunFiles(server, store, disk1, files1).store, disk2, files2).fatal.None?
    ensures var upgraded := RunFiles(server, RunFiles(server, store, disk1, files1).store, disk2, files2).store;
            var fromEmpty := RunFiles(server, store, disk2, files2).store;
            LogNames(upgraded.log) == LogNames(fromEmpty.log) <==> files1 <= files2
  {
    var middle := RunFiles(server, store, disk1, files1).store;
    FreshOrder(server, store, disk1, files1);
    FreshOrder(server, store, disk2, files2);
    AdditionsAreInOrder(server, middle, disk2, files2);
    var late := Pending(files2, middle.history);
    if files1 <= files2 {
      AfterTheFirst(server, store, disk1, files1, files2);
    }
    if files1 + late == files2 {
      assert files2[..|files1|] == files1;
    }
  }

  lemma FreshOrder(server: Server, store: Store, disk: Disk, files: seq<string>)
    requires store.history == map[] && store.log == []
    requires DistinctVersions(files) && StrictlyIncreasing(files)
    requires RunFiles(server, store, disk, files).fatal.None?
    ensures LogNames(RunFiles(server, store, disk, files).store.log) == files
  {
    AdditionsAreInOrder(server, store, disk, files);
    AllPending(files, map[]);
  }

  lemma {:induction false} AllPending(files: seq<string>, history: map<string, Row>)
    requires forall i :: 0 <= i < |files| ==> Version(files[i]) !in history
    ensures Pending(files, history) == files
  {
    if files == [] {
    } else {
      AllPending(files[..|files| - 1], history);
    }
  }

  lemma AfterTheFirst(server: Server, store: Store, disk: Disk, files1: seq<string>, files2: seq<string>)
    requires DistinctVersions(files1) && DistinctVersions(files2) && files1 <= files2
    requires store.history == map[] && RunFiles(server, store, disk, files1).fatal.None?
    ensures files1 + Pending(files2, RunFiles(server, store, disk, files1).store.history) == files2
  {
    PassedIsUpToDate(server, store, disk, files1);
    forall i | |files1| <= i < |files2| ensures Version(files2[i]) !in RunFiles(server, store, disk, files1).store.history {
      LaterIsNotRecorded(server, store, disk, files1, files2, i);
    }
    PendingIsTheRest(files1, files2, RunFiles(server, store, disk, files1).store.history);
  }

  lemma PendingIsTheRest(files1: seq<string>, files2: seq<string>, history: map<string, Row>)
    requires files1 <= files2
    requires forall i :: 0 <= i < |files1| ==> Version(files1[i]) in history
    requires forall i :: |files1| <= i < |files2| ==> Version(files2[i]) !in history
    ensures files1 + Pending(files2, history) == files2
  {
    var rest := files2[|files1|..];
    PendingSplits(files2, |files1|, history);
    assert files2[..|files1|] == files1;
    NonePending(files1, history);
    AllPending(rest, history);
    assert files2 == files1 + rest;
  }

  lemma LaterIsNotRecorded(server: Server, store: Store, disk: Disk, files1: seq<string>, files2: seq<string>, i: nat)
    requires DistinctVersions(files1) && DistinctVersions(files2) && files1 <= files2 && |files1| <= i < |files2|
    requires store.history == map[] && RunFiles(server, store, disk, files1).fatal.None?
    ensures Version(files2[i]) !in RunFiles(server, store, disk, files1).store.history
  {
    RunDoesExactlyThePending(server, store, disk, files1);
    forall f | f in files1 ensures Version(f) != Version(files2[i]) {
      var k :| 0 <= k < |files1| && files1[k] == f;
      assert files2[k] == f;
    }
    OnlyPendingIsRecorded(server, RunFiles(server, store, disk, files1).store, store, disk, files1, Version(files2[i]));
  }

  lemma {:induction false} PendingSplits(files: seq<string>, n: nat, history: map<string, Row>)
    requires n <= |files|
    ensures Pending(files, history) == Pending(files[..n], history) + Pending(files[n..], history)
    decreases |files|
  {
    if n == |files| {
      assert files[..n] == files && files[n..] == [];
    } else {
      var front := files[..|files| - 1];
      PendingSplits(front, n, history);
      assert front[..n] == files[..n];
      assert files[n..][..|files| - n - 1] == front[n..];
    }
  }

  lemma {:induction false} NonePending(files: seq<string>, history: map<string, Row>)
    requires forall i :: 0 <= i < |files| ==> Version(files[i]) in history
    ensures Pending(files, history) == []
  {
    if files == [] {
    } else {
      NonePending(files[..|files| - 1], history);
    }
  }

  // ---------------------------------------------------------------------------------------------
  // Renaming descriptions
  // ---------------------------------------------------------------------------------------------

  /** Equal but for the stored file names. */
  ghost predicate SameButNames(a: Store, b: Store) {
    && a.table == b.table && a.schema == b.schema && |a.log| == |b.log|
    && (forall i :: 0 <= i < |a.log| ==>
          a.log[i].version == b.log[i].version && a.log[i].summed == b.log[i].summed && a.log[i].sql == b.log[i].sql)
    && a.history.Keys == b.history.Keys
    && (forall v :: v in a.history ==> a.history[v].checksum == b.history[v].checksum)
  }

  /** The same decision about the same version, whatever its file is called. */
  predicate SameDecision(a: Fatal, b: Fatal) {
    match (a, b)
    case (BadName(f), BadName(g)) => Version(f) == Version(g)
    case (ReadFailed(f), ReadFailed(g)) => Version(f) == Version(g)
    case (QueryFailed(f), QueryFailed(g)) => Version(f) == Version(g)
    case (ChecksumMismatch(f, x, y), ChecksumMismatch(g, x', y')) => Version(f) == Version(g) && x == x' && y == y'
    case (ExecFailed(f), ExecFailed(g)) => Version(f) == Version(g)
    case (InsertFailed(f), InsertFailed(g)) => Version(f) == Version(g)
    case (TransactionFailed(f), TransactionFailed(g)) => Version(f) == Version(g)
    case _ => a == b
  }

  lemma SameCall(server: Server, a: Store, b: Store, f: string, g: string, bytes: Option<string>)
    requires SameButNames(a, b) && HasVersion(f) && HasVersion(g) && Version(f) == Version(g)
    ensures var (a', r) := ApplyBytes(server, a, f, bytes, bytes, Healthy);
            var (b', s) := ApplyBytes(server, b, g, bytes, bytes, Healthy);
            && SameButNames(a', b')
            && (r.Stopped? <==> s.Stopped?) && (r.Stopped? ==> SameDecision(r.why, s.why))
  {
  }

  /** Renaming descriptions changes neither the order of effects nor any decision, only the stored
      file names. No condition on the versions is needed: their order never involves descriptions. */
  lemma RenamingIsHarmless(server: Server, a: Store, b: Store, disk: Disk, files: seq<string>, disk': Disk, renamed: seq<string>)
    requires SameButNames(a, b)
    requires DistinctVersions(files) && StrictlyIncreasing(files)
    requires DistinctVersions(renamed) && StrictlyIncreasing(renamed)
    requires forall v :: v in Versions(files) <==> v in Versions(renamed)
    requires forall f, g :: f in files && g in renamed && Version(f) == Version(g) ==> ReadFile(disk, f) == ReadFile(disk', g)
    ensures var end, end' := RunFiles(server, a, disk, files), RunFiles(server, b, disk', renamed);
            && SameButNames(end.store, end'.store)
            && (end.fatal.Some? <==> end'.fatal.Some?)
            && (end.fatal.Some? ==> SameDecision(end.fatal.value, end'.fatal.value))
  {
    SameVersionsSameOrder(files, renamed);
    assert |files| == |Versions(files)| == |renamed|;
    forall i | 0 <= i < |files| ensures Version(files[i]) == Version(renamed[i]) {
      assert Versions(files)[i] == Versions(renamed)[i];
    }
    SameVersionsSameRun(server, a, b, disk, files, disk', renamed);
  }

  lemma {:induction false} SameVersionsSameRun(server: Server, a: Store, b: Store, disk: Disk, files: seq<string>, disk': Disk, renamed: seq<string>)
    requires SameButNames(a, b) && |files| == |renamed|
    requires forall i :: 0 <= i < |files| ==> HasVersion(files[i]) && HasVersion(renamed[i]) && Version(files[i]) == Version(renamed[i])
    requires forall i :: 0 <= i < |files| ==> ReadFile(disk, files[i]) == ReadFile(disk', renamed[i])
    ensures var end, end' := RunFiles(server, a, disk, files), RunFiles(server, b, disk', renamed);
            && SameButNames(end.store, end'.store)
            && (end.fatal.Some? <==> end'.fatal.Some?)
            && (end.fatal.Some? ==> SameDecision(end.fatal.value, end'.fatal.value))
  {
    if files == [] {
    } else {
      var n := |files| - 1;
      SameVersionsSameRun(server, a, b, disk, files[..n], disk', renamed[..n]);
      var before, before' := RunFiles(server, a, disk, files[..n]), RunFiles(server, b, disk', renamed[..n]);
      SameCall(server, before.store, before'.store, files[n], renamed[n], ReadFile(disk, files[n]));
    }
  }

  /** The migrations of `renamed` are those of `disk` with other descriptions: both directories are listed
      in order of names, as the system lists them, the names have the same versions, and files of one
      version the same contents. */
  ghost predicate Renamed(disk: Disk, renamed: Disk) {
    var names, names' := Candidates(disk.entries), Candidates(renamed.entries);
    && Sorted(names) && Sorted(names')
    && multiset(SortKeys(names)) == multiset(SortKeys(names'))
    && (DistinctVersions(names) ==>
          forall f, g :: f in names && g in names' && SortKey(f) == SortKey(g) ==> ReadFile(disk, f) == ReadFile(renamed, g))
  }

  lemma SortedListingIsKept(disk: Disk)
    requires Sorted(Candidates(disk.entries)) && Discover(disk.entries).Success?
    ensures Discover(disk.entries).value == Candidates(disk.entries) && DistinctVersions(Candidates(disk.entries))
  {
    DiscoverIsExact(disk.entries);
    SortIsDetermined(Sort(Candidates(disk.entries)), Candidates(disk.entries));
  }

  /** Renaming descriptions in a directory changes nothing about a whole run but the stored file names:
      discovery accepts both or rejects both for the same reason, every version is skipped, applied or
      refused alike, and the run stops at the same version for the same reason or finishes. */
  lemma RenamedDirectoryIsHarmless(server: Server, a: Store, b: Store, disk: Disk, renamed: Disk)
    requires SameButNames(a, b) && Renamed(disk, renamed)
    ensures var end, end' := Migrate(server, a, disk), Migrate(server, b, renamed);
            && SameButNames(end.store, end'.store)
            && (end.fatal.Some? <==> end'.fatal.Some?)
            && (end.fatal.Some? ==> SameDecision(end.fatal.value, end'.fatal.value))
  {
    var names, names' := Candidates(disk.entries), Candidates(renamed.entries);
    SameKeysSameOrder(names, names');
    SameKeysSameVerdict(names, names');
    assert |names| == |SortKeys(names)| == |names'|;
    assert SameButNames(WithTable(a), WithTable(b));
    if Discover(disk.entries).Success? {
      SortedListingIsKept(disk);
      SortedListingIsKept(renamed);
      forall i | 0 <= i < |names|
        ensures HasVersion(names'[i]) && Version(names[i]) == Version(names'[i]) && ReadFile(disk, names[i]) == ReadFile(renamed, names'[i])
      {
        SameKeyAt(names, names', i);
      }
      SameVersionsSameRun(server, WithTable(a), WithTable(b), disk, names, renamed, names');
    }
  }
}
