/**
 The migrator as the imperative program it is: one process that takes the lock, prepares the history
 table, discovers the files and applies them one transaction at a time, updating a database in place.
 Each method is proved against the sequential meaning in Migration.
 */
module MigratorProgram {
  import opened Prelude
  import opened FileNames
  import opened Discovery
  import opened Migration

  class Database {
    var lockHolder: Option<nat>
    var table: bool
    var history: map<string, Row>
    var schema: Schema
    ghost var log: seq<Effect>
    /** Who held the lock at each change of the committed state. */
    ghost var guards: seq<Option<nat>>

    /** A database with nothing applied to it. */
    constructor (schema: Schema)
      ensures lockHolder.None? && Committed() == Store(false, map[], schema, [])
    {
      lockHolder, table, history := None, false, map[];
      this.schema := schema;
      log, guards := [], [];
    }

    ghost function Committed(): Store
      reads this
    {
      Store(table, history, schema, log)
    }

    /** acquireLock: the advisory lock goes to `session` only if nobody holds it. */
    method TryLock(session: nat) returns (locked: bool)
      modifies this`lockHolder
      ensures locked <==> old(lockHolder).None?
      ensures lockHolder == if locked then Some(session) else old(lockHolder)
    {
      locked := lockHolder.None?;
      if locked {
        lockHolder := Some(session);
      }
    }

    /** setupSchemaMigrations: afterwards the history table exists, unless the statement was refused. */
    method SetupSchemaMigrations(setup: SetupFault) returns (answered: bool)
      modifies this`table, this`guards
      ensures guards == if Committed() == old(Committed()) then old(guards) else old(guards) + [lockHolder]
      ensures answered <==> !setup.TableRefused? && !setup.TableUnanswered?
      ensures Committed() == if setup.TableRefused? then old(Committed()) else WithTable(old(Committed()))
    {
      if !table && !setup.TableRefused? {
        table := true;
        guards := guards + [lockHolder];
      }
      answered := !setup.TableRefused? && !setup.TableUnanswered?;
    }

    /** applyMigration: look the version up, then execute and record the file in one transaction. The
        transaction's own view becomes the committed state only at the commit. */
    method ApplyMigration(server: Server, filename: string, first: Option<string>, second: Option<string>, fault: Fault)
      returns (r: CallResult)
      modifies this`history, this`schema, this`log, this`guards
      ensures guards == if Committed() == old(Committed()) then old(guards) else old(guards) + [lockHolder]
      ensures (Committed(), r) == ApplyBytes(server, old(Committed()), filename, first, second, fault)
    {
      if !HasVersion(filename) {
        return Stopped(BadName(filename));
      }
      var version := Version(filename);
      if first.None? {
        return Stopped(ReadFailed(filename));
      }
      var checksum := server.hash(first.value);

      if fault == QueryBroken || !table {
        return Stopped(QueryFailed(filename));
      }
      if version in history {
        var existingChecksum := history[version].checksum;
        if existingChecksum == checksum {
          return Skipped;
        }
        return Stopped(ChecksumMismatch(filename, existingChecksum, checksum));
      }

      if second.None? {
        return Stopped(ReadFailed(filename));
      }
      if fault == BeginRefused {
        return Stopped(TransactionFailed(filename));
      }
      var executed := server.exec(schema, second.value);
      if fault == ExecBroken || executed.None? {
        return Stopped(ExecFailed(filename));
      }
      if fault == InsertBroken {
        return Stopped(InsertFailed(filename));
      }
      var stagedHistory := history[version := Row(filename, checksum)];
      if fault == CommitRefused {
        return Stopped(TransactionFailed(filename));
      }
      history, schema := stagedHistory, executed.value;
      assert |log + [Effect(version, filename, first.value, second.value)]| == |log| + 1;
      log := log + [Effect(version, filename, first.value, second.value)];
      guards := guards + [lockHolder];
      return if fault == CommitUnanswered then Stopped(TransactionFailed(filename)) else Applied;
    }

    /** The loop of main: the first call that stops ends it. */
    method ApplyMigrations(server: Server, disk: Disk, migrations: seq<string>, faults: seq<Fault>) returns (fatal: Option<Fatal>)
      modifies this`history, this`schema, this`log, this`guards
      ensures Progress(Committed(), fatal) == RunWithFaults(server, old(Committed()), disk, migrations, faults)
      ensures ChangedUnder(lockHolder, old(guards), guards)
      ensures guards == old(guards) ==> Committed() == old(Committed())
    {
      ghost var start := Committed();
      for n := 0 to |migrations|
        invariant RunWithFaults(server, start, disk, migrations[..n], faults) == Progress(Committed(), None)
        invariant ChangedUnder(lockHolder, old(guards), guards)
        invariant guards == old(guards) ==> Committed() == old(Committed())
      {
        assert migrations[..n + 1][..n] == migrations[..n];
        var bytes := ReadFile(disk, migrations[n]);
        var result := ApplyMigration(server, migrations[n], bytes, bytes, FaultAt(faults, n));
        if result.Stopped? {
          FaultyRunSticks(server, start, disk, migrations, faults, n + 1);
          return Some(result.why);
        }
      }
      assert migrations[..|migrations|] == migrations;
      return None;
    }

    /** main: everything happens under the lock, the first failure ends the program, and the lock is
        as it was however it ends. Whatever it changes it changes while it holds the lock, and it reports
        success only for a run that nothing has disturbed. */
    method RunMigrator(server: Server, disk: Disk, session: nat, setup: SetupFault, faults: seq<Fault>) returns (fatal: Option<Fatal>)
      modifies this
      ensures lockHolder == old(lockHolder)
      ensures old(lockHolder).Some? && !setup.LockBroken? ==> fatal == Some(LockBusy) && Committed() == old(Committed())
      ensures old(lockHolder).None? || setup.LockBroken? ==>
                Progress(Committed(), fatal) == MigrateWithFaults(server, old(Committed()), disk, setup, faults)
      ensures fatal.None? ==>
                setup.NoSetupFault? && old(lockHolder).None? && Progress(Committed(), None) == Migrate(server, old(Committed()), disk)
      ensures ChangedUnder(Some(session), old(guards), guards)
      ensures guards == old(guards) ==> Committed() == old(Committed())
    {
      SuccessIsUndisturbed(server, Committed(), disk, setup, faults);
      if setup.LockBroken? {
        return Some(LockFailed);
      }
      var locked := TryLock(session);
      if !locked {
        return Some(LockBusy);
      }
      var answered := SetupSchemaMigrations(setup);
      if !answered {
        lockHolder := None;
        return Some(TableFailed);
      }
      if setup.DirectoryUnreadable? {
        lockHolder := None;
        return Some(DirectoryFailed);
      }
      var discovered := DiscoverMigrations(disk.entries);
      if discovered.Failure? {
        lockHolder := None;
        return Some(DiscoveryFailed(discovered.error));
      }
      fatal := ApplyMigrations(server, disk, discovered.value, faults);
      lockHolder := None;
    }
  }

  /** All changes recorded since `before` were made while the lock was held as `holder` says. */
  ghost predicate ChangedUnder(holder: Option<nat>, before: seq<Option<nat>>, after: seq<Option<nat>>) {
    before <= after && forall k :: |before| <= k < |after| ==> after[k] == holder
  }

  /** Running twice with nobody else around: whatever cut the first run off, the second one, left
      alone, brings the database and the outcome to what a single run would have given. */
  method RunTwice(db: Database, server: Server, disk: Disk, session1: nat, session2: nat, setup: SetupFault, faults: seq<Fault>)
    returns (fatal: Option<Fatal>)
    requires db.lockHolder.None?
    modifies db
    ensures Progress(db.Committed(), fatal) == Migrate(server, old(db.Committed()), disk)
    ensures db.lockHolder.None?
  {
    ghost var start := db.Committed();
    var _ := db.RunMigrator(server, disk, session1, setup, faults);
    ghost var middle := db.Committed();
    fatal := db.RunMigrator(server, disk, session2, NoSetupFault, []);
    RestartConverges(server, start, disk, setup, faults);
    HealthyRun(server, middle, disk);
  }

  lemma HealthyRun(server: Server, store: Store, disk: Disk)
    ensures MigrateWithFaults(server, store, disk, NoSetupFault, []) == Migrate(server, store, disk)
  {
    if Discover(disk.entries).Success? {
      HealthyFiles(server, WithTable(store), disk, Discover(disk.entries).value);
    }
  }

  lemma {:induction false} HealthyFiles(server: Server, store: Store, disk: Disk, files: seq<string>)
    ensures RunWithFaults(server, store, disk, files, []) == RunFiles(server, store, disk, files)
  {
    if files == [] {
    } else {
      HealthyFiles(server, store, disk, files[..|files| - 1]);
    }
  }
}
