/**
 The protocol over a directory that does not change: every reachable state is one that a single
 uninterrupted run passes through, so crashes, restarts, lost locks and overlapping runs never change
 what the migrations finally do.
 */
module ProtocolConvergence {
  import opened Prelude
  import opened FileNames
  import opened Discovery
  import opened Migration
  import opened RunTheorems
  import opened Protocol
  import opened ProtocolSafety

  /** The sorted list every process finds; no process gets past discovery if there is none. */
  function Listing(disk: Disk): (files: seq<string>) {
    match Discover(disk.entries)
    case Success(files) => files
    case Failure(_) => []
  }

  lemma ListingIsDistinct(disk: Disk)
    ensures DistinctVersions(Listing(disk)) && StrictlyIncreasing(Listing(disk))
  {
    DiscoverIsExact(disk.entries);
  }

  /** All files before index i are recorded with the checksum of what is on disk. */
  ghost predicate Passed(server: Server, store: Store, disk: Disk, files: seq<string>, i: nat) {
    i <= |files| && forall m :: 0 <= m < i ==> UpToDate(server, store, disk, files[m])
  }

  /** What a process has read is what is on disk, and, as long as its version is not recorded, its
      transaction executed on the schema that is committed now. */
  ghost predicate ReadsAreRight(server: Server, store: Store, disk: Disk, proc: Proc) {
    var f := proc.Current();
    match proc.phase
    case Summed(_, summed) => ReadFile(disk, f) == Some(summed)
    case Missing(_, summed) => ReadFile(disk, f) == Some(summed)
    case SqlRead(_, summed, sql) => ReadFile(disk, f) == Some(summed) && sql == summed
    case Executed(_, summed, sql, base, staged) =>
      ReadFile(disk, f) == Some(summed) && sql == summed
      && (Version(f) !in store.history ==> base == store.schema && server.exec(base, sql) == Some(staged))
    case RowInserted(_, summed, sql, base, staged) =>
      ReadFile(disk, f) == Some(summed) && sql == summed
      && (Version(f) !in store.history ==> base == store.schema && server.exec(base, sql) == Some(staged))
    case _ => true
  }

  /** A process in the loop has the listing, has passed everything before its file, and has read right. */
  ghost predicate ProcIsRight(server: Server, store: Store, disk: Disk, files: seq<string>, proc: Proc) {
    && (proc.phase.TableReady? || InFile(proc.phase) ==> store.table)
    && (InFile(proc.phase) ==>
          && proc.files == files
          && Passed(server, store, disk, files, proc.phase.i)
          && (!proc.phase.AtFile? ==> proc.phase.i < |files|))
    && ReadsAreRight(server, store, disk, proc)
  }

  /** The invariant: the store is what the first j files of one run from `start` leave, and every
      process is right about it. */
  ghost predicate FollowsRun(server: Server, s: State, files: seq<string>, start: Store, j: nat) {
    && DistinctVersions(files)
    && start.table
    && j <= |files|
    && RunFiles(server, start, s.disk, files[..j]) == Progress(WithTable(s.store), None)
    && KeysAreExclusive(s)
    && forall p :: p in s.procs ==> ProcIsRight(server, s.store, s.disk, files, s.procs[p])
  }

  // ---------------------------------------------------------------------------------------------
  // One process
  // ---------------------------------------------------------------------------------------------

  /** Taking the listing leaves the process right: it has passed nothing yet. */
  lemma ListingKeepsProcRight(server: Server, s: State, p: Pid)
    requires p in s.procs && s.procs[p].phase.TableReady? && s.store.table
    ensures ProcIsRight(server, StepOf(server, s, p).store, s.disk, Listing(s.disk), StepOf(server, s, p).procs[p])
  {
  }

  /** Comparing checksums leaves the process right: it goes on only past a file that is up to date. */
  lemma LookupKeepsProcRight(server: Server, s: State, files: seq<string>, p: Pid)
    requires p in s.procs && ProcIsRight(server, s.store, s.disk, files, s.procs[p])
    requires DistinctVersions(files) && s.procs[p].phase.Summed?
    ensures ProcIsRight(server, StepOf(server, s, p).store, s.disk, files, StepOf(server, s, p).procs[p])
  {
  }

  /** So does every other statement inside an iteration, up to the insert. */
  lemma IterationKeepsProcRight(server: Server, s: State, files: seq<string>, p: Pid)
    requires p in s.procs && ProcIsRight(server, s.store, s.disk, files, s.procs[p])
    requires InFile(s.procs[p].phase) && !s.procs[p].phase.Summed? && !s.procs[p].phase.RowInserted?
    ensures ProcIsRight(server, StepOf(server, s, p).store, s.disk, files, StepOf(server, s, p).procs[p])
  {
  }

  /** A step that commits nothing leaves the process right. */
  lemma StepKeepsProcRight(server: Server, s: State, files: seq<string>, p: Pid)
    requires p in s.procs && ProcIsRight(server, s.store, s.disk, files, s.procs[p])
    requires files == Listing(s.disk) && !s.procs[p].phase.RowInserted?
    ensures ProcIsRight(server, StepOf(server, s, p).store, s.disk, files, StepOf(server, s, p).procs[p])
  {
    ListingIsDistinct(s.disk);
    if s.procs[p].phase.TableReady? {
      ListingKeepsProcRight(server, s, p);
    } else if s.procs[p].phase.Summed? {
      LookupKeepsProcRight(server, s, files, p);
    } else if InFile(s.procs[p].phase) {
      IterationKeepsProcRight(server, s, files, p);
    }
  }

  /** Two processes that have passed everything before their files, neither of which is recorded, are at
      the same file. */
  lemma SameUnrecordedFile(server: Server, store: Store, disk: Disk, files: seq<string>, k: nat, i: nat)
    requires k < |files| && i < |files|
    requires Passed(server, store, disk, files, k) && Passed(server, store, disk, files, i)
    requires Version(files[k]) !in store.history && Version(files[i]) !in store.history
    ensures k == i
  {
  }

  /** Another process is still right after the commit of file i, when everything before i is recorded
      and i itself was not. */
  lemma CommitKeepsOtherRight(server: Server, store: Store, disk: Disk, files: seq<string>, proc: Proc, i: nat, schema: Schema)
    requires ProcIsRight(server, store, disk, files, proc)
    requires i < |files| && Passed(server, store, disk, files, i) && files[i] in disk.contents
    requires Version(files[i]) !in store.history
    ensures ProcIsRight(server, Commit(server, store, EffectOf(disk, files[i]), schema), disk, files, proc)
  {
    var after := Commit(server, store, EffectOf(disk, files[i]), schema);
    if InFile(proc.phase) {
      forall m | 0 <= m < proc.phase.i ensures UpToDate(server, after, disk, files[m]) {
        assert UpToDate(server, store, disk, files[m]);
      }
      if !proc.phase.AtFile? && Version(files[proc.phase.i]) !in store.history {
        SameUnrecordedFile(server, store, disk, files, proc.phase.i, i);
      }
    }
  }

  // ---------------------------------------------------------------------------------------------
  // The commit
  // ---------------------------------------------------------------------------------------------

  lemma UpToDateCallSkips(server: Server, store: Store, disk: Disk, f: string)
    requires store.table && UpToDate(server, store, disk, f)
    ensures ApplyFile(server, store, disk, f) == (store, Skipped)
  {
  }

  /** A file that is up to date adds nothing to a run. */
  lemma SkipOne(server: Server, start: Store, reached: Store, disk: Disk, files: seq<string>, i: nat)
    requires i < |files| && RunFiles(server, start, disk, files[..i]) == Progress(reached, None)
    requires reached.table && UpToDate(server, reached, disk, files[i])
    ensures RunFiles(server, start, disk, files[..i + 1]) == Progress(reached, None)
  {
    UpToDateCallSkips(server, reached, disk, files[i]);
    RunOneMore(server, start, disk, files, i);
  }

  lemma {:induction false} SkipAhead(server: Server, start: Store, reached: Store, disk: Disk, files: seq<string>, j: nat, i: nat)
    requires j <= i <= |files| && RunFiles(server, start, disk, files[..j]) == Progress(reached, None)
    requires reached.table && Passed(server, reached, disk, files, i)
    ensures RunFiles(server, start, disk, files[..i]) == Progress(reached, None)
    decreases i
  {
    if j == i {
    } else {
      SkipAhead(server, start, reached, disk, files, j, i - 1);
      SkipOne(server, start, reached, disk, files, i - 1);
    }
  }

  /** A file whose version is not recorded is at or after the frontier. */
  lemma UnrecordedIsAhead(server: Server, start: Store, disk: Disk, files: seq<string>, j: nat, i: nat)
    requires j <= |files| && i < |files| && RunFiles(server, start, disk, files[..j]).fatal.None?
    requires Version(files[i]) !in RunFiles(server, start, disk, files[..j]).store.history
    ensures j <= i
  {
    assert i < j ==> files[..j][i] == files[i];
    PassedIsUpToDate(server, start, disk, files[..j]);
  }

  /** A process that has passed everything before file i and commits that file, unrecorded so far, does
      what the run does next. */
  lemma CommitIsNext(server: Server, start: Store, store: Store, disk: Disk, files: seq<string>, j: nat, i: nat, staged: Schema)
    requires j <= |files| && i < |files| && HasVersion(files[i]) && files[i] in disk.contents && store.table
    requires RunFiles(server, start, disk, files[..j]) == Progress(store, None)
    requires Passed(server, store, disk, files, i)
    requires Version(files[i]) !in store.history
    requires server.exec(store.schema, disk.contents[files[i]]) == Some(staged)
    ensures j <= i
    ensures RunFiles(server, start, disk, files[..i + 1]) == Progress(Commit(server, store, EffectOf(disk, files[i]), staged), None)
  {
    UnrecordedIsAhead(server, start, disk, files, j, i);
    SkipAhead(server, start, store, disk, files, j, i);
    RunOneMore(server, start, disk, files, i);
  }

  /** What the invariant says about a process that is about to commit. */
  lemma ReadyToCommit(server: Server, s: State, files: seq<string>, p: Pid, start: Store, j: nat)
    requires FollowsRun(server, s, files, start, j) && p in s.procs && s.procs[p].phase.RowInserted?
    ensures var proc, i := s.procs[p], s.procs[p].phase.i;
            && s.store.table && WithTable(s.store) == s.store
            && i < |files| && proc.files == files && proc.Current() == files[i] && HasVersion(files[i])
            && files[i] in s.disk.contents && Passed(server, s.store, s.disk, files, i)
            && Version(files[i]) !in s.store.history && proc.phase.base == s.store.schema
            && server.exec(s.store.schema, s.disk.contents[files[i]]) == Some(proc.phase.staged)
            && proc.phase.summed == proc.phase.sql == s.disk.contents[files[i]]
  {
    assert HasInserted(s, p, Version(s.procs[p].Current()));
  }

  /** The commit itself. */
  lemma CommitStep(server: Server, s: State, p: Pid, f: string, b: string)
    requires p in s.procs && s.procs[p].phase.RowInserted? && s.procs[p].Current() == f
    requires s.procs[p].phase.summed == s.procs[p].phase.sql == b && ReadFile(s.disk, f) == Some(b)
    requires s.procs[p].phase.base == s.store.schema
    ensures var t := Next(server, s, Step(p));
            && t.store == Commit(server, s.store, EffectOf(s.disk, f), s.procs[p].phase.staged)
            && t.disk == s.disk && t.procs == s.procs[p := s.procs[p].(phase := AtFile(s.procs[p].phase.i + 1))]
  {
  }

  /** A process can only commit the file the run would apply next, and it commits what the run would. */
  lemma CommitFollowsRun(server: Server, s: State, files: seq<string>, p: Pid, start: Store, j: nat)
    requires FollowsRun(server, s, files, start, j) && p in s.procs && s.procs[p].phase.RowInserted?
    ensures var i := s.procs[p].phase.i;
            && j <= i < |files| && files[i] in s.disk.contents
            && RunFiles(server, start, s.disk, files[..i + 1])
               == Progress(Commit(server, s.store, EffectOf(s.disk, files[i]), s.procs[p].phase.staged), None)
  {
    ReadyToCommit(server, s, files, p, start, j);
    CommitIsNext(server, start, s.store, s.disk, files, j, s.procs[p].phase.i, s.procs[p].phase.staged);
  }

  lemma CommitterIsRight(server: Server, store: Store, disk: Disk, files: seq<string>, i: nat, staged: Schema)
    requires store.table && i < |files| && Passed(server, store, disk, files, i)
    requires files[i] in disk.contents && HasVersion(files[i]) && Version(files[i]) !in store.history
    ensures ProcIsRight(server, Commit(server, store, EffectOf(disk, files[i]), staged), disk, files, Proc(files, AtFile(i + 1)))
  {
    var after := Commit(server, store, EffectOf(disk, files[i]), staged);
    forall m | 0 <= m < i + 1 ensures UpToDate(server, after, disk, files[m]) {
      assert m < i ==> UpToDate(server, store, disk, files[m]);
    }
  }

  /** After a commit the process that made it is right about the next iteration, and every other one is
      right still. */
  lemma CommitKeepsRight(server: Server, s: State, files: seq<string>, p: Pid, start: Store, j: nat, q: Pid)
    requires FollowsRun(server, s, files, start, j) && p in s.procs && s.procs[p].phase.RowInserted? && q in s.procs
    ensures ProcIsRight(server, Next(server, s, Step(p)).store, s.disk, files, Next(server, s, Step(p)).procs[q])
  {
    var i, staged := s.procs[p].phase.i, s.procs[p].phase.staged;
    ReadyToCommit(server, s, files, p, start, j);
    CommitStep(server, s, p, files[i], s.disk.contents[files[i]]);
    if q == p {
      CommitterIsRight(server, s.store, s.disk, files, i, staged);
    } else {
      CommitKeepsOtherRight(server, s.store, s.disk, files, s.procs[q], i, staged);
    }
  }

  // ---------------------------------------------------------------------------------------------
  // All actions
  // ---------------------------------------------------------------------------------------------

  lemma TableKeepsRight(server: Server, store: Store, disk: Disk, files: seq<string>, proc: Proc)
    requires ProcIsRight(server, store, disk, files, proc)
    ensures ProcIsRight(server, WithTable(store), disk, files, proc)
  {
    if InFile(proc.phase) {
      forall m | 0 <= m < proc.phase.i ensures UpToDate(server, WithTable(store), disk, files[m]) {
        assert UpToDate(server, store, disk, files[m]);
      }
    }
  }

  lemma WhatElseHappens(server: Server, s: State, a: Action)
    requires !a.EditDisk? && !IsCommit(s, a)
    ensures Next(server, s, a).disk == s.disk
    ensures Next(server, s, a).store == s.store || Next(server, s, a).store == WithTable(s.store)
    ensures forall q :: q in Next(server, s, a).procs && q !in s.procs ==> Next(server, s, a).procs[q].phase.Started?
    ensures a.Crash? && a.p in s.procs ==> Next(server, s, a).procs[a.p].phase.Exited?
  {
  }

  /** Every process is still right after any action that is no commit and no edit. */
  lemma OtherActionKeepsRight(server: Server, s: State, files: seq<string>, a: Action, q: Pid)
    requires q in s.procs ==> ProcIsRight(server, s.store, s.disk, files, s.procs[q])
    requires files == Listing(s.disk) && !a.EditDisk? && !IsCommit(s, a)
    requires q in Next(server, s, a).procs
    ensures ProcIsRight(server, Next(server, s, a).store, s.disk, files, Next(server, s, a).procs[q])
  {
    if a == Step(q) {
      StepKeepsProcRight(server, s, files, q);
    } else {
      WhatElseHappens(server, s, a);
      if q in s.procs && a != Crash(q) {
        OthersStay(server, s, a, q);
        TableKeepsRight(server, s.store, s.disk, files, s.procs[q]);
      }
    }
  }

  lemma CommitKeepsFollowing(server: Server, s: State, files: seq<string>, p: Pid, start: Store, j: nat)
    requires FollowsRun(server, s, files, start, j) && IsCommit(s, Step(p))
    ensures FollowsRun(server, Next(server, s, Step(p)), files, start, s.procs[p].phase.i + 1)
  {
    var i := s.procs[p].phase.i;
    ReadyToCommit(server, s, files, p, start, j);
    CommitFollowsRun(server, s, files, p, start, j);
    CommitStep(server, s, p, files[i], s.disk.contents[files[i]]);
    KeysStayExclusive(server, s, Step(p));
    forall q | q in s.procs ensures ProcIsRight(server, Next(server, s, Step(p)).store, s.disk, files, Next(server, s, Step(p)).procs[q]) {
      CommitKeepsRight(server, s, files, p, start, j, q);
    }
  }

  lemma OtherActionKeepsFollowing(server: Server, s: State, files: seq<string>, a: Action, start: Store, j: nat)
    requires FollowsRun(server, s, files, start, j) && files == Listing(s.disk) && !a.EditDisk? && !IsCommit(s, a)
    ensures FollowsRun(server, Next(server, s, a), files, start, j)
  {
    WhatElseHappens(server, s, a);
    KeysStayExclusive(server, s, a);
    forall q | q in Next(server, s, a).procs ensures ProcIsRight(server, Next(server, s, a).store, s.disk, files, Next(server, s, a).procs[q]) {
      OtherActionKeepsRight(server, s, files, a, q);
    }
  }

  lemma OnlyEditsTouchTheDisk(server: Server, s: State, a: Action)
    requires !a.EditDisk?
    ensures Next(server, s, a).disk == s.disk
  {
  }

  lemma ActionKeepsFollowing(server: Server, s: State, files: seq<string>, a: Action, start: Store, j: nat) returns (k: nat)
    requires FollowsRun(server, s, files, start, j) && files == Listing(s.disk) && !a.EditDisk?
    ensures FollowsRun(server, Next(server, s, a), files, start, k)
  {
    if IsCommit(s, a) {
      var p := a.p;
      assert a == Step(p);
      CommitKeepsFollowing(server, s, files, p, start, j);
      k := s.procs[p].phase.i + 1;
    } else {
      OtherActionKeepsFollowing(server, s, files, a, start, j);
      k := j;
    }
  }

  lemma {:induction false} RunKeepsFollowing(server: Server, s: State, files: seq<string>, acts: seq<Action>, start: Store, j: nat) returns (k: nat)
    requires FollowsRun(server, s, files, start, j) && files == Listing(s.disk) && forall a :: a in acts ==> !a.EditDisk?
    ensures FollowsRun(server, Run(server, s, acts), files, start, k)
    decreases |acts|
  {
    if acts == [] {
      k := j;
    } else {
      k := ActionKeepsFollowing(server, s, files, acts[0], start, j);
      OnlyEditsTouchTheDisk(server, s, acts[0]);
      k := RunKeepsFollowing(server, Next(server, s, acts[0]), files, acts[1..], start, k);
    }
  }

  lemma {:induction false} DiskStays(server: Server, s: State, acts: seq<Action>)
    requires forall a :: a in acts ==> !a.EditDisk?
    ensures Run(server, s, acts).disk == s.disk
    decreases |acts|
  {
    if acts == [] {
    } else {
      OnlyEditsTouchTheDisk(server, s, acts[0]);
      DiskStays(server, Next(server, s, acts[0]), acts[1..]);
    }
  }

  lemma IdleFollowsFromTheStart(server: Server, s: State, files: seq<string>)
    requires Idle(s) && DistinctVersions(files)
    ensures FollowsRun(server, s, files, WithTable(s.store), 0)
  {
    assert files[..0] == [];
  }

  // ---------------------------------------------------------------------------------------------
  // Theorems
  // ---------------------------------------------------------------------------------------------

  /** Refinement: over a directory that does not change, every reachable state of any number of
      overlapping, crashing and lock-losing processes has a database that one uninterrupted run passes
      through. */
  lemma EveryReachableStateIsOnTheRun(server: Server, s: State, acts: seq<Action>)
    requires Idle(s) && forall a :: a in acts ==> !a.EditDisk?
    ensures PassesThrough(server, WithTable(s.store), s.disk, Listing(s.disk), WithTable(Run(server, s, acts).store))
  {
    ListingIsDistinct(s.disk);
    IdleFollowsFromTheStart(server, s, Listing(s.disk));
    var _ := RunKeepsFollowing(server, s, Listing(s.disk), acts, WithTable(s.store), 0);
    DiskStays(server, s, acts);
  }

  /** Exactly once, in order: in every such state the effects added are those of the files of a prefix
      of the list that were not recorded before, once each, in the order of the list, and the schema
      and the history are what executing and recording exactly these gives. */
  lemma EffectsAreAPrefixOnceInOrder(server: Server, s: State, acts: seq<Action>)
    requires Idle(s) && forall a :: a in acts ==> !a.EditDisk?
    ensures exists j :: 0 <= j <= |Listing(s.disk)|
                     && DidExactly(server, WithTable(Run(server, s, acts).store), WithTable(s.store), s.disk, Listing(s.disk)[..j])
  {
    EveryReachableStateIsOnTheRun(server, s, acts);
    var files, start, t := Listing(s.disk), WithTable(s.store), WithTable(Run(server, s, acts).store);
    var j :| 0 <= j <= |files| && RunFiles(server, start, s.disk, files[..j]) == Progress(t, None);
    ListingIsDistinct(s.disk);
    RunDoesExactlyThePending(server, start, s.disk, files[..j]);
  }

  lemma {:induction false} FollowingCommitsAreFresh(server: Server, s: State, files: seq<string>, acts: seq<Action>, start: Store, j: nat)
    requires FollowsRun(server, s, files, start, j) && files == Listing(s.disk) && forall a :: a in acts ==> !a.EditDisk?
    ensures CommitsAreFresh(server, s, acts)
    decreases |acts|
  {
    if acts == [] {
    } else {
      if IsCommit(s, acts[0]) {
        ReadyToCommit(server, s, files, acts[0].p, start, j);
      }
      var k := ActionKeepsFollowing(server, s, files, acts[0], start, j);
      OnlyEditsTouchTheDisk(server, s, acts[0]);
      FollowingCommitsAreFresh(server, Next(server, s, acts[0]), files, acts[1..], start, k);
    }
  }

  /** Over an unchanging directory nobody ever commits on a schema that has been replaced, lock or no
      lock: a transaction that was overtaken was overtaken at its own file, and the primary key stops it. */
  lemma UnchangingDirectoryIsSerial(server: Server, s: State, acts: seq<Action>, initial: Schema)
    requires Idle(s) && forall a :: a in acts ==> !a.EditDisk?
    ensures CommitsAreFresh(server, s, acts)
    ensures Serial(server, initial, s.store) ==> Serial(server, initial, Run(server, s, acts).store)
  {
    ListingIsDistinct(s.disk);
    IdleFollowsFromTheStart(server, s, Listing(s.disk));
    FollowingCommitsAreFresh(server, s, Listing(s.disk), acts, WithTable(s.store), 0);
    if Serial(server, initial, s.store) {
      FreshCommitsAreSerial(server, s, acts, initial);
    }
  }

  /** From an empty database: the committed effects are a prefix of the list of files, and the recorded
      versions are exactly the versions of that prefix. */
  lemma PrefixInvariant(server: Server, s: State, acts: seq<Action>)
    requires Idle(s) && s.store.history == map[] && s.store.log == []
    requires forall a :: a in acts ==> !a.EditDisk?
    ensures LogNames(Run(server, s, acts).store.log) <= Listing(s.disk)
    ensures forall v :: v in Run(server, s, acts).store.history <==> v in Versions(LogNames(Run(server, s, acts).store.log))
  {
    EveryReachableStateIsOnTheRun(server, s, acts);
    ListingIsDistinct(s.disk);
    PassedIsAPrefix(server, WithTable(s.store), s.disk, Listing(s.disk), WithTable(Run(server, s, acts).store));
  }

  lemma PassedIsAPrefix(server: Server, start: Store, disk: Disk, files: seq<string>, t: Store)
    requires start.history == map[] && start.log == []
    requires DistinctVersions(files) && StrictlyIncreasing(files)
    requires PassesThrough(server, start, disk, files, t)
    ensures LogNames(t.log) <= files
    ensures forall v :: v in t.history <==> v in Versions(LogNames(t.log))
  {
    var j :| 0 <= j <= |files| && RunFiles(server, start, disk, files[..j]) == Progress(t, None);
    FreshOrder(server, start, disk, files[..j]);
    forall v ensures v in t.history <==> v in Versions(files[..j]) {
      RecordedIsLogged(server, t, start, disk, files[..j], v);
    }
  }

  lemma RecordedIsLogged(server: Server, t: Store, start: Store, disk: Disk, files: seq<string>, v: string)
    requires start.history == map[] && DistinctVersions(files)
    requires RunFiles(server, start, disk, files) == Progress(t, None)
    ensures v in t.history <==> v in Versions(files)
  {
    RunDoesExactlyThePending(server, start, disk, files);
    PassedIsUpToDate(server, start, disk, files);
    if v !in Versions(files) {
      forall f | f in files ensures Version(f) != v {
        var i :| 0 <= i < |files| && files[i] == f;
        assert Versions(files)[i] == Version(f);
      }
      OnlyPendingIsRecorded(server, t, start, disk, files, v);
    } else {
      var i :| 0 <= i < |files| && Versions(files)[i] == v;
      assert UpToDate(server, t, disk, files[i]);
    }
  }

  /** Convergence: from every reachable state an uninterrupted run ends with the same database and the
      same outcome as an uninterrupted run from the beginning, whether that outcome is success, drift,
      a failing migration or a directory that discovery rejects. */
  lemma EveryReachableStateConverges(server: Server, s: State, acts: seq<Action>)
    requires Idle(s) && forall a :: a in acts ==> !a.EditDisk?
    ensures Migrate(server, Run(server, s, acts).store, s.disk) == Migrate(server, s.store, s.disk)
  {
    EveryReachableStateIsOnTheRun(server, s, acts);
    var files, start, t := Listing(s.disk), WithTable(s.store), WithTable(Run(server, s, acts).store);
    var j :| 0 <= j <= |files| && RunFiles(server, start, s.disk, files[..j]) == Progress(t, None);
    if Discover(s.disk.entries).Success? {
      ResumeFromPrefix(server, start, s.disk, files, j);
    } else {
      assert files[..j] == [];
    }
  }

  // ---------------------------------------------------------------------------------------------
  // What a reported success means
  // ---------------------------------------------------------------------------------------------

  /** Every listed file is recorded with the checksum of what is on disk, and the directory is one that
      discovery accepts. */
  ghost predicate AllDone(server: Server, store: Store, disk: Disk) {
    && store.table && Discover(disk.entries).Success?
    && Passed(server, store, disk, Listing(disk), |Listing(disk)|)
  }

  /** No process is in the loop over a directory that discovery rejects. */
  ghost predicate LoopsAreListed(s: State) {
    forall p :: p in s.procs && InFile(s.procs[p].phase) ==> Discover(s.disk.entries).Success?
  }

  lemma StepStaysListed(server: Server, s: State, p: Pid)
    requires p in s.procs && (InFile(s.procs[p].phase) ==> Discover(s.disk.entries).Success?)
    ensures InFile(StepOf(server, s, p).procs[p].phase) ==> Discover(s.disk.entries).Success?
  {
  }

  lemma LoopsStayListed(server: Server, s: State, a: Action)
    requires LoopsAreListed(s) && !a.EditDisk?
    ensures LoopsAreListed(Next(server, s, a))
  {
    OnlyEditsTouchTheDisk(server, s, a);
    forall p | p in Next(server, s, a).procs && InFile(Next(server, s, a).procs[p].phase) ensures Discover(s.disk.entries).Success? {
      if a == Step(p) {
        StepStaysListed(server, s, p);
      } else if p in s.procs && a != Crash(p) {
        OthersStay(server, s, a, p);
      }
    }
  }

  lemma NextKeepsRows(server: Server, s: State, a: Action, v: string)
    requires KeysAreExclusive(s) && v in s.store.history
    ensures v in Next(server, s, a).store.history && Next(server, s, a).store.history[v] == s.store.history[v]
    ensures s.store.table ==> Next(server, s, a).store.table
  {
    OnlyCommitsChangeTheStore(server, s, a);
    if IsCommit(s, a) {
      assert HasInserted(s, a.p, Version(s.procs[a.p].Current()));
    }
  }

  lemma StaysDone(server: Server, s: State, a: Action)
    requires KeysAreExclusive(s) && AllDone(server, s.store, s.disk) && !a.EditDisk?
    ensures AllDone(server, Next(server, s, a).store, s.disk)
  {
    OnlyCommitsChangeTheStore(server, s, a);
    var files := Listing(s.disk);
    forall m | 0 <= m < |files| ensures UpToDate(server, Next(server, s, a).store, s.disk, files[m]) {
      assert UpToDate(server, s.store, s.disk, files[m]);
      NextKeepsRows(server, s, a, Version(files[m]));
    }
  }

  lemma ActionKeepsSuccessTrue(server: Server, s: State, files: seq<string>, a: Action, start: Store, j: nat, p: Pid)
    requires FollowsRun(server, s, files, start, j) && files == Listing(s.disk) && !a.EditDisk? && LoopsAreListed(s)
    requires p in s.procs && s.procs[p].phase == Exited(true) ==> AllDone(server, s.store, s.disk)
    requires p in Next(server, s, a).procs && Next(server, s, a).procs[p].phase == Exited(true)
    ensures AllDone(server, Next(server, s, a).store, s.disk)
  {
    if p in s.procs && s.procs[p].phase == Exited(true) {
    } else {
      OnlyFinishersSucceed(server, s, a, p);
      assert ProcIsRight(server, s.store, s.disk, files, s.procs[p]);
    }
    StaysDone(server, s, a);
  }

  lemma {:induction false} SuccessIsTrue(server: Server, s: State, files: seq<string>, acts: seq<Action>, start: Store, j: nat, p: Pid)
    requires FollowsRun(server, s, files, start, j) && files == Listing(s.disk) && LoopsAreListed(s)
    requires forall a :: a in acts ==> !a.EditDisk?
    requires p in s.procs && s.procs[p].phase == Exited(true) ==> AllDone(server, s.store, s.disk)
    ensures var t := Run(server, s, acts);
            p in t.procs && t.procs[p].phase == Exited(true) ==> AllDone(server, t.store, s.disk)
    decreases |acts|
  {
    if acts == [] {
    } else {
      var t := Next(server, s, acts[0]);
      OnlyEditsTouchTheDisk(server, s, acts[0]);
      LoopsStayListed(server, s, acts[0]);
      var k := ActionKeepsFollowing(server, s, files, acts[0], start, j);
      if p in t.procs && t.procs[p].phase == Exited(true) {
        ActionKeepsSuccessTrue(server, s, files, acts[0], start, j, p);
      }
      SuccessIsTrue(server, t, files, acts[1..], start, k, p);
    }
  }

  /** When any process of any reachable state over an unchanging directory has reported success, every
      file of the directory is recorded with its checksum, and the database is exactly the one that a
      single uninterrupted run would have finished with, whatever else has happened. */
  lemma ReportedSuccessIsTrue(server: Server, s: State, acts: seq<Action>, p: Pid)
    requires Idle(s) && p !in s.procs && forall a :: a in acts ==> !a.EditDisk?
    requires p in Run(server, s, acts).procs && Run(server, s, acts).procs[p].phase == Exited(true)
    ensures var t := Run(server, s, acts);
            && Discover(s.disk.entries).Success?
            && (forall f :: f in Discover(s.disk.entries).value ==> UpToDate(server, t.store, s.disk, f))
            && Migrate(server, s.store, s.disk) == Progress(t.store, None)
  {
    var t, files := Run(server, s, acts), Listing(s.disk);
    ListingIsDistinct(s.disk);
    IdleFollowsFromTheStart(server, s, files);
    SuccessIsTrue(server, s, files, acts, WithTable(s.store), 0, p);
    forall f | f in files ensures UpToDate(server, t.store, s.disk, f) {
      var m :| 0 <= m < |files| && files[m] == f;
    }
    EveryReachableStateConverges(server, s, acts);
    UpToDateIsSkipped(server, t.store, s.disk, files);
    assert WithTable(t.store) == t.store;
  }
}
