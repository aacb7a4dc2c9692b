/**
 Progress and whole runs of the protocol: what each commit achieves, and that a process left alone
 does exactly what the sequential meaning says.
 */
module ProtocolRuns {
  import opened Prelude
  import opened FileNames
  import opened Discovery
  import opened Migration
  import opened RunTheorems
  import opened Protocol
  import opened ProtocolConvergence

  // ---------------------------------------------------------------------------------------------
  // Progress
  // ---------------------------------------------------------------------------------------------

  lemma {:induction false} PendingUnaffected(files: seq<string>, history: map<string, Row>, v: string, row: Row)
    requires forall f :: f in files ==> Version(f) != v
    ensures Pending(files, history[v := row]) == Pending(files, history)
  {
    if files == [] {
    } else {
      PendingUnaffected(files[..|files| - 1], history, v, row);
    }
  }

  lemma {:induction false} PendingDropsOne(files: seq<string>, history: map<string, Row>, i: nat, row: Row)
    requires DistinctVersions(files) && i < |files| && Version(files[i]) !in history
    ensures |Pending(files, history[Version(files[i]) := row])| == |Pending(files, history)| - 1
    decreases |files|
  {
    var front := files[..|files| - 1];
    NewVersion(files);
    if i < |front| {
      PendingDropsOne(front, history, i, row);
      assert Version(files[|files| - 1]) != Version(files[i]);
    } else {
      PendingUnaffected(front, history, Version(files[i]), row);
    }
  }

  lemma CommitIsProgress(server: Server, t: State, files: seq<string>, start: Store, j: nat, p: Pid)
    requires FollowsRun(server, t, files, start, j) && IsCommit(t, Step(p))
    ensures var u := Next(server, t, Step(p));
            && |u.store.log| == |t.store.log| + 1 && t.store.log <= u.store.log
            && |Pending(files, u.store.history)| == |Pending(files, t.store.history)| - 1
  {
    var i := t.procs[p].phase.i;
    ReadyToCommit(server, t, files, p, start, j);
    CommitStep(server, t, p, files[i], t.disk.contents[files[i]]);
    PendingDropsOne(files, t.store.history, i, Row(files[i], server.hash(t.disk.contents[files[i]])));
  }

  /** In every reachable state over an unchanging directory, an action commits at most one effect, and
      the number of listed files not yet recorded falls by exactly one with a commit and stays the same
      otherwise. */
  lemma EveryCommitIsProgress(server: Server, s: State, acts: seq<Action>, a: Action)
    requires Idle(s) && !a.EditDisk? && forall b :: b in acts ==> !b.EditDisk?
    ensures var files, t, u := Listing(s.disk), Run(server, s, acts), Next(server, Run(server, s, acts), a);
            if IsCommit(t, a) then
              && |u.store.log| == |t.store.log| + 1 && t.store.log <= u.store.log
              && |Pending(files, u.store.history)| == |Pending(files, t.store.history)| - 1
            else
              u.store.log == t.store.log && Pending(files, u.store.history) == Pending(files, t.store.history)
  {
    var files, t := Listing(s.disk), Run(server, s, acts);
    ListingIsDistinct(s.disk);
    IdleFollowsFromTheStart(server, s, files);
    var j := RunKeepsFollowing(server, s, files, acts, WithTable(s.store), 0);
    if IsCommit(t, a) {
      CommitIsProgress(server, t, files, WithTable(s.store), j, a.p);
    } else {
      WhatElseHappens(server, t, a);
    }
  }

  // ---------------------------------------------------------------------------------------------
  // A process left alone
  // ---------------------------------------------------------------------------------------------

  function StepTimes(server: Server, s: State, p: Pid, m: nat): State
    decreases m
  {
    if m == 0 then s else StepTimes(server, Next(server, s, Step(p)), p, m - 1)
  }

  lemma {:induction false} StepTimesIsARun(server: Server, s: State, p: Pid, m: nat)
    ensures StepTimes(server, s, p, m) == Run(server, s, seq(m, _ => Step(p)))
    decreases m
  {
    var steps := seq(m, _ => Step(p));
    if m == 0 {
    } else {
      assert steps[1..] == seq(m - 1, _ => Step(p));
      StepTimesIsARun(server, Next(server, s, Step(p)), p, m - 1);
    }
  }

  lemma {:induction false} StepTimesAdds(server: Server, s: State, p: Pid, m: nat, n: nat)
    ensures StepTimes(server, s, p, m + n) == StepTimes(server, StepTimes(server, s, p, m), p, n)
    decreases m
  {
    if m == 0 {
    } else {
      StepTimesAdds(server, Next(server, s, Step(p)), p, m - 1, n);
    }
  }

  lemma {:induction false} ExitedStays(server: Server, s: State, p: Pid, m: nat)
    requires p in s.procs && s.procs[p].phase.Exited?
    ensures StepTimes(server, s, p, m) == s
    decreases m
  {
    if m == 0 {
    } else {
      assert Next(server, s, Step(p)) == s;
      ExitedStays(server, s, p, m - 1);
    }
  }

  lemma OneStep(server: Server, s: State, p: Pid, t: State)
    requires Next(server, s, Step(p)) == t
    ensures StepTimes(server, s, p, 1) == t
  {
    assert StepTimes(server, t, p, 0) == t;
  }

  lemma ThenOneStep(server: Server, s: State, p: Pid, m: nat, t: State, u: State)
    requires StepTimes(server, s, p, m) == t && Next(server, t, Step(p)) == u
    ensures StepTimes(server, s, p, m + 1) == u
  {
    StepTimesAdds(server, s, p, m, 1);
    OneStep(server, t, p, u);
  }

  /** Nobody else has a transaction open. */
  ghost predicate Alone(s: State, p: Pid) {
    p in s.procs && forall q :: q in s.procs && q != p ==> s.procs[q].phase.Exited?
  }

  lemma ToTwice(s: State, p: Pid, a: Phase, b: Phase)
    requires p in s.procs
    ensures To(To(s, p, a), p, b) == To(s, p, b)
  {
    assert To(To(s, p, a), p, b).procs == To(s, p, b).procs;
  }

  /** From the head of an iteration, at most six statements bring a process that is alone to the next
      one, or to its exit, with the store that one call of applyMigration gives. */
  lemma OneFile(server: Server, s: State, p: Pid, i: nat) returns (c: nat)
    requires Alone(s, p) && s.procs[p].phase == AtFile(i) && i < |s.procs[p].files|
    ensures 1 <= c <= 6
    ensures var (after, result) := ApplyFile(server, s.store, s.disk, s.procs[p].files[i]);
            StepTimes(server, s, p, c) == if result.Stopped? then Exit(s, p, false) else To(s.(store := after), p, AtFile(i + 1))
  {
    var f := s.procs[p].files[i];
    if !HasVersion(f) || f !in s.disk.contents {
      OneStep(server, s, p, Exit(s, p, false));
      return 1;
    }
    var b := s.disk.contents[f];
    var s1 := To(s, p, Summed(i, b));
    OneStep(server, s, p, s1);
    if !s.store.table {
      ExitAfter(s, p, Summed(i, b));
      ThenOneStep(server, s, p, 1, s1, Exit(s, p, false));
      c := 2;
    } else if Version(f) in s.store.history {
      c := 2;
      if s.store.history[Version(f)].checksum == server.hash(b) {
        ToTwice(s, p, Summed(i, b), AtFile(i + 1));
        ThenOneStep(server, s, p, 1, s1, To(s, p, AtFile(i + 1)));
        assert s.(store := s.store) == s;
      } else {
        ExitAfter(s, p, Summed(i, b));
        ThenOneStep(server, s, p, 1, s1, Exit(s, p, false));
      }
    } else {
      c := Transaction(server, s, p, i, b);
    }
  }

  lemma ExitAfter(s: State, p: Pid, a: Phase)
    requires p in s.procs
    ensures Exit(To(s, p, a), p, false) == Exit(s, p, false)
  {
    assert Exit(To(s, p, a), p, false).procs == Exit(s, p, false).procs;
  }

  /** The part of an iteration after the lookup has found nothing. */
  lemma Transaction(server: Server, s: State, p: Pid, i: nat, b: string) returns (c: nat)
    requires Alone(s, p) && s.procs[p].phase == AtFile(i) && i < |s.procs[p].files| && s.store.table
    requires HasVersion(s.procs[p].files[i]) && s.procs[p].files[i] in s.disk.contents && b == s.disk.contents[s.procs[p].files[i]]
    requires Version(s.procs[p].files[i]) !in s.store.history
    requires StepTimes(server, s, p, 1) == To(s, p, Summed(i, b))
    ensures 1 <= c <= 6
    ensures var (after, result) := ApplyFile(server, s.store, s.disk, s.procs[p].files[i]);
            StepTimes(server, s, p, c) == if result.Stopped? then Exit(s, p, false) else To(s.(store := after), p, AtFile(i + 1))
  {
    var f := s.procs[p].files[i];
    ToTwice(s, p, Summed(i, b), Missing(i, b));
    ThenOneStep(server, s, p, 1, To(s, p, Summed(i, b)), To(s, p, Missing(i, b)));
    ToTwice(s, p, Missing(i, b), SqlRead(i, b, b));
    ThenOneStep(server, s, p, 2, To(s, p, Missing(i, b)), To(s, p, SqlRead(i, b, b)));
    match server.exec(s.store.schema, b) {
      case None =>
        ExitAfter(s, p, SqlRead(i, b, b));
        ThenOneStep(server, s, p, 3, To(s, p, SqlRead(i, b, b)), Exit(s, p, false));
        c := 4;
      case Some(staged) =>
        ToTwice(s, p, SqlRead(i, b, b), Executed(i, b, b, s.store.schema, staged));
        ThenOneStep(server, s, p, 3, To(s, p, SqlRead(i, b, b)), To(s, p, Executed(i, b, b, s.store.schema, staged)));
        ToTwice(s, p, Executed(i, b, b, s.store.schema, staged), RowInserted(i, b, b, s.store.schema, staged));
        InsertGoesThrough(server, s, p, i, b, staged);
        ThenOneStep(server, s, p, 4, To(s, p, Executed(i, b, b, s.store.schema, staged)), To(s, p, RowInserted(i, b, b, s.store.schema, staged)));
        var after := ApplyFile(server, s.store, s.disk, f).0;
        CommitGoesThrough(server, s, p, i, b, staged);
        ThenOneStep(server, s, p, 5, To(s, p, RowInserted(i, b, b, s.store.schema, staged)), To(s.(store := after), p, AtFile(i + 1)));
        c := 6;
    }
  }

  lemma InsertGoesThrough(server: Server, s: State, p: Pid, i: nat, b: string, staged: Schema)
    requires Alone(s, p) && s.procs[p].phase == AtFile(i) && i < |s.procs[p].files|
    requires Version(s.procs[p].files[i]) !in s.store.history
    ensures Next(server, To(s, p, Executed(i, b, b, s.store.schema, staged)), Step(p)) == To(s, p, RowInserted(i, b, b, s.store.schema, staged))
  {
    var t := To(s, p, Executed(i, b, b, s.store.schema, staged));
    ToTwice(s, p, Executed(i, b, b, s.store.schema, staged), RowInserted(i, b, b, s.store.schema, staged));
    assert t.procs[p].Current() == s.procs[p].files[i];
    assert !InsertMustWait(t, p, Version(s.procs[p].files[i])) by {
      forall q | q in t.procs && q != p ensures !t.procs[q].phase.RowInserted? {
        assert t.procs[q] == s.procs[q];
      }
    }
  }

  lemma CommitGoesThrough(server: Server, s: State, p: Pid, i: nat, b: string, staged: Schema)
    requires p in s.procs && s.procs[p].phase == AtFile(i) && i < |s.procs[p].files| && s.store.table
    requires HasVersion(s.procs[p].files[i]) && ReadFile(s.disk, s.procs[p].files[i]) == Some(b)
    requires Version(s.procs[p].files[i]) !in s.store.history && server.exec(s.store.schema, b) == Some(staged)
    ensures Next(server, To(s, p, RowInserted(i, b, b, s.store.schema, staged)), Step(p))
            == To(s.(store := ApplyFile(server, s.store, s.disk, s.procs[p].files[i]).0), p, AtFile(i + 1))
  {
    var t := To(s, p, RowInserted(i, b, b, s.store.schema, staged));
    var after := ApplyFile(server, s.store, s.disk, s.procs[p].files[i]).0;
    assert t.procs[p].Current() == s.procs[p].files[i];
    assert after == Commit(server, s.store, Effect(Version(s.procs[p].files[i]), s.procs[p].files[i], b, b), staged);
    assert Next(server, t, Step(p)).procs == To(s.(store := after), p, AtFile(i + 1)).procs;
  }

  /** The process has exited, with the store and the outcome of a finished or stopped run. */
  ghost predicate EndsAs(t: State, p: Pid, end: Progress) {
    t.store == end.store && p in t.procs && t.procs[p].phase == Exited(end.fatal.None?)
  }

  lemma EndsEarly(server: Server, s: State, p: Pid, c: nat, t: State, end: Progress, m: nat)
    requires StepTimes(server, s, p, c) == t && c <= m && EndsAs(t, p, end)
    ensures EndsAs(StepTimes(server, s, p, m), p, end)
  {
    StepTimesAdds(server, s, p, c, m - c);
    ExitedStays(server, t, p, m - c);
  }

  lemma EndsLater(server: Server, s: State, p: Pid, c: nat, t: State, end: Progress, m: nat)
    requires StepTimes(server, s, p, c) == t && c <= m && EndsAs(StepTimes(server, t, p, m - c), p, end)
    ensures EndsAs(StepTimes(server, s, p, m), p, end)
  {
    StepTimesAdds(server, s, p, c, m - c);
  }

  /** One iteration, as part of the run: the process stops where the run stops, or is at the head of the
      next iteration with the store of the run. */
  lemma OneIteration(server: Server, s: State, p: Pid, start: Store, i: nat) returns (c: nat, t: State)
    requires Alone(s, p) && s.procs[p].phase == AtFile(i) && i < |s.procs[p].files|
    requires start.table && RunFiles(server, start, s.disk, s.procs[p].files[..i]) == Progress(s.store, None)
    ensures 1 <= c <= 6 && t == StepTimes(server, s, p, c)
    ensures t.disk == s.disk && Alone(t, p) && t.procs[p].files == s.procs[p].files
    ensures var next := RunFiles(server, start, s.disk, s.procs[p].files[..i + 1]);
            if next.fatal.Some? then EndsAs(t, p, next) else next == Progress(t.store, None) && t.procs[p].phase == AtFile(i + 1)
  {
    var f := s.procs[p].files[i];
    RunExtends(server, start, s.disk, s.procs[p].files[..i]);
    c := OneFile(server, s, p, i);
    t := StepTimes(server, s, p, c);
    RunOneMore(server, start, s.disk, s.procs[p].files, i);
    CallIsAllOrNothing(server, s.store, f, ReadFile(s.disk, f), ReadFile(s.disk, f), Healthy);
  }

  lemma LastIteration(server: Server, s: State, p: Pid, m: nat)
    requires p in s.procs && s.procs[p].phase == AtFile(|s.procs[p].files|) && m > 0
    ensures EndsAs(StepTimes(server, s, p, m), p, Progress(s.store, None))
  {
    OneStep(server, s, p, Exit(s, p, true));
    EndsEarly(server, s, p, 1, Exit(s, p, true), Progress(s.store, None), m);
  }

  lemma AllFiles(server: Server, s: State, p: Pid, start: Store, i: nat, m: nat)
    requires Alone(s, p) && s.procs[p].phase == AtFile(i) && i <= |s.procs[p].files|
    requires start.table && RunFiles(server, start, s.disk, s.procs[p].files[..i]) == Progress(s.store, None)
    requires m >= 6 * (|s.procs[p].files| - i) + 1
    ensures EndsAs(StepTimes(server, s, p, m), p, RunFiles(server, start, s.disk, s.procs[p].files))
    decreases |s.procs[p].files| - i, 1
  {
    if i == |s.procs[p].files| {
      LastIteration(server, s, p, m);
      assert s.procs[p].files[..i] == s.procs[p].files;
    } else {
      var c, t := OneIteration(server, s, p, start, i);
      RemainingFiles(server, s, p, start, i, m, c, t);
    }
  }

  lemma RemainingFiles(server: Server, s: State, p: Pid, start: Store, i: nat, m: nat, c: nat, t: State)
    requires p in s.procs && i < |s.procs[p].files| && start.table
    requires m >= 6 * (|s.procs[p].files| - i) + 1 && c <= 6 && StepTimes(server, s, p, c) == t
    requires t.disk == s.disk && Alone(t, p) && t.procs[p].files == s.procs[p].files
    requires var next := RunFiles(server, start, s.disk, s.procs[p].files[..i + 1]);
             if next.fatal.Some? then EndsAs(t, p, next) else next == Progress(t.store, None) && t.procs[p].phase == AtFile(i + 1)
    ensures EndsAs(StepTimes(server, s, p, m), p, RunFiles(server, start, s.disk, s.procs[p].files))
    decreases |s.procs[p].files| - i, 0
  {
    if RunFiles(server, start, s.disk, s.procs[p].files[..i + 1]).fatal.Some? {
      FatalSticks(server, start, s.disk, s.procs[p].files, i + 1);
      EndsEarly(server, s, p, c, t, RunFiles(server, start, s.disk, s.procs[p].files), m);
    } else {
      FilesFrom(server, s, p, start, i + 1, m, c, t);
    }
  }

  lemma FilesFrom(server: Server, s: State, p: Pid, start: Store, i: nat, m: nat, c: nat, t: State)
    requires StepTimes(server, s, p, c) == t && Alone(t, p) && t.procs[p].phase == AtFile(i) && i <= |t.procs[p].files|
    requires start.table && RunFiles(server, start, t.disk, t.procs[p].files[..i]) == Progress(t.store, None)
    requires m >= c + 6 * (|t.procs[p].files| - i) + 1
    ensures EndsAs(StepTimes(server, s, p, m), p, RunFiles(server, start, t.disk, t.procs[p].files))
    decreases |t.procs[p].files| - i, 2
  {
    AllFiles(server, t, p, start, i, m - c);
    EndsLater(server, s, p, c, t, RunFiles(server, start, t.disk, t.procs[p].files), m);
  }

  /** The actions of a process that nobody disturbs: it starts, and takes m statements. */
  function Undisturbed(p: Pid, m: nat): seq<Action> { [Start(p)] + seq(m, _ => Step(p)) }

  /** A new process that nobody disturbs, started when no process is working, does exactly what the
      sequential meaning says, with success as its exit exactly if that run has no fatal error; six
      statements per file and four more are enough. */
  lemma UndisturbedProcessIsMigrate(server: Server, s: State, p: Pid, m: nat)
    requires Idle(s) && p !in s.procs && m >= 6 * |Listing(s.disk)| + 4
    ensures EndsAs(Run(server, s, Undisturbed(p, m)), p, Migrate(server, s.store, s.disk))
  {
    var s0 := Next(server, s, Start(p));
    var s3 := Next(server, Next(server, Next(server, s0, Step(p)), Step(p)), Step(p));
    assert Undisturbed(p, m)[1..] == seq(m, _ => Step(p));
    StepTimesIsARun(server, s0, p, m);
    ThreeSteps(server, s0, p);
    FirstThree(server, s, p);
    AfterListing(server, s.store, s0, 3, s3, p, m);
  }

  lemma ThreeSteps(server: Server, s: State, p: Pid)
    ensures StepTimes(server, s, p, 3) == Next(server, Next(server, Next(server, s, Step(p)), Step(p)), Step(p))
  {
    var s1 := Next(server, s, Step(p));
    var s2 := Next(server, s1, Step(p));
    OneStep(server, s, p, s1);
    ThenOneStep(server, s, p, 1, s1, s2);
    ThenOneStep(server, s, p, 2, s2, Next(server, s2, Step(p)));
  }

  lemma AfterListing(server: Server, store: Store, s: State, c: nat, t: State, p: Pid, m: nat)
    requires StepTimes(server, s, p, c) == t && m >= c + 6 * |Listing(t.disk)| + 1
    requires Alone(t, p) && t.store == WithTable(store)
    requires if Discover(t.disk.entries).Success? then t.procs[p] == Proc(Listing(t.disk), AtFile(0)) else t.procs[p].phase == Exited(false)
    ensures EndsAs(StepTimes(server, s, p, m), p, Migrate(server, store, t.disk))
  {
    if Discover(t.disk.entries).Success? {
      assert t.procs[p].files[..0] == [];
      FilesFrom(server, s, p, WithTable(store), 0, m, c, t);
    } else {
      EndsEarly(server, s, p, c, t, Migrate(server, store, t.disk), m);
    }
  }

  lemma FirstThree(server: Server, s: State, p: Pid)
    requires Idle(s) && p !in s.procs
    ensures var t := Next(server, Next(server, Next(server, Next(server, s, Start(p)), Step(p)), Step(p)), Step(p));
            && Alone(t, p) && t.store == WithTable(s.store) && t.disk == s.disk
            && (if Discover(s.disk.entries).Success? then t.procs[p] == Proc(Listing(s.disk), AtFile(0)) else t.procs[p].phase == Exited(false))
  {
    var s0 := Next(server, s, Start(p));
    assert s0.procs[p].phase.Started?;
    var s1 := Next(server, s0, Step(p));
    assert s1.procs[p].phase.Locked?;
    var s2 := Next(server, s1, Step(p));
    assert s2.procs[p].phase.TableReady?;
  }

  /** Crash and restart, in full: whatever overlapping, crashing and lock-losing processes have done
      over a directory that does not change, once nobody is working a new process that is not disturbed
      leaves the database, and reports the outcome, that it would have at the very beginning; and after
      it yet another one changes nothing. */
  lemma CrashRestartConverges(server: Server, s: State, acts: seq<Action>, p: Pid, m: nat)
    requires Idle(s) && forall a :: a in acts ==> !a.EditDisk?
    requires Idle(Run(server, s, acts)) && p !in Run(server, s, acts).procs && p !in s.procs
    requires m >= 6 * |Listing(s.disk)| + 4
    ensures var restarted := Run(server, Run(server, s, acts), Undisturbed(p, m));
            var direct := Run(server, s, Undisturbed(p, m));
            && restarted.store == direct.store
            && p in restarted.procs && p in direct.procs && restarted.procs[p].phase == direct.procs[p].phase
            && Migrate(server, restarted.store, s.disk).store == restarted.store
  {
    var t := Run(server, s, acts);
    DiskStays(server, s, acts);
    EveryReachableStateConverges(server, s, acts);
    UndisturbedProcessIsMigrate(server, s, p, m);
    UndisturbedProcessIsMigrate(server, t, p, m);
    RerunIsIdempotent(server, s.store, s.disk);
  }
}
