/**
 Any number of migrator processes over one database, as a state machine. A process takes its
 statements one at a time; between any two of them other processes run, processes die, a database
 session that holds the lock is lost, and files on disk change.
 */
module Protocol {
  import opened Prelude
  import opened FileNames
  import opened Discovery
  import opened Migration

  type Pid = nat

  /** Where a process is. `i` is the index of the file it works on, `summed` and `sql` are what its
      two reads of that file returned, `base` is the committed schema its open transaction executed on,
      and `staged` is what the transaction made of it. */
  datatype Phase =
    | Started
    | Locked
    | TableReady
    | AtFile(i: nat)
    | Summed(i: nat, summed: string)
    | Missing(i: nat, summed: string)
    | SqlRead(i: nat, summed: string, sql: string)
    | Executed(i: nat, summed: string, sql: string, base: Schema, staged: Schema)
    | RowInserted(i: nat, summed: string, sql: string, base: Schema, staged: Schema)
    | Exited(ok: bool)

  datatype Proc = Proc(files: seq<string>, phase: Phase) {
    /** The file the process works on. */
    function Current(): string {
      if InFile(phase) && phase.i < |files| then files[phase.i] else ""
    }
  }

  datatype State = State(disk: Disk, store: Store, lock: Option<Pid>, procs: map<Pid, Proc>)

  datatype Action =
    | Start(p: Pid)
    | Step(p: Pid)
    | Crash(p: Pid)
    | LoseLockSession
    | EditDisk(disk: Disk)

  /** The process is in the loop of main. */
  predicate InFile(phase: Phase) {
    phase.AtFile? || phase.Summed? || phase.Missing? || phase.SqlRead? || phase.Executed? || phase.RowInserted?
  }

  /** The process is between taking the lock and exiting. */
  predicate Working(phase: Phase) { !phase.Started? && !phase.Exited? }

  function To(s: State, p: Pid, phase: Phase): State
    requires p in s.procs
  {
    s.(procs := s.procs[p := s.procs[p].(phase := phase)])
  }

  /** The end of a process, normal or not: its sessions end, which frees its lock and discards its
      uncommitted transaction. */
  function Exit(s: State, p: Pid, ok: bool): State
    requires p in s.procs
  {
    To(s.(lock := if s.lock == Some(p) then None else s.lock), p, Exited(ok))
  }

  /** The open transaction of p has inserted a row with this version. */
  predicate HasInserted(s: State, p: Pid, version: string) {
    p in s.procs && s.procs[p].phase.RowInserted? && Version(s.procs[p].Current()) == version
  }

  /** Another open transaction has inserted a row with this version, so an insert has to wait. */
  predicate InsertMustWait(s: State, p: Pid, version: string) {
    exists q :: q in s.procs && q != p && HasInserted(s, q, version)
  }

  /** The schema after a commit: what the transaction staged if nothing was committed since it executed,
      and otherwise whatever the database makes of both. */
  function Landed(server: Server, current: Schema, base: Schema, staged: Schema): Schema {
    if current == base then staged else server.merge(current, base, staged)
  }

  /** The next statement of process p. */
  function StepOf(server: Server, s: State, p: Pid): (t: State)
    requires p in s.procs
    ensures t.procs.Keys == s.procs.Keys && t.disk == s.disk
  {
    var proc := s.procs[p];
    var filename := proc.Current();
    match proc.phase
    case Started =>
      if s.lock.None? then To(s.(lock := Some(p)), p, Locked) else Exit(s, p, false)
    case Locked =>
      To(s.(store := WithTable(s.store)), p, TableReady)
    case TableReady =>
      (match Discover(s.disk.entries)
       case Failure(_) => Exit(s, p, false)
       case Success(files) => s.(procs := s.procs[p := Proc(files, AtFile(0))]))
    case AtFile(i) =>
      if i >= |proc.files| then Exit(s, p, true)
      else if !HasVersion(filename) || ReadFile(s.disk, filename).None? then Exit(s, p, false)
      else To(s, p, Summed(i, ReadFile(s.disk, filename).value))
    case Summed(i, summed) =>
      if !s.store.table then Exit(s, p, false)
      else if Version(filename) !in s.store.history then To(s, p, Missing(i, summed))
      else if s.store.history[Version(filename)].checksum == server.hash(summed) then To(s, p, AtFile(i + 1))
      else Exit(s, p, false)
    case Missing(i, summed) =>
      (match ReadFile(s.disk, filename)
       case None => Exit(s, p, false)
       case Some(sql) => To(s, p, SqlRead(i, summed, sql)))
    case SqlRead(i, summed, sql) =>
      (match server.exec(s.store.schema, sql)
       case None => Exit(s, p, false)
       case Some(staged) => To(s, p, Executed(i, summed, sql, s.store.schema, staged)))
    case Executed(i, summed, sql, base, staged) =>
      if Version(filename) in s.store.history then Exit(s, p, false)
      else if InsertMustWait(s, p, Version(filename)) then s
      else To(s, p, RowInserted(i, summed, sql, base, staged))
    case RowInserted(i, summed, sql, base, staged) =>
      var schema := Landed(server, s.store.schema, base, staged);
      To(s.(store := Commit(server, s.store, Effect(Version(filename), filename, summed, sql), schema)), p, AtFile(i + 1))
    case Exited(_) => s
  }

  function Next(server: Server, s: State, a: Action): (t: State)
    ensures s.procs.Keys <= t.procs.Keys
  {
    match a
    case Start(p) => if p in s.procs then s else s.(procs := s.procs[p := Proc([], Started)])
    case Step(p) => if p in s.procs then StepOf(server, s, p) else s
    case Crash(p) => if p in s.procs && !s.procs[p].phase.Exited? then Exit(s, p, false) else s
    case LoseLockSession => s.(lock := None)
    case EditDisk(disk) => s.(disk := disk)
  }

  /** The state after a sequence of actions. A state is reachable when some sequence leads to it. */
  function Run(server: Server, s: State, acts: seq<Action>): State
    decreases |acts|
  {
    if acts == [] then s else Run(server, Next(server, s, acts[0]), acts[1..])
  }

  /** The action is the commit of an open transaction. */
  ghost predicate IsCommit(s: State, a: Action) {
    a.Step? && a.p in s.procs && s.procs[a.p].phase.RowInserted?
  }

  /** No process is in the middle of anything. */
  ghost predicate Idle(s: State) {
    s.lock.None? && forall p :: p in s.procs ==> s.procs[p].phase.Exited?
  }

  // ---------------------------------------------------------------------------------------------
  // What single actions can do
  // ---------------------------------------------------------------------------------------------

  /** Committed state changes only by creating the history table or by a commit; nothing else a
      process does, and no crash, touches it. */
  lemma OnlyCommitsChangeTheStore(server: Server, s: State, a: Action)
    ensures var t := Next(server, s, a);
            || t.store == s.store
            || (a.Step? && a.p in s.procs && s.procs[a.p].phase.Locked? && t.store == WithTable(s.store))
            || (a.Step? && a.p in s.procs && s.procs[a.p].phase.RowInserted? &&
                var proc := s.procs[a.p];
                t.store == Commit(server, s.store, Effect(Version(proc.Current()), proc.Current(), proc.phase.summed, proc.phase.sql),
                                  Landed(server, s.store.schema, proc.phase.base, proc.phase.staged)))
  {
  }

  /** An action moves at most the process it names. */
  lemma OthersStay(server: Server, s: State, a: Action, q: Pid)
    requires q in s.procs && a != Step(q) && a != Crash(q)
    ensures q in Next(server, s, a).procs && Next(server, s, a).procs[q] == s.procs[q]
  {
  }

  /** What an edit leaves on disk is what a process that lists the directory then works on. */
  lemma EditsAreListed(server: Server, s: State, p: Pid, edited: Disk)
    requires p in s.procs && s.procs[p].phase.TableReady?
    ensures var t := Run(server, s, [EditDisk(edited), Step(p)]);
            && t.disk == edited && p in t.procs
            && t.procs[p] == (if Discover(edited.entries).Success? then Proc(Discover(edited.entries).value, AtFile(0))
                              else Proc(s.procs[p].files, Exited(false)))
  {
    var s1 := Next(server, s, EditDisk(edited));
    assert [EditDisk(edited), Step(p)][1..] == [Step(p)];
    assert Run(server, s1, [Step(p)]) == Next(server, s1, Step(p));
  }

  /** Why the next statement of a process makes it stop with an error. */
  ghost predicate HasReasonToStop(server: Server, s: State, proc: Proc) {
    var f := proc.Current();
    match proc.phase
    case Started => s.lock.Some?
    case TableReady => Discover(s.disk.entries).Failure?
    case AtFile(i) => i < |proc.files| && ('_' !in f || f !in s.disk.contents)
    case Summed(_, summed) =>
      !s.store.table || (Version(f) in s.store.history && s.store.history[Version(f)].checksum != server.hash(summed))
    case Missing(_, _) => f !in s.disk.contents
    case SqlRead(_, _, sql) => server.exec(s.store.schema, sql).None?
    case Executed(_, _, _, _, _) => Version(f) in s.store.history
    case _ => false
  }

  /** A process stops with an error exactly when it has one of these reasons, and with success exactly at
      the end of its list. */
  lemma StopsExactlyWithReason(server: Server, s: State, p: Pid)
    requires p in s.procs && !s.procs[p].phase.Exited?
    ensures Next(server, s, Step(p)).procs[p].phase == Exited(false) <==> HasReasonToStop(server, s, s.procs[p])
    ensures Next(server, s, Step(p)).procs[p].phase == Exited(true) <==> s.procs[p].phase.AtFile? && s.procs[p].phase.i >= |s.procs[p].files|
  {
    NameRoundTrip(s.procs[p].Current(), [], []);
  }

  /** Success is reported only by a process at the end of its list: whoever is refused the lock, stopped
      by an error or killed exits with failure. */
  lemma OnlyFinishersSucceed(server: Server, s: State, a: Action, p: Pid)
    requires p in Next(server, s, a).procs && Next(server, s, a).procs[p].phase == Exited(true)
    requires p in s.procs ==> s.procs[p].phase != Exited(true)
    ensures a == Step(p) && p in s.procs && s.procs[p].phase.AtFile? && s.procs[p].phase.i >= |s.procs[p].files|
  {
  }

  /** A process that finds the lock taken ends with failure and changes nothing else. */
  lemma RefusedProcessFails(server: Server, s: State, p: Pid)
    requires p in s.procs && s.procs[p].phase.Started? && s.lock.Some? && s.lock != Some(p)
    ensures Next(server, s, Step(p)) == s.(procs := s.procs[p := s.procs[p].(phase := Exited(false))])
  {
  }

  /** A process that is killed ends with failure, its lock is free again, and its transaction is gone. */
  lemma CrashEndsTheProcess(server: Server, s: State, p: Pid)
    requires p in s.procs && !s.procs[p].phase.Exited?
    ensures Next(server, s, Crash(p))
            == State(s.disk, s.store, if s.lock == Some(p) then None else s.lock, s.procs[p := s.procs[p].(phase := Exited(false))])
  {
  }

  /** A lost lock session lets the next process in. */
  lemma LostLockLetsOthersIn(server: Server, s: State, q: Pid)
    requires q in s.procs && s.procs[q].phase.Started?
    ensures Run(server, s, [LoseLockSession, Step(q)])
            == s.(lock := Some(q), procs := s.procs[q := s.procs[q].(phase := Locked)])
  {
    var s1 := Next(server, s, LoseLockSession);
    assert [LoseLockSession, Step(q)][1..] == [Step(q)];
    assert Run(server, s1, [Step(q)]) == Next(server, s1, Step(q));
  }

  /** So without the premise of mutual exclusion there are reachable states with two working processes. */
  lemma TwoCanWork(server: Server, s: State, p: Pid, q: Pid)
    requires Idle(s) && p != q && p !in s.procs && q !in s.procs
    ensures var t := Run(server, s, [Start(p), Step(p), Start(q), LoseLockSession, Step(q)]);
            p in t.procs && q in t.procs && Working(t.procs[p].phase) && Working(t.procs[q].phase)
  {
    var s1 := Next(server, s, Start(p));
    var s2 := Next(server, s1, Step(p));
    var s3 := Next(server, s2, Start(q));
    assert s2.procs[p].phase.Locked?;
    LostLockLetsOthersIn(server, s3, q);
    assert [Start(p), Step(p), Start(q), LoseLockSession, Step(q)][1..] == [Step(p), Start(q), LoseLockSession, Step(q)];
    assert [Step(p), Start(q), LoseLockSession, Step(q)][1..] == [Start(q), LoseLockSession, Step(q)];
    assert [Start(q), LoseLockSession, Step(q)][1..] == [LoseLockSession, Step(q)];
    assert Run(server, s2, [Start(q), LoseLockSession, Step(q)]) == Run(server, s3, [LoseLockSession, Step(q)]);
    assert Run(server, s1, [Step(p), Start(q), LoseLockSession, Step(q)]) == Run(server, s2, [Start(q), LoseLockSession, Step(q)]);
  }

  /** The schema after a commit: the staged one, unless another commit has replaced the schema that the
      transaction executed on; then it is what the database makes of both. */
  lemma WhatACommitLeaves(server: Server, s: State, p: Pid)
    requires IsCommit(s, Step(p))
    ensures var phase, t := s.procs[p].phase, Next(server, s, Step(p));
            && (phase.base == s.store.schema ==> t.store.schema == phase.staged)
            && (phase.base != s.store.schema ==> t.store.schema == server.merge(s.store.schema, phase.base, phase.staged))
  {
  }

  // ---------------------------------------------------------------------------------------------
  // Mutual exclusion
  // ---------------------------------------------------------------------------------------------

  /** The lock is held exactly by the process that is working, if there is one. */
  ghost predicate LockIsRight(s: State) {
    && (forall p :: p in s.procs && Working(s.procs[p].phase) ==> s.lock == Some(p))
    && (s.lock.Some? ==> s.lock.value in s.procs && Working(s.procs[s.lock.value].phase))
  }

  lemma LockStaysRight(server: Server, s: State, a: Action)
    requires LockIsRight(s) && !a.LoseLockSession?
    ensures LockIsRight(Next(server, s, a))
  {
  }

  /** While lock sessions stay alive, in every reachable state at most one process is anywhere between
      taking the lock and exiting, the lock is free exactly when no process is, and only the process
      that holds the lock can change the database. */
  lemma {:induction false} MutualExclusion(server: Server, s: State, acts: seq<Action>)
    requires LockIsRight(s) && LoseLockSession !in acts
    ensures var t := Run(server, s, acts);
            && (forall p, q :: p in t.procs && q in t.procs && Working(t.procs[p].phase) && Working(t.procs[q].phase) ==> p == q)
            && (t.lock.None? <==> forall p :: p in t.procs ==> !Working(t.procs[p].phase))
            && (forall a :: Next(server, t, a).store != t.store ==> a.Step? && t.lock == Some(a.p))
    decreases |acts|
  {
    if acts == [] {
      forall a | Next(server, s, a).store != s.store ensures a.Step? && s.lock == Some(a.p) {
        OnlyCommitsChangeTheStore(server, s, a);
      }
    } else {
      LockStaysRight(server, s, acts[0]);
      MutualExclusion(server, Next(server, s, acts[0]), acts[1..]);
    }
  }
}
