/**
 What holds in every reachable state of the migrator protocol, whatever happens to lock sessions and
 to the files on disk.
 */
module ProtocolSafety {
  import opened Prelude
  import opened FileNames
  import opened Migration
  import opened RunTheorems
  import opened Protocol

  // ---------------------------------------------------------------------------------------------
  // At most once, for every version
  // ---------------------------------------------------------------------------------------------

  /** The primary key at work: a row inserted in an open transaction has a version that is neither
      committed nor inserted by another open transaction. */
  ghost predicate KeysAreExclusive(s: State) {
    && (forall p, v :: HasInserted(s, p, v) ==> v !in s.store.history)
    && (forall p, q, v :: HasInserted(s, p, v) && HasInserted(s, q, v) ==> p == q)
  }

  lemma HowAStepInserts(server: Server, s: State, p: Pid, v: string)
    requires p in s.procs && HasInserted(StepOf(server, s, p), p, v)
    ensures !InsertMustWait(s, p, v) && v !in s.store.history
    ensures StepOf(server, s, p).store == s.store
  {
  }

  /** An inserted row was there before or has just been let in. */
  lemma HowRowsGetIn(server: Server, s: State, a: Action, p: Pid, v: string)
    requires HasInserted(Next(server, s, a), p, v)
    ensures if a == Step(p) then !InsertMustWait(s, p, v) && v !in s.store.history && Next(server, s, a).store == s.store
            else HasInserted(s, p, v)
  {
    if a == Step(p) {
      HowAStepInserts(server, s, p, v);
    } else if p in s.procs && a != Crash(p) {
      OthersStay(server, s, a, p);
    }
  }

  /** Where a commit comes from, and that it ends its claim. */
  lemma HowVersionsGetIn(server: Server, s: State, a: Action, v: string)
    requires v in Next(server, s, a).store.history && v !in s.store.history
    ensures a.Step? && HasInserted(s, a.p, v) && !HasInserted(Next(server, s, a), a.p, v)
  {
  }

  lemma KeysStayExclusive(server: Server, s: State, a: Action)
    requires KeysAreExclusive(s)
    ensures KeysAreExclusive(Next(server, s, a))
  {
    var t := Next(server, s, a);
    forall p, v | HasInserted(t, p, v) ensures v !in t.store.history {
      HowRowsGetIn(server, s, a, p, v);
      if v in t.store.history && v !in s.store.history {
        HowVersionsGetIn(server, s, a, v);
      }
    }
    forall p, q, v | HasInserted(t, p, v) && HasInserted(t, q, v) ensures p == q {
      HowRowsGetIn(server, s, a, p, v);
      HowRowsGetIn(server, s, a, q, v);
    }
  }

  /** In every reachable state of every mix of processes, crashes, lost lock sessions and file edits:
      no version has taken effect twice, the history is exactly the record of the committed effects
      with the checksums of the bytes read first, and nothing recorded before has changed. */
  lemma {:induction false} EveryVersionAtMostOnce(server: Server, s: State, acts: seq<Action>)
    requires Books(server, s.store) && KeysAreExclusive(s)
    ensures Books(server, Run(server, s, acts).store) && KeysAreExclusive(Run(server, s, acts))
    ensures Extends(WithTable(Run(server, s, acts).store), WithTable(s.store))
    decreases |acts|
  {
    if acts == [] {
    } else {
      var t := Next(server, s, acts[0]);
      KeysStayExclusive(server, s, acts[0]);
      ActionKeepsBooks(server, s, acts[0]);
      EveryVersionAtMostOnce(server, t, acts[1..]);
    }
  }

  lemma ActionKeepsBooks(server: Server, s: State, a: Action)
    requires Books(server, s.store) && KeysAreExclusive(s)
    ensures Books(server, Next(server, s, a).store)
    ensures Extends(WithTable(Next(server, s, a).store), WithTable(s.store))
  {
    OnlyCommitsChangeTheStore(server, s, a);
    if a.Step? && a.p in s.procs && s.procs[a.p].phase.RowInserted? {
      var proc := s.procs[a.p];
      assert HasInserted(s, a.p, Version(proc.Current()));
      CommitKeepsBooks(server, s.store, Effect(Version(proc.Current()), proc.Current(), proc.phase.summed, proc.phase.sql),
                       Landed(server, s.store.schema, proc.phase.base, proc.phase.staged));
    }
  }

  // ---------------------------------------------------------------------------------------------
  // Honest checksums
  // ---------------------------------------------------------------------------------------------

  /** The action does not change a file between the two reads of a process that is working on it. */
  ghost predicate QuietAction(s: State, a: Action) {
    a.EditDisk? ==>
      forall p :: p in s.procs && (s.procs[p].phase.Summed? || s.procs[p].phase.Missing?) ==>
        ReadFile(a.disk, s.procs[p].Current()) == ReadFile(s.disk, s.procs[p].Current())
  }

  ghost predicate QuietRun(server: Server, s: State, acts: seq<Action>)
    decreases |acts|
  {
    acts == [] || (QuietAction(s, acts[0]) && QuietRun(server, Next(server, s, acts[0]), acts[1..]))
  }

  /** What the process has read once is still on disk until it reads again, and both reads agree. */
  ghost predicate ReadsOfAgree(disk: Disk, proc: Proc) {
    match proc.phase
    case Summed(_, summed) => ReadFile(disk, proc.Current()) == Some(summed)
    case Missing(_, summed) => ReadFile(disk, proc.Current()) == Some(summed)
    case SqlRead(_, summed, sql) => sql == summed
    case Executed(_, summed, sql, _, _) => sql == summed
    case RowInserted(_, summed, sql, _, _) => sql == summed
    case _ => true
  }

  ghost predicate ReadsAgree(s: State) {
    forall p :: p in s.procs ==> ReadsOfAgree(s.disk, s.procs[p])
  }

  lemma ReadsOfStayAgreed(server: Server, s: State, p: Pid)
    requires p in s.procs && ReadsOfAgree(s.disk, s.procs[p])
    ensures ReadsOfAgree(s.disk, StepOf(server, s, p).procs[p])
  {
  }

  lemma ReadsStayAgreed(server: Server, s: State, a: Action)
    requires ReadsAgree(s) && QuietAction(s, a)
    ensures ReadsAgree(Next(server, s, a))
  {
    var t := Next(server, s, a);
    forall p | p in t.procs ensures ReadsOfAgree(t.disk, t.procs[p]) {
      if p in s.procs {
        if a == Step(p) {
          ReadsOfStayAgreed(server, s, p);
        } else if a != Crash(p) {
          OthersStay(server, s, a, p);
        }
      }
    }
  }

  lemma ActionStaysHonest(server: Server, s: State, a: Action)
    requires Honest(s.store) && ReadsAgree(s)
    ensures Honest(Next(server, s, a).store)
  {
  }

  /** The history row of every effect has the checksum of the bytes that were executed. */
  ghost predicate RowsAreTrue(server: Server, store: Store) {
    forall e :: e in store.log ==> e.version in store.history && store.history[e.version].checksum == server.hash(e.sql)
  }

  /** If no file changes between the two reads of a call that works on it, then in every reachable
      state every history row holds the checksum of the bytes whose effect was committed. */
  lemma {:induction false} ChecksumsAreHonest(server: Server, s: State, acts: seq<Action>)
    requires Books(server, s.store) && KeysAreExclusive(s) && Honest(s.store) && ReadsAgree(s)
    requires QuietRun(server, s, acts)
    ensures RowsAreTrue(server, Run(server, s, acts).store)
    decreases |acts|
  {
    if acts == [] {
    } else {
      var t := Next(server, s, acts[0]);
      ReadsStayAgreed(server, s, acts[0]);
      KeysStayExclusive(server, s, acts[0]);
      ActionKeepsBooks(server, s, acts[0]);
      ActionStaysHonest(server, s, acts[0]);
      ChecksumsAreHonest(server, t, acts[1..]);
    }
  }

  lemma OneMoreEffect(log: seq<Effect>, effect: Effect, e: Effect)
    ensures e in log + [effect] <==> e in log || e == effect
  {
    assert (log + [effect])[|log|] == effect;
    if i :| 0 <= i < |log| && log[i] == e {
      assert (log + [effect])[i] == e;
    }
  }

  lemma RowsAfterCommit(server: Server, store: Store, effect: Effect, schema: Schema)
    requires Books(server, store) && effect.version !in store.history
    ensures RowsAreTrue(server, Commit(server, store, effect, schema))
            <==> RowsAreTrue(server, store) && server.hash(effect.sql) == server.hash(effect.summed)
  {
    var after := Commit(server, store, effect, schema);
    forall e ensures e in after.log <==> e in store.log || e == effect {
      OneMoreEffect(store.log, effect, e);
    }
  }

  /** A commit keeps the books honest exactly if its bytes agree, and the rows true exactly if their
      checksums do. */
  lemma HonestyOfACommit(server: Server, store: Store, effect: Effect, schema: Schema)
    requires Books(server, store) && effect.version !in store.history
    ensures Honest(Commit(server, store, effect, schema)) <==> Honest(store) && effect.sql == effect.summed
    ensures RowsAreTrue(server, Commit(server, store, effect, schema))
            <==> RowsAreTrue(server, store) && server.hash(effect.sql) == server.hash(effect.summed)
  {
    forall e ensures e in store.log + [effect] <==> e in store.log || e == effect {
      OneMoreEffect(store.log, effect, e);
    }
    RowsAfterCommit(server, store, effect, schema);
  }

  lemma EditedCommit(server: Server, s: State, p: Pid, edited: Disk)
    requires p in s.procs && s.procs[p].phase.Missing?
    requires s.procs[p].Current() in edited.contents
    requires Version(s.procs[p].Current()) !in s.store.history
    requires !InsertMustWait(s, p, Version(s.procs[p].Current()))
    requires server.exec(s.store.schema, edited.contents[s.procs[p].Current()]).Some?
    ensures var filename := s.procs[p].Current();
            Run(server, s, [EditDisk(edited), Step(p), Step(p), Step(p), Step(p)]).store
            == Commit(server, s.store, Effect(Version(filename), filename, s.procs[p].phase.summed, edited.contents[filename]),
                      server.exec(s.store.schema, edited.contents[filename]).value)
  {
    var s1 := Next(server, s, EditDisk(edited));
    var s2 := Next(server, s1, Step(p));
    assert s2.procs[p].Current() == s.procs[p].Current();
    var s3 := Next(server, s2, Step(p));
    assert s3.procs[p].Current() == s.procs[p].Current();
    assert !InsertMustWait(s3, p, Version(s.procs[p].Current())) by {
      forall q | q in s3.procs && q != p ensures s3.procs[q] == s.procs[q] {}
    }
    var s4 := Next(server, s3, Step(p));
    assert s4.procs[p].Current() == s.procs[p].Current();
    FiveActions(server, s, EditDisk(edited), Step(p), Step(p), Step(p), Step(p));
  }

  /** Without that condition the claim fails: let a file change to the bytes in `edited` in the window
      between the two reads. If the transaction then goes through, its row has the checksum of the bytes
      that were read first while the new ones took effect. The bytes still agree exactly if the edit left
      the file as it was, and the rows are still true exactly if the checksum cannot tell the difference. */
  lemma EditInTheWindow(server: Server, s: State, p: Pid, edited: Disk)
    requires Books(server, s.store)
    requires p in s.procs && s.procs[p].phase.Missing?
    requires s.procs[p].Current() in edited.contents
    requires Version(s.procs[p].Current()) !in s.store.history
    requires !InsertMustWait(s, p, Version(s.procs[p].Current()))
    requires server.exec(s.store.schema, edited.contents[s.procs[p].Current()]).Some?
    ensures var t := Run(server, s, [EditDisk(edited), Step(p), Step(p), Step(p), Step(p)]);
            var filename, x := s.procs[p].Current(), s.procs[p].phase.summed;
            && t.store.log == s.store.log + [Effect(Version(filename), filename, x, edited.contents[filename])]
            && t.store.history == s.store.history[Version(filename) := Row(filename, server.hash(x))]
            && (Honest(t.store) <==> Honest(s.store) && edited.contents[filename] == x)
            && (RowsAreTrue(server, t.store)
                <==> RowsAreTrue(server, s.store) && server.hash(edited.contents[filename]) == server.hash(x))
  {
    var filename := s.procs[p].Current();
    var sql := edited.contents[filename];
    EditedCommit(server, s, p, edited);
    HonestyOfACommit(server, s.store, Effect(Version(filename), filename, s.procs[p].phase.summed, sql), server.exec(s.store.schema, sql).value);
  }

  lemma FiveActions(server: Server, s: State, a: Action, b: Action, c: Action, d: Action, e: Action)
    ensures Run(server, s, [a, b, c, d, e])
            == Next(server, Next(server, Next(server, Next(server, Next(server, s, a), b), c), d), e)
  {
    var s1 := Next(server, s, a);
    var s2 := Next(server, s1, b);
    var s3 := Next(server, s2, c);
    var s4 := Next(server, s3, d);
    assert [a, b, c, d, e][1..] == [b, c, d, e];
    assert [b, c, d, e][1..] == [c, d, e];
    assert [c, d, e][1..] == [d, e];
    assert [d, e][1..] == [e];
    assert Run(server, s4, [e]) == Next(server, s4, e);
    assert Run(server, s3, [d, e]) == Run(server, s4, [e]);
    assert Run(server, s2, [c, d, e]) == Run(server, s3, [d, e]);
    assert Run(server, s1, [b, c, d, e]) == Run(server, s2, [c, d, e]);
  }

  // ---------------------------------------------------------------------------------------------
  // Serial execution
  // ---------------------------------------------------------------------------------------------

  /** The transaction has executed its SQL and is still open. */
  predicate HasExecuted(phase: Phase) { phase.Executed? || phase.RowInserted? }

  ghost predicate StagedFromBase(server: Server, proc: Proc) {
    HasExecuted(proc.phase) ==> server.exec(proc.phase.base, proc.phase.sql) == Some(proc.phase.staged)
  }

  /** What an open transaction has staged is what its SQL makes of the schema it executed on. */
  ghost predicate AllStagedFromBase(server: Server, s: State) {
    forall p :: p in s.procs ==> StagedFromBase(server, s.procs[p])
  }

  lemma StepStagesFromBase(server: Server, s: State, p: Pid)
    requires p in s.procs && StagedFromBase(server, s.procs[p])
    ensures StagedFromBase(server, StepOf(server, s, p).procs[p])
  {
  }

  lemma StagedStaysFromBase(server: Server, s: State, a: Action)
    requires AllStagedFromBase(server, s)
    ensures AllStagedFromBase(server, Next(server, s, a))
  {
    forall p | p in Next(server, s, a).procs ensures StagedFromBase(server, Next(server, s, a).procs[p]) {
      if p in s.procs && a == Step(p) {
        StepStagesFromBase(server, s, p);
      } else if p in s.procs && a != Crash(p) {
        OthersStay(server, s, a, p);
      }
    }
  }

  /** If the action commits, the schema is still the one its transaction executed on. */
  ghost predicate FreshCommit(s: State, a: Action) {
    IsCommit(s, a) ==> s.procs[a.p].phase.base == s.store.schema
  }

  ghost predicate CommitsAreFresh(server: Server, s: State, acts: seq<Action>)
    decreases |acts|
  {
    acts == [] || (FreshCommit(s, acts[0]) && CommitsAreFresh(server, Next(server, s, acts[0]), acts[1..]))
  }

  /** The committed schema is the result of executing the committed SQL one after the other, in the order
      in which it was committed. */
  ghost predicate Serial(server: Server, initial: Schema, store: Store) {
    ExecAll(server, initial, store.log) == Some(store.schema)
  }

  lemma FreshCommitKeepsSerial(server: Server, s: State, a: Action, initial: Schema)
    requires AllStagedFromBase(server, s) && FreshCommit(s, a) && Serial(server, initial, s.store)
    ensures Serial(server, initial, Next(server, s, a).store)
  {
    var t := Next(server, s, a);
    OnlyCommitsChangeTheStore(server, s, a);
    if t.store.log != s.store.log {
      assert t.store.log[..|t.store.log| - 1] == s.store.log;
    }
  }

  /** Serial execution: whatever the lock does, whatever directories and contents the processes find, and
      whatever the database makes of commits that overlap, the schema stays the serial result as long as
      nobody commits on a schema that has been replaced since it executed. */
  lemma {:induction false} FreshCommitsAreSerial(server: Server, s: State, acts: seq<Action>, initial: Schema)
    requires AllStagedFromBase(server, s) && CommitsAreFresh(server, s, acts) && Serial(server, initial, s.store)
    ensures Serial(server, initial, Run(server, s, acts).store)
    decreases |acts|
  {
    if acts == [] {
    } else {
      StagedStaysFromBase(server, s, acts[0]);
      FreshCommitKeepsSerial(server, s, acts[0], initial);
      FreshCommitsAreSerial(server, Next(server, s, acts[0]), acts[1..], initial);
    }
  }

  // Three conditions each of which makes all commits fresh: that none falls between the execution and
  // the end of another transaction, that lock sessions stay alive, and, in ProtocolConvergence, that the
  // directory does not change.

  /** Every open transaction that has executed did so on the schema that is committed now. */
  ghost predicate BasesAreCurrent(s: State) {
    forall p :: p in s.procs && HasExecuted(s.procs[p].phase) ==> s.procs[p].phase.base == s.store.schema
  }

  /** If the action commits, no other transaction is between its execution and its end. */
  ghost predicate CommitsAlone(s: State, a: Action) {
    IsCommit(s, a) ==> forall q :: q in s.procs && q != a.p ==> !HasExecuted(s.procs[q].phase)
  }

  ghost predicate NoCommitOverlaps(server: Server, s: State, acts: seq<Action>)
    decreases |acts|
  {
    acts == [] || (CommitsAlone(s, acts[0]) && NoCommitOverlaps(server, Next(server, s, acts[0]), acts[1..]))
  }

  lemma StepKeepsBaseCurrent(server: Server, s: State, p: Pid)
    requires p in s.procs && (HasExecuted(s.procs[p].phase) ==> s.procs[p].phase.base == s.store.schema)
    ensures var t := StepOf(server, s, p);
            HasExecuted(t.procs[p].phase) ==> t.procs[p].phase.base == t.store.schema
  {
  }

  lemma BasesStayCurrent(server: Server, s: State, a: Action)
    requires BasesAreCurrent(s) && CommitsAlone(s, a)
    ensures BasesAreCurrent(Next(server, s, a))
  {
    var t := Next(server, s, a);
    OnlyCommitsChangeTheStore(server, s, a);
    forall p | p in t.procs && HasExecuted(t.procs[p].phase) ensures t.procs[p].phase.base == t.store.schema {
      if a == Step(p) {
        StepKeepsBaseCurrent(server, s, p);
      } else if p in s.procs && a != Crash(p) {
        OthersStay(server, s, a, p);
      }
    }
  }

  /** Commits are fresh if each falls outside the time between the execution and the end of every other
      transaction; that needs no lock. */
  lemma {:induction false} FreshIfNoneOverlaps(server: Server, s: State, acts: seq<Action>)
    requires BasesAreCurrent(s) && NoCommitOverlaps(server, s, acts)
    ensures CommitsAreFresh(server, s, acts)
    decreases |acts|
  {
    if acts == [] {
    } else {
      BasesStayCurrent(server, s, acts[0]);
      FreshIfNoneOverlaps(server, Next(server, s, acts[0]), acts[1..]);
    }
  }

  /** With live lock sessions none overlaps. */
  lemma {:induction false} NoneOverlapsUnderTheLock(server: Server, s: State, acts: seq<Action>)
    requires LockIsRight(s) && LoseLockSession !in acts
    ensures NoCommitOverlaps(server, s, acts)
    decreases |acts|
  {
    if acts == [] {
    } else {
      LockStaysRight(server, s, acts[0]);
      NoneOverlapsUnderTheLock(server, Next(server, s, acts[0]), acts[1..]);
    }
  }

  /** While lock sessions stay alive, whatever directories and file contents the processes find, the
      committed schema is always the serial result: no commit is based on a schema that another one has
      replaced. */
  lemma SchemaIsSerial(server: Server, s: State, acts: seq<Action>, initial: Schema)
    requires LockIsRight(s) && AllStagedFromBase(server, s) && BasesAreCurrent(s) && LoseLockSession !in acts
    requires Serial(server, initial, s.store)
    ensures Serial(server, initial, Run(server, s, acts).store)
  {
    NoneOverlapsUnderTheLock(server, s, acts);
    FreshIfNoneOverlaps(server, s, acts);
    FreshCommitsAreSerial(server, s, acts, initial);
  }
}
