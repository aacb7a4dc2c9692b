/**
 Progress of the migrator protocol under any interleaving: a process takes a bounded number of
 statements whatever the others do, waits only for the primary key, and is let go by the holder's next
 statement or by its end.
 */
module ProtocolProgress {
  import opened FileNames
  import opened Migration
  import opened Protocol
  import opened ProtocolSafety
  import opened ProtocolConvergence

  // ---------------------------------------------------------------------------------------------
  // How much a process can still do
  // ---------------------------------------------------------------------------------------------

  /** Files of the list from index i on. */
  function FilesLeft(files: seq<string>, i: nat): nat {
    if i < |files| then |files| - i else 0
  }

  /** The most statements the process can still take, not counting those that wait; `listed` is the number
      of files it will find if it has not listed the directory yet. */
  function Remaining(listed: nat, proc: Proc): nat {
    match proc.phase
    case Started => 6 * listed + 4
    case Locked => 6 * listed + 3
    case TableReady => 6 * listed + 2
    case AtFile(i) => 6 * FilesLeft(proc.files, i) + 1
    case Summed(i, _) => 6 * FilesLeft(proc.files, i + 1) + 6
    case Missing(i, _) => 6 * FilesLeft(proc.files, i + 1) + 5
    case SqlRead(i, _, _) => 6 * FilesLeft(proc.files, i + 1) + 4
    case Executed(i, _, _, _, _) => 6 * FilesLeft(proc.files, i + 1) + 3
    case RowInserted(i, _, _, _, _) => 6 * FilesLeft(proc.files, i + 1) + 2
    case Exited(_) => 0
  }

  /** The process has listed the directory, so that edits no longer change what it will work on. */
  predicate HasListed(phase: Phase) { InFile(phase) || phase.Exited? }

  /** The insert of p has to wait for another open transaction. */
  ghost predicate Waits(s: State, p: Pid) {
    && p in s.procs && s.procs[p].phase.Executed?
    && Version(s.procs[p].Current()) !in s.store.history
    && InsertMustWait(s, p, Version(s.procs[p].Current()))
  }

  /** The process is running and does not wait. */
  ghost predicate CanMove(s: State, p: Pid) {
    p in s.procs && !s.procs[p].phase.Exited? && !Waits(s, p)
  }

  /** From one state of a process to its next one something is used up. */
  ghost predicate UsesUp(listed: nat, before: Proc, after: Proc) {
    Remaining(listed, after) < Remaining(listed, before) && (HasListed(before.phase) ==> HasListed(after.phase))
  }

  lemma StartingUsesUp(server: Server, s: State, p: Pid, listed: nat)
    requires p in s.procs && (s.procs[p].phase.Started? || s.procs[p].phase.Locked?)
    ensures UsesUp(listed, s.procs[p], StepOf(server, s, p).procs[p])
  {
  }

  lemma ListingUsesUp(server: Server, s: State, p: Pid, listed: nat)
    requires p in s.procs && s.procs[p].phase.TableReady? && listed == |Listing(s.disk)|
    ensures UsesUp(listed, s.procs[p], StepOf(server, s, p).procs[p])
  {
  }

  lemma LookingUsesUp(server: Server, s: State, p: Pid, listed: nat)
    requires p in s.procs && (s.procs[p].phase.AtFile? || s.procs[p].phase.Summed? || s.procs[p].phase.Missing?)
    ensures UsesUp(listed, s.procs[p], StepOf(server, s, p).procs[p])
  {
  }

  lemma InsertingUsesUp(server: Server, s: State, p: Pid, listed: nat)
    requires CanMove(s, p) && s.procs[p].phase.Executed?
    ensures UsesUp(listed, s.procs[p], StepOf(server, s, p).procs[p])
  {
  }

  lemma ApplyingUsesUp(server: Server, s: State, p: Pid, listed: nat)
    requires p in s.procs && (s.procs[p].phase.SqlRead? || s.procs[p].phase.RowInserted?)
    ensures UsesUp(listed, s.procs[p], StepOf(server, s, p).procs[p])
  {
  }

  lemma MovingUsesUp(server: Server, s: State, p: Pid, listed: nat)
    requires CanMove(s, p) && (s.procs[p].phase.TableReady? ==> listed == |Listing(s.disk)|)
    ensures UsesUp(listed, s.procs[p], StepOf(server, s, p).procs[p])
  {
    match s.procs[p].phase {
      case Started => StartingUsesUp(server, s, p, listed);
      case Locked => StartingUsesUp(server, s, p, listed);
      case TableReady => ListingUsesUp(server, s, p, listed);
      case AtFile(_) => LookingUsesUp(server, s, p, listed);
      case Summed(_, _) => LookingUsesUp(server, s, p, listed);
      case Missing(_, _) => LookingUsesUp(server, s, p, listed);
      case SqlRead(_, _, _) => ApplyingUsesUp(server, s, p, listed);
      case Executed(_, _, _, _, _) => InsertingUsesUp(server, s, p, listed);
      case RowInserted(_, _, _, _, _) => ApplyingUsesUp(server, s, p, listed);
    }
  }

  lemma WaitingChangesNothing(server: Server, s: State, p: Pid)
    requires p in s.procs && !CanMove(s, p)
    ensures StepOf(server, s, p) == s
  {
  }

  /** The statements that p takes in a run and that do not wait. */
  ghost function Moves(server: Server, s: State, acts: seq<Action>, p: Pid): nat
    decreases |acts|
  {
    if acts == [] then 0
    else (if acts[0] == Step(p) && CanMove(s, p) then 1 else 0) + Moves(server, Next(server, s, acts[0]), acts[1..], p)
  }

  lemma ActionUsesUp(server: Server, s: State, a: Action, p: Pid, listed: nat)
    requires p in s.procs && (HasListed(s.procs[p].phase) || (listed == |Listing(s.disk)| && !a.EditDisk?))
    ensures p in Next(server, s, a).procs
    ensures var proc := Next(server, s, a).procs[p];
            && (if a == Step(p) && CanMove(s, p) then 1 else 0) + Remaining(listed, proc) <= Remaining(listed, s.procs[p])
            && (HasListed(proc.phase) || (listed == |Listing(Next(server, s, a).disk)| && !HasListed(s.procs[p].phase)))
  {
    if a == Step(p) {
      if CanMove(s, p) {
        MovingUsesUp(server, s, p, listed);
      } else {
        WaitingChangesNothing(server, s, p);
      }
    } else if a != Crash(p) {
      OthersStay(server, s, a, p);
    }
    if !a.EditDisk? {
      OnlyEditsTouchTheDisk(server, s, a);
    }
  }

  /** No process runs for ever: whatever others do, whoever crashes or loses the lock, and, once it has
      listed the directory, however files change, p takes no more statements than remained to it, not
      counting those that wait, and when it has taken these it has exited. A new process has six for each
      file and four more. */
  lemma EveryProcessIsBounded(server: Server, s: State, acts: seq<Action>, p: Pid)
    requires p in s.procs && (HasListed(s.procs[p].phase) || forall a :: a in acts ==> !a.EditDisk?)
    ensures p in Run(server, s, acts).procs
    ensures var listed := |Listing(s.disk)|;
            && Moves(server, s, acts, p) <= Remaining(listed, s.procs[p])
            && (Moves(server, s, acts, p) == Remaining(listed, s.procs[p]) ==> Run(server, s, acts).procs[p].phase.Exited?)
  {
    var listed := |Listing(s.disk)|;
    MovesAndRemaining(server, s, acts, p, listed);
    NothingRemains(listed, Run(server, s, acts).procs[p]);
  }

  lemma NothingRemains(listed: nat, proc: Proc)
    ensures Remaining(listed, proc) == 0 <==> proc.phase.Exited?
  {
  }

  lemma {:induction false} MovesAndRemaining(server: Server, s: State, acts: seq<Action>, p: Pid, listed: nat)
    requires p in s.procs
    requires HasListed(s.procs[p].phase) || (listed == |Listing(s.disk)| && forall a :: a in acts ==> !a.EditDisk?)
    ensures p in Run(server, s, acts).procs
    ensures Moves(server, s, acts, p) + Remaining(listed, Run(server, s, acts).procs[p]) <= Remaining(listed, s.procs[p])
    decreases |acts|
  {
    if acts == [] {
    } else {
      ActionUsesUp(server, s, acts[0], p, listed);
      MovesAndRemaining(server, Next(server, s, acts[0]), acts[1..], p, listed);
    }
  }

  // ---------------------------------------------------------------------------------------------
  // Waiting
  // ---------------------------------------------------------------------------------------------

  /** The process that p waits for. */
  ghost predicate WaitsFor(s: State, p: Pid, q: Pid) {
    Waits(s, p) && q != p && HasInserted(s, q, Version(s.procs[p].Current()))
  }

  lemma NobodyElseHolds(s: State, t: State, p: Pid, q: Pid, v: string)
    requires KeysAreExclusive(s) && HasInserted(s, q, v) && q in t.procs && !HasInserted(t, q, v)
    requires t.procs.Keys == s.procs.Keys && forall r :: r in s.procs && r != q ==> t.procs[r] == s.procs[r]
    ensures !InsertMustWait(t, p, v)
  {
    forall r | r in t.procs && r != p ensures !HasInserted(t, r, v) {
      assert r != q ==> (HasInserted(t, r, v) <==> HasInserted(s, r, v));
    }
  }

  /** Waiting ends with the next statement of the holder, which never waits itself: it commits, and the
      one that waited then fails on the key. If the holder dies instead, the one that waited gets its
      row in. */
  lemma HolderLetsGo(server: Server, s: State, p: Pid, q: Pid)
    requires KeysAreExclusive(s) && WaitsFor(s, p, q)
    ensures CanMove(s, q)
    ensures var t := Next(server, s, Step(q));
            CanMove(t, p) && Next(server, t, Step(p)).procs[p].phase == Exited(false)
    ensures var t := Next(server, s, Crash(q));
            CanMove(t, p) && Next(server, t, Step(p)).procs[p].phase.RowInserted?
  {
    AfterItsCommit(server, s, p, q);
    AfterItsEnd(server, s, p, q);
  }

  lemma AfterItsCommit(server: Server, s: State, p: Pid, q: Pid)
    requires WaitsFor(s, p, q)
    ensures var t := Next(server, s, Step(q));
            CanMove(t, p) && Next(server, t, Step(p)).procs[p].phase == Exited(false)
  {
    var t, v := Next(server, s, Step(q)), Version(s.procs[p].Current());
    OthersStay(server, s, Step(q), p);
    assert v in t.store.history;
  }

  lemma AfterItsEnd(server: Server, s: State, p: Pid, q: Pid)
    requires KeysAreExclusive(s) && WaitsFor(s, p, q)
    ensures var t := Next(server, s, Crash(q));
            CanMove(t, p) && Next(server, t, Step(p)).procs[p].phase.RowInserted?
  {
    var t, v := Next(server, s, Crash(q)), Version(s.procs[p].Current());
    NobodyElseHolds(s, t, p, q, v);
    assert t.procs[p] == s.procs[p] && t.store == s.store;
  }

  /** No deadlock: as long as some process has not exited, some process can move. */
  lemma SomebodyCanMove(s: State)
    requires exists p :: p in s.procs && !s.procs[p].phase.Exited?
    ensures exists q :: CanMove(s, q)
  {
    var p :| p in s.procs && !s.procs[p].phase.Exited?;
    if Waits(s, p) {
      var q :| q in s.procs && q != p && HasInserted(s, q, Version(s.procs[p].Current()));
      assert CanMove(s, q);
    } else {
      assert CanMove(s, p);
    }
  }

  // ---------------------------------------------------------------------------------------------
  // Coming to rest
  // ---------------------------------------------------------------------------------------------

  /** What remains to all of `ps`. */
  function Total(listed: nat, procs: map<Pid, Proc>, ps: seq<Pid>): nat
    requires forall p :: p in ps ==> p in procs
  {
    if ps == [] then 0 else Remaining(listed, procs[ps[0]]) + Total(listed, procs, ps[1..])
  }

  /** A move takes something from the total. */
  lemma {:induction false} MoveLowersTotal(listed: nat, procs: map<Pid, Proc>, p: Pid, proc: Proc, ps: seq<Pid>)
    requires p in procs && Remaining(listed, proc) < Remaining(listed, procs[p])
    requires forall q :: q in ps ==> q in procs
    ensures Total(listed, procs[p := proc], ps) <= Total(listed, procs, ps)
    ensures p in ps ==> Total(listed, procs[p := proc], ps) < Total(listed, procs, ps)
  {
    if ps == [] {
    } else {
      MoveLowersTotal(listed, procs, p, proc, ps[1..]);
      assert ps == [ps[0]] + ps[1..];
    }
  }

  /** If the lock is held, its holder is working; that stays so even when lock sessions are lost. */
  ghost predicate HolderWorks(s: State) {
    s.lock.Some? ==> s.lock.value in s.procs && Working(s.procs[s.lock.value].phase)
  }

  lemma StepKeepsHolder(server: Server, s: State, p: Pid)
    requires p in s.procs && HolderWorks(s)
    ensures HolderWorks(StepOf(server, s, p))
  {
  }

  lemma HolderStillWorks(server: Server, s: State, a: Action)
    requires HolderWorks(s)
    ensures HolderWorks(Next(server, s, a))
  {
    if a.Step? && a.p in s.procs {
      StepKeepsHolder(server, s, a.p);
    }
  }

  lemma {:induction false} HolderAlwaysWorks(server: Server, s: State, acts: seq<Action>)
    requires HolderWorks(s)
    ensures HolderWorks(Run(server, s, acts))
    decreases |acts|
  {
    if acts == [] {
    } else {
      HolderStillWorks(server, s, acts[0]);
      HolderAlwaysWorks(server, Next(server, s, acts[0]), acts[1..]);
    }
  }

  lemma StepChangesOne(server: Server, s: State, p: Pid)
    requires p in s.procs
    ensures var t := Next(server, s, Step(p));
            t.disk == s.disk && t.procs == s.procs[p := StepOf(server, s, p).procs[p]]
  {
    var t := Next(server, s, Step(p));
    forall q | q in s.procs && q != p ensures t.procs[q] == s.procs[q] {
      OthersStay(server, s, Step(p), q);
    }
  }

  lemma AMove(server: Server, s: State, p: Pid, ps: seq<Pid>, listed: nat)
    requires CanMove(s, p) && p in ps && listed == |Listing(s.disk)|
    requires forall q :: q in s.procs <==> q in ps
    ensures var t := Next(server, s, Step(p));
            t.procs.Keys == s.procs.Keys && t.disk == s.disk && Total(listed, t.procs, ps) < Total(listed, s.procs, ps)
  {
    StepChangesOne(server, s, p);
    MovingUsesUp(server, s, p, listed);
    MoveLowersTotal(listed, s.procs, p, StepOf(server, s, p).procs[p], ps);
  }

  /** Steps alone, at most as many as remain to all processes together, bring them all to their ends. */
  lemma {:induction false} StepsToTheEnd(server: Server, s: State, ps: seq<Pid>, listed: nat) returns (acts: seq<Action>)
    requires HolderWorks(s) && listed == |Listing(s.disk)| && forall q :: q in s.procs <==> q in ps
    ensures (forall a :: a in acts ==> a.Step?) && |acts| <= Total(listed, s.procs, ps)
    ensures Idle(Run(server, s, acts))
    decreases Total(listed, s.procs, ps)
  {
    if p :| p in s.procs && !s.procs[p].phase.Exited? {
      SomebodyCanMove(s);
      var q :| CanMove(s, q);
      AMove(server, s, q, ps, listed);
      HolderStillWorks(server, s, Step(q));
      var rest := StepsToTheEnd(server, Next(server, s, Step(q)), ps, listed);
      acts := [Step(q)] + rest;
      assert acts[1..] == rest;
    } else {
      acts := [];
    }
  }

  lemma {:induction false} ListTheProcesses(ids: set<Pid>) returns (ps: seq<Pid>)
    ensures forall p :: p in ids <==> p in ps
  {
    if p :| p in ids {
      var rest := ListTheProcesses(ids - {p});
      ps := [p] + rest;
    } else {
      ps := [];
    }
  }

  /** Every reachable state can come to rest by statements alone, without a crash, even if locks were
      lost and files edited on the way to it. */
  lemma EveryReachableStateCanComeToRest(server: Server, s: State, acts: seq<Action>)
    requires HolderWorks(s)
    ensures exists more: seq<Action> :: (forall a :: a in more ==> a.Step?) && Idle(Run(server, Run(server, s, acts), more))
  {
    HolderAlwaysWorks(server, s, acts);
    var t := Run(server, s, acts);
    var ps := ListTheProcesses(t.procs.Keys);
    var more := StepsToTheEnd(server, t, ps, |Listing(t.disk)|);
  }
}
