/**
 restore-seed as the imperative program it is: one transaction over the tables, statement by
 statement, committed at the end or thrown away.
 */
module RestoreProgram {
  import opened Prelude
  import opened SeedTables
  import opened SeedRestore

  /** The calls that can fail, in order. When the answer to the commit is lost, the commit has been made,
      although the program reports a failure. */
  datatype Call =
    | Begin
    | ClearingJournals
    | RemovingAccounts
    | RestoringCompany
    | RestoringAccounts
    | RestoringDocumentTypes
    | Committing
    | AnsweringCommit

  function Rank(call: Call): nat {
    match call
    case Begin => 0
    case ClearingJournals => 1
    case RemovingAccounts => 2
    case RestoringCompany => 3
    case RestoringAccounts => 4
    case RestoringDocumentTypes => 5
    case Committing => 6
    case AnsweringCommit => 7
  }

  /** A constraint of the database refuses the statement. The condition is about the tables that the
      program starts from, not about what earlier statements have made of them. */
  ghost predicate Refused(call: Call, t: Tables, seed: Seed, q: Sequences) {
    match call
    case ClearingJournals => !NoReversalOfSeedEntries(t)
    case RemovingAccounts => !NoLineUsesSeedAccounts(t)
    case RestoringCompany => !CompanyIdIsFree(t, q.company)
    case RestoringAccounts => !AccountIdsAreFree(t, seed, q.account)
    case _ => false
  }

  /** `failed` is the first call that breaks on its own or is refused, if there is one. */
  ghost predicate FirstFailure(failed: Option<Call>, broken: set<Call>, t: Tables, seed: Seed, q: Sequences) {
    match failed
    case None => forall c :: c !in broken && !Refused(c, t, seed, q)
    case Some(call) =>
      && (call in broken || Refused(call, t, seed, q))
      && forall c :: Rank(c) < Rank(call) ==> c !in broken && !Refused(c, t, seed, q)
  }

  /** The commit has been made. */
  predicate HasCommitted(failed: Option<Call>) { failed.None? || failed == Some(AnsweringCommit) }

  /** The call at which the transaction stops, read off its statements in sequence. */
  function StopsAt(broken: set<Call>, t: Tables, seed: Seed, q: Sequences): Option<Call>
    requires UniqueCompanyCodes(t.companies)
  {
    DeletesKeepCompanies(t);
    if Begin in broken then Some(Begin)
    else if ClearingJournals in broken || ClearJournals(t).None? then Some(ClearingJournals)
    else if RemovingAccounts in broken || Deletes(t).None? then Some(RemovingAccounts)
    else if RestoringCompany in broken || RestoreCompany(Deletes(t).value, q.company).None? then Some(RestoringCompany)
    else if RestoringAccounts in broken || AccountsRestored(Deletes(t).value, seed, q).None? then Some(RestoringAccounts)
    else if RestoringDocumentTypes in broken then Some(RestoringDocumentTypes)
    else if Committing in broken then Some(Committing)
    else if AnsweringCommit in broken then Some(AnsweringCommit)
    else None
  }

  /** It stops at the first call that breaks or is refused. */
  lemma StopsAtFirstFailure(broken: set<Call>, t: Tables, seed: Seed, q: Sequences)
    requires Sound(t) && DistinctCodes(seed.accounts)
    ensures FirstFailure(StopsAt(broken, t, seed, q), broken, t, seed, q)
  {
    WhereItFails(t, seed, q);
    var failed := StopsAt(broken, t, seed, q);
    forall c | failed.None? || Rank(c) < Rank(failed.value) ensures c !in broken && !Refused(c, t, seed, q) {
      match c {
        case Begin =>
        case ClearingJournals =>
        case RemovingAccounts =>
        case RestoringCompany =>
        case RestoringAccounts =>
        case RestoringDocumentTypes =>
        case Committing =>
        case AnsweringCommit =>
      }
    }
  }

  class SeedDatabase {
    var tables: Tables
    var sequences: Sequences

    constructor (tables: Tables, sequences: Sequences)
      ensures this.tables == tables && this.sequences == sequences
    {
      this.tables := tables;
      this.sequences := sequences;
    }

    /** main: `broken` are the calls that fail on their own, besides those that a constraint refuses. The
        program reports the first failing call. If the commit is made, the tables are restored; otherwise
        they are as they were, and at most ids have been used up. */
    method RestoreSeed(broken: set<Call>) returns (failed: Option<Call>)
      requires Sound(tables)
      modifies this
      ensures FirstFailure(failed, broken, old(tables), SEED, old(sequences))
      ensures failed.None? || failed == Some(AnsweringCommit) ==> Restored(old(tables), tables, SEED) && RowsRestored(old(tables), tables, SEED)
      ensures failed.Some? && failed != Some(AnsweringCommit) ==> tables == old(tables)
      ensures HasCommitted(failed) ==> Restore(old(tables), SEED, old(sequences)) == Some(tables) && sequences == After(old(sequences), SEED)
      ensures old(sequences).company <= sequences.company <= After(old(sequences), SEED).company
      ensures old(sequences).account <= sequences.account <= After(old(sequences), SEED).account
      ensures Sound(tables)
    {
      SeedCodesDiffer();
      StopsAtFirstFailure(broken, tables, SEED, sequences);
      RestoreIsExact(tables, SEED, sequences);
      RestoreRowByRow(tables, SEED, sequences);
      failed := RunTransaction(SEED, broken);
    }

    /** The transaction: `tx` is what its statements see and change, and the commit makes it the tables. */
    method RunTransaction(seed: Seed, broken: set<Call>) returns (failed: Option<Call>)
      requires UniqueCompanyCodes(tables.companies)
      modifies this
      ensures failed == StopsAt(broken, old(tables), seed, old(sequences))
      ensures if HasCommitted(failed) then Restore(old(tables), seed, old(sequences)) == Some(tables) else tables == old(tables)
      ensures HasCommitted(failed) ==> sequences == After(old(sequences), seed)
      ensures old(sequences).company <= sequences.company <= After(old(sequences), seed).company
      ensures old(sequences).account <= sequences.account <= After(old(sequences), seed).account
    {
      if Begin in broken { return Some(Begin); }
      var tx := tables;

      if ClearingJournals in broken { return Some(ClearingJournals); }
      var cleared := ClearJournals(tx);
      if cleared.None? { return Some(ClearingJournals); }
      tx := cleared.value;

      if RemovingAccounts in broken { return Some(RemovingAccounts); }
      var removed := DeleteAccounts(tx);
      if removed.None? { return Some(RemovingAccounts); }
      tx := removed.value;

      if RestoringCompany in broken { return Some(RestoringCompany); }
      var company := RestoreCompany(tx, sequences.company);
      sequences := sequences.(company := sequences.company + 1);
      if company.None? { return Some(RestoringCompany); }
      tx := company.value;

      if RestoringAccounts in broken { return Some(RestoringAccounts); }
      var accounts := RestoreAccounts(tx, seed, sequences.account);
      sequences := sequences.(account := sequences.account + |seed.accounts|);
      if accounts.None? { return Some(RestoringAccounts); }
      tx := accounts.value;

      if RestoringDocumentTypes in broken { return Some(RestoringDocumentTypes); }
      tx := RestoreDocumentTypes(tx, seed);

      if Committing in broken { return Some(Committing); }
      tables := tx;
      return if AnsweringCommit in broken then Some(AnsweringCommit) else None;
    }
  }

  /** Restoring until it works: whatever broke the first time, even if only the answer to the commit was
      lost, a second restore that nothing breaks leaves the tables restored, provided that ids only ever
      come from the sequences and nothing that stays refers to seed rows. */
  method RestoreAgain(db: SeedDatabase, broken: set<Call>) returns (failed: Option<Call>)
    requires Sound(db.tables) && Ahead(db.tables, db.sequences) && NothingRefersToSeedRows(db.tables)
    modifies db
    ensures failed.None?
    ensures Restored(old(db.tables), db.tables, SEED)
  {
    ghost var start, q := db.tables, db.sequences;
    failed := db.RestoreSeed(broken);
    ghost var middle := db.tables;
    if HasCommitted(failed) {
      SequencesStayAhead(start, middle, SEED, q);
      NothingRefersAfterRestore(start, middle, SEED);
    }
    AheadIsFree(middle, SEED, db.sequences);
    ghost var committed := HasCommitted(failed);
    failed := db.RestoreSeed({});
    if committed {
      RestoredInTwoSteps(start, middle, db.tables, SEED);
    }
  }
}
