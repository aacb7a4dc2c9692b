/**
 The whole restore: its statements in sequence inside one transaction, exactly when it succeeds, what
 it leaves, and what it leaves alone.
 */
module SeedRestore {
  import opened Prelude
  import opened SeedTables

  // ---------------------------------------------------------------------------------------------
  // What a restore is supposed to do
  // ---------------------------------------------------------------------------------------------

  /** The chart of accounts of the seed company, without the ids of its rows. */
  function Chart(t: Tables): set<SeedAccount> {
    set i | i in SeedAccountIds(t) :: SeedAccount(t.accounts[i].code, t.accounts[i].name, t.accounts[i].kind)
  }

  /** `after` is `before` restored: there is exactly one seed company, with the seed data, under the id
      it had if it was there; it has no journal entries and no lines, and exactly the listed accounts,
      once each; document types that were there are unchanged and the missing ones are there; every
      row of every other company is as it was, and no other row has appeared. */
  ghost predicate Restored(before: Tables, after: Tables, seed: Seed) {
    && Sound(after)
    && (exists id :: SeedIds(after.companies) == {id} && SeedIds(before.companies) <= {id}
                      && (id in before.companies ==> id in SeedIds(before.companies))
                      && after.companies == before.companies[id := SEED_COMPANY])
    && SeedEntries(after) == {} && after.entries == before.entries - SeedEntries(before)
    && SeedLines(after) == {} && after.lines == before.lines - SeedLines(before)
    && (forall s :: s in Chart(after) <==> s in seed.accounts) && |SeedAccountIds(after)| == |seed.accounts|
    && after.accounts - SeedAccountIds(after) == before.accounts - SeedAccountIds(before)
    && after.documentTypes.Keys == before.documentTypes.Keys + seed.documentTypes.Keys
    && (forall c :: c in before.documentTypes ==> after.documentTypes[c] == before.documentTypes[c])
    && (forall c :: c in seed.documentTypes && c !in before.documentTypes ==> after.documentTypes[c] == seed.documentTypes[c])
  }

  /** No journal entry that stays reverses one that goes. */
  ghost predicate NoReversalOfSeedEntries(t: Tables) {
    forall i :: i in t.entries && i !in SeedEntries(t) && t.entries[i].reverses.Some? ==> t.entries[i].reverses.value !in SeedEntries(t)
  }

  /** No line that stays uses an account that goes. */
  ghost predicate NoLineUsesSeedAccounts(t: Tables) {
    forall i :: i in t.lines && i !in SeedLines(t) ==> t.lines[i].accountId !in SeedAccountIds(t)
  }

  /** The id drawn for the company is free, if a new one is needed. */
  ghost predicate CompanyIdIsFree(t: Tables, next: int) {
    SeedIds(t.companies) == {} ==> next !in t.companies
  }

  /** The ids drawn for the accounts are free, or become free by the delete. */
  ghost predicate AccountIdsAreFree(t: Tables, seed: Seed, next: int) {
    forall i :: next <= i < next + |seed.accounts| ==> i !in t.accounts || i in SeedAccountIds(t)
  }

  /** Nothing that stays refers to anything that goes. */
  ghost predicate NothingRefersToSeedRows(t: Tables) {
    NoReversalOfSeedEntries(t) && NoLineUsesSeedAccounts(t)
  }

  /** The ids that will be drawn for new rows are free. */
  ghost predicate NewIdsAreFree(t: Tables, seed: Seed, q: Sequences) {
    CompanyIdIsFree(t, q.company) && AccountIdsAreFree(t, seed, q.account)
  }

  /** What the database lets a restore do. */
  ghost predicate Restorable(t: Tables, seed: Seed, q: Sequences) {
    NothingRefersToSeedRows(t) && NewIdsAreFree(t, seed, q)
  }

  // ---------------------------------------------------------------------------------------------
  // The statements in sequence
  // ---------------------------------------------------------------------------------------------

  function AccountsRestored(t: Tables, seed: Seed, q: Sequences): Option<Tables>
    requires UniqueCompanyCodes(t.companies)
  {
    match RestoreCompany(t, q.company)
    case None => None
    case Some(t') => RestoreAccounts(t', seed, q.account)
  }

  function Deletes(t: Tables): Option<Tables> {
    match ClearJournals(t)
    case None => None
    case Some(t') => DeleteAccounts(t')
  }

  lemma DeletesKeepCompanies(t: Tables)
    ensures Deletes(t).Some? ==> Deletes(t).value.companies == t.companies
  {
  }

  function Restore(t: Tables, seed: Seed, q: Sequences): Option<Tables>
    requires UniqueCompanyCodes(t.companies)
  {
    DeletesKeepCompanies(t);
    match Deletes(t)
    case None => None
    case Some(t') =>
      match AccountsRestored(t', seed, q)
      case None => None
      case Some(t'') => Some(RestoreDocumentTypes(t'', seed))
  }

  // ---------------------------------------------------------------------------------------------
  // Each statement keeps the constraints
  // ---------------------------------------------------------------------------------------------

  lemma ClearJournalsKeepsSound(t: Tables)
    requires Sound(t)
    ensures Sound(DeleteLines(t))
    ensures DeleteEntries(t).Some? ==> Sound(DeleteEntries(t).value)
  {
  }

  lemma DeleteAccountsKeepsSound(t: Tables)
    requires Sound(t)
    ensures DeleteAccounts(t).Some? ==> Sound(DeleteAccounts(t).value)
  {
  }

  lemma RestoreCompanyKeepsSound(t: Tables, next: int)
    requires Sound(t)
    ensures RestoreCompany(t, next).Some? ==> Sound(RestoreCompany(t, next).value)
  {
  }

  lemma RestoreAccountsKeepsSound(t: Tables, seed: Seed, next: int)
    requires Sound(t)
    ensures RestoreAccounts(t, seed, next).Some? ==> Sound(RestoreAccounts(t, seed, next).value)
  {
    if id :| id in SeedIds(t.companies) {
      UpsertKeepsUnique(t.accounts, t.accounts.Keys, id, seed.accounts, next);
    }
  }

  /** After every statement, and not only at the commit, each reference points at an existing row and no
      code occurs twice. */
  lemma EveryStatementKeepsSound(t: Tables, seed: Seed, q: Sequences)
    requires Sound(t)
    ensures Sound(DeleteLines(t))
    ensures DeleteEntries(t).Some? ==> Sound(DeleteEntries(t).value)
    ensures DeleteAccounts(t).Some? ==> Sound(DeleteAccounts(t).value)
    ensures RestoreCompany(t, q.company).Some? ==> Sound(RestoreCompany(t, q.company).value)
    ensures RestoreAccounts(t, seed, q.account).Some? ==> Sound(RestoreAccounts(t, seed, q.account).value)
    ensures Sound(RestoreDocumentTypes(t, seed))
  {
    ClearJournalsKeepsSound(t);
    DeleteAccountsKeepsSound(t);
    RestoreCompanyKeepsSound(t, q.company);
    RestoreAccountsKeepsSound(t, seed, q.account);
  }

  lemma {:induction false} UpsertKeepsUnique(accounts: map<int, Account>, existing: set<int>, companyId: int, seeds: seq<SeedAccount>, next: int)
    requires UniqueAccountCodes(accounts)
    ensures var r := UpsertAccounts(accounts, existing, companyId, seeds, next);
            r.Some? ==>
              && UniqueAccountCodes(r.value)
              && accounts.Keys <= r.value.Keys
              && forall i :: i in r.value ==> if i in accounts then r.value[i].companyId == accounts[i].companyId else r.value[i].companyId == companyId
    decreases |seeds|
  {
    if seeds == [] {
    } else {
      var conflicts := AccountsWith(accounts, companyId, seeds[0].code);
      if conflicts == {} {
        InsertKeepsUnique(accounts, companyId, seeds[0], next);
        UpsertKeepsUnique(accounts[next := RowOf(companyId, seeds[0])], existing, companyId, seeds[1..], next + 1);
      } else if conflicts <= existing {
        UpsertKeepsUnique(Overwrite(accounts, conflicts, seeds[0]), existing - conflicts, companyId, seeds[1..], next + 1);
      }
    }
  }

  lemma InsertKeepsUnique(accounts: map<int, Account>, companyId: int, seed: SeedAccount, next: int)
    requires UniqueAccountCodes(accounts) && AccountsWith(accounts, companyId, seed.code) == {}
    ensures UniqueAccountCodes(accounts[next := RowOf(companyId, seed)])
  {
    var more := accounts[next := RowOf(companyId, seed)];
    forall i, j | i in more && j in more && more[i].companyId == more[j].companyId && more[i].code == more[j].code ensures i == j {
      assert i !in AccountsWith(accounts, companyId, seed.code) && j !in AccountsWith(accounts, companyId, seed.code);
    }
  }

  // ---------------------------------------------------------------------------------------------
  // The account statement after the delete
  // ---------------------------------------------------------------------------------------------

  ghost predicate DistinctCodes(seeds: seq<SeedAccount>) {
    forall i, j :: 0 <= i < j < |seeds| ==> seeds[i].code != seeds[j].code
  }

  /** The rows a statement adds that inserts all of `seeds`, from id `next` on. */
  function NewRows(companyId: int, seeds: seq<SeedAccount>, next: int): map<int, Account> {
    if seeds == [] then map[] else NewRows(companyId, seeds[1..], next + 1)[next := RowOf(companyId, seeds[0])]
  }

  /** `rows` has one row for each of `seeds`, under consecutive ids from `next` on. */
  ghost predicate AreRowsOf(rows: map<int, Account>, companyId: int, seeds: seq<SeedAccount>, next: int) {
    && |rows| == |seeds|
    && (forall i :: i in rows <==> next <= i < next + |seeds|)
    && (forall i :: i in rows ==> rows[i] == RowOf(companyId, seeds[i - next]))
  }

  lemma {:induction false} NewRowsAre(companyId: int, seeds: seq<SeedAccount>, next: int)
    ensures AreRowsOf(NewRows(companyId, seeds, next), companyId, seeds, next)
  {
    if seeds == [] {
    } else {
      var rest := NewRows(companyId, seeds[1..], next + 1);
      NewRowsAre(companyId, seeds[1..], next + 1);
      assert next !in rest;
      var rows := rest[next := RowOf(companyId, seeds[0])];
      forall i | i in rows ensures rows[i] == RowOf(companyId, seeds[i - next]) {
        if i != next { assert seeds[1..][i - next - 1] == seeds[i - next]; }
      }
    }
  }

  /** None of the `n` ids from `next` on is taken. */
  ghost predicate IdsFree(accounts: map<int, Account>, next: int, n: nat) {
    forall i :: next <= i < next + n ==> i !in accounts
  }

  /** No account of the company has one of the codes. */
  ghost predicate CodesFree(accounts: map<int, Account>, companyId: int, seeds: seq<SeedAccount>) {
    forall i, k :: i in accounts && accounts[i].companyId == companyId && 0 <= k < |seeds| ==> accounts[i].code != seeds[k].code
  }

  /** With the codes free and distinct, the update branch is never taken: the statement succeeds exactly
      if the ids it draws are free, and then it adds one row per seed and changes no other. */
  lemma {:induction false} UpsertOnlyInserts(accounts: map<int, Account>, existing: set<int>, companyId: int, seeds: seq<SeedAccount>, next: int)
    requires DistinctCodes(seeds) && CodesFree(accounts, companyId, seeds)
    ensures UpsertAccounts(accounts, existing, companyId, seeds, next).Some? <==> IdsFree(accounts, next, |seeds|)
    ensures UpsertAccounts(accounts, existing, companyId, seeds, next).Some? ==>
              UpsertAccounts(accounts, existing, companyId, seeds, next).value == accounts + NewRows(companyId, seeds, next)
    decreases |seeds|
  {
    if seeds == [] {
      assert accounts + NewRows(companyId, seeds, next) == accounts;
    } else {
      FirstInserts(accounts, companyId, seeds);
      if next !in accounts {
        CodesStayFree(accounts, companyId, seeds, next);
        UpsertOnlyInserts(accounts[next := RowOf(companyId, seeds[0])], existing, companyId, seeds[1..], next + 1);
        OneMoreRow(accounts, companyId, seeds, next);
      }
    }
  }

  lemma OneMoreRow(accounts: map<int, Account>, companyId: int, seeds: seq<SeedAccount>, next: int)
    requires seeds != [] && next !in accounts
    ensures accounts[next := RowOf(companyId, seeds[0])] + NewRows(companyId, seeds[1..], next + 1) == accounts + NewRows(companyId, seeds, next)
    ensures IdsFree(accounts[next := RowOf(companyId, seeds[0])], next + 1, |seeds| - 1) <==> IdsFree(accounts, next, |seeds|)
  {
    var row, rest := RowOf(companyId, seeds[0]), NewRows(companyId, seeds[1..], next + 1);
    NewRowsAre(companyId, seeds[1..], next + 1);
    UnionWithOneMore(accounts, rest, next, row);
    assert forall i :: next + 1 <= i < next + |seeds| ==> (i in accounts[next := row] <==> i in accounts);
  }

  lemma UnionWithOneMore(accounts: map<int, Account>, rest: map<int, Account>, next: int, row: Account)
    requires next !in rest
    ensures accounts[next := row] + rest == accounts + rest[next := row]
  {
  }

  lemma FirstInserts(accounts: map<int, Account>, companyId: int, seeds: seq<SeedAccount>)
    requires CodesFree(accounts, companyId, seeds) && seeds != []
    ensures AccountsWith(accounts, companyId, seeds[0].code) == {}
  {
    forall i | i in accounts ensures i !in AccountsWith(accounts, companyId, seeds[0].code) {
      assert accounts[i].companyId == companyId ==> accounts[i].code != seeds[0].code;
    }
  }

  lemma CodesStayFree(accounts: map<int, Account>, companyId: int, seeds: seq<SeedAccount>, next: int)
    requires DistinctCodes(seeds) && CodesFree(accounts, companyId, seeds) && seeds != []
    ensures DistinctCodes(seeds[1..]) && CodesFree(accounts[next := RowOf(companyId, seeds[0])], companyId, seeds[1..])
  {
  }

  /** The row has one of the listed codes. */
  ghost predicate HasListedCode(a: Account, companyId: int, seeds: seq<SeedAccount>) {
    a.companyId == companyId && exists s :: s in seeds && s.code == a.code
  }

  /** What an upsert of `seeds` makes of a row: the listed name and type if it has a listed code, and
      otherwise what it was. */
  ghost predicate IsUpserted(a: Account, b: Account, companyId: int, seeds: seq<SeedAccount>) {
    && (forall s :: s in seeds && a.companyId == companyId && a.code == s.code ==> b == Account(companyId, s.code, s.name, s.kind))
    && (!HasListedCode(a, companyId, seeds) ==> b == a)
  }

  ghost predicate HasRow(rows: map<int, Account>, companyId: int, s: SeedAccount) {
    exists i :: i in rows && rows[i] == Account(companyId, s.code, s.name, s.kind)
  }

  /** `after` is `before` with `seeds` upserted: every row is kept under its id and upserted, every listed
      account has a row, and only such rows are new. */
  ghost predicate Upserted(before: map<int, Account>, after: map<int, Account>, companyId: int, seeds: seq<SeedAccount>) {
    && (forall i :: i in before ==> i in after && IsUpserted(before[i], after[i], companyId, seeds))
    && (forall s :: s in seeds ==> HasRow(after, companyId, s))
    && (forall i :: i in after && i !in before ==> exists s :: s in seeds && after[i] == Account(companyId, s.code, s.name, s.kind))
  }

  /** The rows that the statement may still update. */
  ghost predicate MayUpdate(accounts: map<int, Account>, existing: set<int>, companyId: int, seeds: seq<SeedAccount>) {
    forall i :: i in accounts && HasListedCode(accounts[i], companyId, seeds) ==> i in existing
  }

  lemma DistinctSeeds(seeds: seq<SeedAccount>, s: SeedAccount)
    requires seeds != [] && DistinctCodes(seeds)
    ensures s in seeds <==> s == seeds[0] || s in seeds[1..]
    ensures s in seeds[1..] ==> s.code != seeds[0].code
  {
    assert seeds == [seeds[0]] + seeds[1..];
    if s in seeds[1..] {
      var k :| 0 <= k < |seeds| - 1 && seeds[1..][k] == s;
      assert seeds[k + 1] == s;
    }
  }

  /** Upserting a list is upserting its first row and then the others. */
  lemma RowThroughBoth(a: Account, m: Account, b: Account, companyId: int, seeds: seq<SeedAccount>)
    requires seeds != [] && DistinctCodes(seeds)
    requires IsUpserted(a, m, companyId, [seeds[0]]) && IsUpserted(m, b, companyId, seeds[1..])
    ensures IsUpserted(a, b, companyId, seeds)
  {
    var first := seeds[0];
    assert first in [first];
    forall s ensures (s in seeds <==> s == first || s in seeds[1..]) && (s in seeds[1..] ==> s.code != first.code) {
      DistinctSeeds(seeds, s);
    }
    if a.companyId == companyId && a.code == first.code {
      assert m == Account(companyId, first.code, first.name, first.kind);
      assert !HasListedCode(m, companyId, seeds[1..]);
      assert b == m;
    } else {
      assert !HasListedCode(a, companyId, [first]);
      assert m == a;
    }
  }

  lemma NewRowThroughRest(m: Account, b: Account, companyId: int, seeds: seq<SeedAccount>)
    requires seeds != [] && DistinctCodes(seeds)
    requires m == RowOf(companyId, seeds[0]) && IsUpserted(m, b, companyId, seeds[1..])
    ensures b == m
  {
    forall s | s in seeds[1..] ensures s.code != seeds[0].code {
      DistinctSeeds(seeds, s);
    }
    assert !HasListedCode(m, companyId, seeds[1..]);
  }

  lemma FirstThenRest(before: map<int, Account>, middle: map<int, Account>, after: map<int, Account>, companyId: int, seeds: seq<SeedAccount>)
    requires seeds != [] && DistinctCodes(seeds)
    requires Upserted(before, middle, companyId, [seeds[0]]) && Upserted(middle, after, companyId, seeds[1..])
    ensures Upserted(before, after, companyId, seeds)
  {
    forall i | i in before ensures i in after && IsUpserted(before[i], after[i], companyId, seeds) {
      RowThroughBoth(before[i], middle[i], after[i], companyId, seeds);
    }
    forall s | s in seeds ensures HasRow(after, companyId, s) {
      DistinctSeeds(seeds, s);
      if s == seeds[0] {
        FirstIsThere(before, middle, after, companyId, seeds);
      }
    }
    forall i | i in after && i !in before ensures exists s :: s in seeds && after[i] == Account(companyId, s.code, s.name, s.kind) {
      if i in middle {
        NewRowThroughRest(middle[i], after[i], companyId, seeds);
        assert seeds[0] in seeds;
      } else {
        var s :| s in seeds[1..] && after[i] == Account(companyId, s.code, s.name, s.kind);
        assert s in seeds;
      }
    }
  }

  lemma FirstIsThere(before: map<int, Account>, middle: map<int, Account>, after: map<int, Account>, companyId: int, seeds: seq<SeedAccount>)
    requires seeds != [] && DistinctCodes(seeds)
    requires Upserted(before, middle, companyId, [seeds[0]]) && Upserted(middle, after, companyId, seeds[1..])
    ensures HasRow(after, companyId, seeds[0])
  {
    assert seeds[0] in [seeds[0]];
    var i :| i in middle && middle[i] == Account(companyId, seeds[0].code, seeds[0].name, seeds[0].kind);
    NewRowThroughRest(middle[i], after[i], companyId, seeds);
  }

  lemma Member(ids: set<int>) returns (i: int)
    requires ids != {}
    ensures i in ids
  {
    assert (forall j :: j !in ids) ==> ids == {};
    i :| i in ids;
  }

  lemma InsertsOne(accounts: map<int, Account>, companyId: int, seed: SeedAccount, next: int)
    requires AccountsWith(accounts, companyId, seed.code) == {} && next !in accounts
    ensures Upserted(accounts, accounts[next := RowOf(companyId, seed)], companyId, [seed])
  {
    var more := accounts[next := RowOf(companyId, seed)];
    forall i | i in accounts ensures IsUpserted(accounts[i], more[i], companyId, [seed]) {
      assert i !in AccountsWith(accounts, companyId, seed.code);
    }
    assert next in more && seed in [seed];
  }

  lemma UpdatesOne(accounts: map<int, Account>, companyId: int, seed: SeedAccount)
    requires AccountsWith(accounts, companyId, seed.code) != {}
    ensures Upserted(accounts, Overwrite(accounts, AccountsWith(accounts, companyId, seed.code), seed), companyId, [seed])
  {
    var conflicts := AccountsWith(accounts, companyId, seed.code);
    var more := Overwrite(accounts, conflicts, seed);
    var i := Member(conflicts);
    assert seed in [seed];
    assert i in more && more[i] == RowOf(companyId, seed);
    forall j | j in accounts ensures IsUpserted(accounts[j], more[j], companyId, [seed]) {
      if j !in conflicts {
        assert !HasListedCode(accounts[j], companyId, [seed]);
      }
    }
  }

  lemma RestMayUpdate(accounts: map<int, Account>, middle: map<int, Account>, existing: set<int>, companyId: int, seeds: seq<SeedAccount>)
    requires seeds != [] && DistinctCodes(seeds) && MayUpdate(accounts, existing, companyId, seeds)
    requires Upserted(accounts, middle, companyId, [seeds[0]])
    ensures MayUpdate(middle, existing - AccountsWith(accounts, companyId, seeds[0].code), companyId, seeds[1..])
  {
    assert seeds[0] in [seeds[0]];
    forall i | i in middle && HasListedCode(middle[i], companyId, seeds[1..])
      ensures i in existing && i !in AccountsWith(accounts, companyId, seeds[0].code)
    {
      var s :| s in seeds[1..] && s.code == middle[i].code;
      DistinctSeeds(seeds, s);
      assert i in accounts;
      assert HasListedCode(accounts[i], companyId, seeds);
    }
  }

  /** The statement in full, with its update branch: whatever accounts are there, if it succeeds it has
      upserted the listed rows. */
  lemma {:induction false} UpsertUpdatesOrInserts(accounts: map<int, Account>, existing: set<int>, companyId: int, seeds: seq<SeedAccount>, next: int)
    requires DistinctCodes(seeds) && MayUpdate(accounts, existing, companyId, seeds)
    ensures var r := UpsertAccounts(accounts, existing, companyId, seeds, next);
            r.Some? ==> Upserted(accounts, r.value, companyId, seeds)
    decreases |seeds|
  {
    if seeds == [] {
    } else if UpsertAccounts(accounts, existing, companyId, seeds, next).Some? {
      var after, conflicts := UpsertAccounts(accounts, existing, companyId, seeds, next).value, AccountsWith(accounts, companyId, seeds[0].code);
      if conflicts == {} {
        InsertsOne(accounts, companyId, seeds[0], next);
        var middle := accounts[next := RowOf(companyId, seeds[0])];
        RestMayUpdate(accounts, middle, existing, companyId, seeds);
        UpsertUpdatesOrInserts(middle, existing, companyId, seeds[1..], next + 1);
        FirstThenRest(accounts, middle, after, companyId, seeds);
      } else {
        UpdatesOne(accounts, companyId, seeds[0]);
        var middle := Overwrite(accounts, conflicts, seeds[0]);
        RestMayUpdate(accounts, middle, existing, companyId, seeds);
        UpsertUpdatesOrInserts(middle, existing - conflicts, companyId, seeds[1..], next + 1);
        FirstThenRest(accounts, middle, after, companyId, seeds);
      }
    }
  }

  /** A row whose code is not listed stays as it is. */
  lemma {:induction false} RowStays(accounts: map<int, Account>, existing: set<int>, companyId: int, seeds: seq<SeedAccount>, next: int, i: int)
    requires i in accounts && forall s :: s in seeds ==> s.code != accounts[i].code
    ensures var r := UpsertAccounts(accounts, existing, companyId, seeds, next);
            r.Some? ==> i in r.value && r.value[i] == accounts[i]
    decreases |seeds|
  {
    if seeds == [] {
    } else {
      var conflicts := AccountsWith(accounts, companyId, seeds[0].code);
      assert seeds[0] in seeds && i !in conflicts;
      if conflicts != {} {
        RowStays(Overwrite(accounts, conflicts, seeds[0]), existing - conflicts, companyId, seeds[1..], next + 1, i);
      } else if next !in accounts {
        RowStays(accounts[next := RowOf(companyId, seeds[0])], existing, companyId, seeds[1..], next + 1, i);
      }
    }
  }

  /** Every row of the list draws an id, whether it needs it or not: a new row has the id of its place in
      the list. */
  lemma {:induction false} NewIdsByPlace(accounts: map<int, Account>, existing: set<int>, companyId: int, seeds: seq<SeedAccount>, next: int, i: int)
    requires UpsertAccounts(accounts, existing, companyId, seeds, next).Some?
    requires i in UpsertAccounts(accounts, existing, companyId, seeds, next).value && i !in accounts
    ensures 0 <= i - next < |seeds|
    ensures var r := UpsertAccounts(accounts, existing, companyId, seeds, next).value;
            DistinctCodes(seeds) ==> r[i] == RowOf(companyId, seeds[i - next])
    decreases |seeds|
  {
    var conflicts := AccountsWith(accounts, companyId, seeds[0].code);
    var r := UpsertAccounts(accounts, existing, companyId, seeds, next).value;
    if conflicts != {} {
      NewIdsByPlace(Overwrite(accounts, conflicts, seeds[0]), existing - conflicts, companyId, seeds[1..], next + 1, i);
    } else if i != next {
      NewIdsByPlace(accounts[next := RowOf(companyId, seeds[0])], existing, companyId, seeds[1..], next + 1, i);
    } else if DistinctCodes(seeds) {
      forall s | s in seeds[1..] ensures s.code != seeds[0].code {
        DistinctSeeds(seeds, s);
      }
      RowStays(accounts[next := RowOf(companyId, seeds[0])], existing, companyId, seeds[1..], next + 1, next);
    }
  }

  lemma {:induction false} TouchedRowBlocks(accounts: map<int, Account>, existing: set<int>, companyId: int, seeds: seq<SeedAccount>, next: int, k: nat, i: int)
    requires k < |seeds| && i in accounts && i !in existing && accounts[i].companyId == companyId && accounts[i].code == seeds[k].code
    ensures UpsertAccounts(accounts, existing, companyId, seeds, next).None?
    decreases |seeds|
  {
    var conflicts := AccountsWith(accounts, companyId, seeds[0].code);
    if k == 0 {
      assert i in conflicts;
    } else if conflicts == {} {
      if next !in accounts {
        TouchedRowBlocks(accounts[next := RowOf(companyId, seeds[0])], existing, companyId, seeds[1..], next + 1, k - 1, i);
      }
    } else {
      TouchedRowBlocks(Overwrite(accounts, conflicts, seeds[0]), existing - conflicts, companyId, seeds[1..], next + 1, k - 1, i);
    }
  }

  /** A list that names a code twice makes the statement fail: it may not touch a row twice. */
  lemma {:induction false} UpsertRefusesRepeats(accounts: map<int, Account>, existing: set<int>, companyId: int, seeds: seq<SeedAccount>, next: int, a: nat, b: nat)
    requires a < b < |seeds| && seeds[a].code == seeds[b].code && existing <= accounts.Keys
    ensures UpsertAccounts(accounts, existing, companyId, seeds, next).None?
    decreases |seeds|
  {
    var conflicts := AccountsWith(accounts, companyId, seeds[0].code);
    if conflicts == {} {
      if next !in accounts {
        var more := accounts[next := RowOf(companyId, seeds[0])];
        if a == 0 {
          TouchedRowBlocks(more, existing, companyId, seeds[1..], next + 1, b - 1, next);
        } else {
          UpsertRefusesRepeats(more, existing, companyId, seeds[1..], next + 1, a - 1, b - 1);
        }
      }
    } else {
      var more := Overwrite(accounts, conflicts, seeds[0]);
      if a == 0 {
        var i := Member(conflicts);
        TouchedRowBlocks(more, existing - conflicts, companyId, seeds[1..], next + 1, b - 1, i);
      } else {
        UpsertRefusesRepeats(more, existing - conflicts, companyId, seeds[1..], next + 1, a - 1, b - 1);
      }
    }
  }

  /** The codes in the program's list differ, and there are fifteen of them. */
  lemma SeedCodesDiffer()
    ensures DistinctCodes(SEED.accounts) && |SEED.accounts| == 15
  {
  }

  /** The type of an account is given by the first digit of its code. */
  function KindOfCode(code: string): string
    requires code != []
  {
    if code[0] == '1' then "asset"
    else if code[0] == '2' then "liability"
    else if code[0] == '3' then "equity"
    else if code[0] == '4' then "revenue"
    else "expense"
  }

  lemma ChartFollowsItsCodes(k: nat)
    requires k < |SEED.accounts|
    ensures var s := SEED.accounts[k];
            |s.code| == 4 && s.kind == KindOfCode(s.code)
  {
  }

  // ---------------------------------------------------------------------------------------------
  // Statement by statement
  // ---------------------------------------------------------------------------------------------

  lemma ClearJournalsExactly(t: Tables)
    requires Sound(t)
    ensures ClearJournals(t).Some? <==> NoReversalOfSeedEntries(t)
    ensures ClearJournals(t).Some? ==>
              ClearJournals(t).value == t.(entries := t.entries - SeedEntries(t), lines := t.lines - SeedLines(t))
  {
  }

  lemma DeleteAccountsExactly(t: Tables, t1: Tables)
    requires Sound(t) && t1 == t.(entries := t.entries - SeedEntries(t), lines := t.lines - SeedLines(t))
    ensures DeleteAccounts(t1).Some? <==> NoLineUsesSeedAccounts(t)
    ensures DeleteAccounts(t1).Some? ==>
              DeleteAccounts(t1).value == t1.(accounts := t.accounts - SeedAccountIds(t))
  {
    assert SeedAccountIds(t1) == SeedAccountIds(t);
    assert forall i :: i in t1.lines <==> i in t.lines && i !in SeedLines(t);
  }

  /** The seed company after its statement: the one that was there, or a new one with a fresh id. */
  lemma RestoreCompanyExactly(t: Tables, next: int) returns (id: int)
    requires UniqueCompanyCodes(t.companies)
    ensures RestoreCompany(t, next).Some? <==> CompanyIdIsFree(t, next)
    ensures RestoreCompany(t, next).Some? ==>
              && RestoreCompany(t, next).value == t.(companies := t.companies[id := SEED_COMPANY])
              && SeedIds(t.companies[id := SEED_COMPANY]) == {id}
              && (if id in t.companies then SeedIds(t.companies) == {id} else SeedIds(t.companies) == {} && id == next)
  {
    if i :| i in SeedIds(t.companies) {
      id := i;
      forall j ensures j in SeedIds(t.companies) <==> j == id {
        if j in SeedIds(t.companies) { assert t.companies[j].code == t.companies[id].code; }
      }
      assert SeedIds(t.companies) == {id};
      assert t.companies[id].(name := SEED_COMPANY.name, currency := SEED_COMPANY.currency) == SEED_COMPANY;
      assert RestoreCompany(t, next).value.companies == t.companies[id := SEED_COMPANY];
    } else {
      id := next;
      forall j ensures j !in SeedIds(t.companies) {}
      assert SeedIds(t.companies) == {};
    }
  }

  lemma RestoreAccountsExactly(t: Tables, seed: Seed, id: int, next: int)
    requires DistinctCodes(seed.accounts)
    requires UniqueCompanyCodes(t.companies) && SeedIds(t.companies) == {id}
    requires forall i :: i in t.accounts ==> t.accounts[i].companyId != id
    ensures RestoreAccounts(t, seed, next).Some? <==> IdsFree(t.accounts, next, |seed.accounts|)
    ensures RestoreAccounts(t, seed, next).Some? ==> RestoreAccounts(t, seed, next).value == t.(accounts := t.accounts + NewRows(id, seed.accounts, next))
  {
    UpsertOnlyInserts(t.accounts, t.accounts.Keys, id, seed.accounts, next);
    assert id in SeedIds(t.companies);
  }

  lemma NewRowsBelong(u: Tables, rows: map<int, Account>, seeds: seq<SeedAccount>, base: map<int, Account>, id: int, next: int)
    requires AreRowsOf(rows, id, seeds, next) && SeedIds(u.companies) == {id} && u.accounts == base + rows
    requires forall i :: i in base ==> base[i].companyId != id
    ensures SeedAccountIds(u) == rows.Keys && |SeedAccountIds(u)| == |seeds|
  {
    forall i ensures i in SeedAccountIds(u) <==> i in rows {}
    assert SeedAccountIds(u) == rows.Keys;
  }

  lemma OthersKept(base: map<int, Account>, rows: map<int, Account>)
    requires forall i :: i in rows ==> i !in base
    ensures (base + rows) - rows.Keys == base
  {
    assert forall i :: i in (base + rows) - rows.Keys <==> i in base;
  }

  lemma ChartHasTheSeed(u: Tables, rows: map<int, Account>, seeds: seq<SeedAccount>, base: map<int, Account>, id: int, next: int, k: nat)
    requires AreRowsOf(rows, id, seeds, next) && u.accounts == base + rows && SeedAccountIds(u) == rows.Keys && k < |seeds|
    ensures seeds[k] in Chart(u)
  {
    var i := next + k;
    assert i in rows && rows[i] == RowOf(id, seeds[i - next]);
    assert i in SeedAccountIds(u) && u.accounts[i] == rows[i];
  }

  lemma RowIsASeed(rows: map<int, Account>, seeds: seq<SeedAccount>, id: int, next: int, i: int)
    requires AreRowsOf(rows, id, seeds, next) && i in rows
    ensures SeedAccount(rows[i].code, rows[i].name, rows[i].kind) in seeds
  {
    assert rows[i] == RowOf(id, seeds[i - next]);
  }

  lemma ChartHasOnlySeeds(u: Tables, rows: map<int, Account>, seeds: seq<SeedAccount>, base: map<int, Account>, id: int, next: int, s: SeedAccount)
    requires AreRowsOf(rows, id, seeds, next) && u.accounts == base + rows && SeedAccountIds(u) == rows.Keys && s in Chart(u)
    ensures s in seeds
  {
    var ids := SeedAccountIds(u);
    var i :| i in ids && SeedAccount(u.accounts[i].code, u.accounts[i].name, u.accounts[i].kind) == s;
    RowIsASeed(rows, seeds, id, next, i);
    assert u.accounts[i] == rows[i];
  }

  lemma ChartIsTheSeeds(u: Tables, rows: map<int, Account>, seeds: seq<SeedAccount>, base: map<int, Account>, id: int, next: int)
    requires AreRowsOf(rows, id, seeds, next) && u.accounts == base + rows && SeedAccountIds(u) == rows.Keys
    ensures forall s :: s in Chart(u) <==> s in seeds
  {
    forall s | s in Chart(u) ensures s in seeds {
      ChartHasOnlySeeds(u, rows, seeds, base, id, next, s);
    }
    forall s | s in seeds ensures s in Chart(u) {
      var k :| 0 <= k < |seeds| && seeds[k] == s;
      ChartHasTheSeed(u, rows, seeds, base, id, next, k);
    }
  }

  // ---------------------------------------------------------------------------------------------
  // The whole restore
  // ---------------------------------------------------------------------------------------------

  lemma DeletesExactly(t: Tables)
    requires Sound(t)
    ensures Deletes(t).Some? <==> NothingRefersToSeedRows(t)
    ensures Deletes(t).Some? ==>
              && Deletes(t).value == t.(entries := t.entries - SeedEntries(t), lines := t.lines - SeedLines(t), accounts := t.accounts - SeedAccountIds(t))
              && Sound(Deletes(t).value)
  {
    ClearJournalsExactly(t);
    if ClearJournals(t).Some? {
      DeleteAccountsExactly(t, ClearJournals(t).value);
      ClearJournalsKeepsSound(t);
      ClearJournalsKeepsSound(DeleteLines(t));
      DeleteAccountsKeepsSound(ClearJournals(t).value);
    }
  }

  /** The restore succeeds if and only if the database lets it, and then it restores. */
  lemma RestoreIsExact(t: Tables, seed: Seed, q: Sequences)
    requires DistinctCodes(seed.accounts)
    requires Sound(t)
    ensures Restore(t, seed, q).Some? <==> Restorable(t, seed, q)
    ensures Restore(t, seed, q).Some? ==> Restored(t, Restore(t, seed, q).value, seed)
  {
    DeletesExactly(t);
    if Deletes(t).Some? {
      RestAfterDeletes(t, Deletes(t).value, seed, q);
    }
  }

  /** No account that is left belongs to the company that is about to get its chart. */
  lemma NoSeedAccountsLeft(t: Tables, id: int)
    requires Sound(t)
    requires if id in t.companies then SeedIds(t.companies) == {id} else SeedIds(t.companies) == {}
    ensures forall i :: i in t.accounts - SeedAccountIds(t) ==> (t.accounts - SeedAccountIds(t))[i].companyId != id
  {
  }

  lemma RestAfterDeletes(t: Tables, t2: Tables, seed: Seed, q: Sequences)
    requires DistinctCodes(seed.accounts)
    requires Sound(t) && Sound(t2)
    requires t2 == t.(entries := t.entries - SeedEntries(t), lines := t.lines - SeedLines(t), accounts := t.accounts - SeedAccountIds(t))
    ensures AccountsRestored(t2, seed, q).Some? <==> NewIdsAreFree(t, seed, q)
    ensures AccountsRestored(t2, seed, q).Some? ==> Restored(t, RestoreDocumentTypes(AccountsRestored(t2, seed, q).value, seed), seed)
  {
    var id := RestoreCompanyExactly(t2, q.company);
    if RestoreCompany(t2, q.company).Some? {
      var t3 := RestoreCompany(t2, q.company).value;
      NoSeedAccountsLeft(t, id);
      RestoreAccountsExactly(t3, seed, id, q.account);
      assert forall i :: i in t2.accounts <==> i in t.accounts && i !in SeedAccountIds(t);
      assert IdsFree(t2.accounts, q.account, |seed.accounts|) <==> NewIdsAreFree(t, seed, q);
      if RestoreAccounts(t3, seed, q.account).Some? {
        RestoreCompanyKeepsSound(t2, q.company);
        RestoreAccountsKeepsSound(t3, seed, q.account);
        NewChart(t, t2, RestoreAccounts(t3, seed, q.account).value, seed, id, q.account);
      }
    }
  }

  lemma NewChart(t: Tables, t2: Tables, u: Tables, seed: Seed, id: int, next: int)
    requires Sound(t) && Sound(u)
    requires t2 == t.(entries := t.entries - SeedEntries(t), lines := t.lines - SeedLines(t), accounts := t.accounts - SeedAccountIds(t))
    requires u == t2.(companies := t.companies[id := SEED_COMPANY], accounts := t2.accounts + NewRows(id, seed.accounts, next))
    requires SeedIds(u.companies) == {id} && (if id in t.companies then SeedIds(t.companies) == {id} else SeedIds(t.companies) == {})
    requires forall i :: i in t2.accounts ==> t2.accounts[i].companyId != id
    requires IdsFree(t2.accounts, next, |seed.accounts|)
    ensures Restored(t, RestoreDocumentTypes(u, seed), seed)
  {
    var rows := NewRows(id, seed.accounts, next);
    NewRowsAre(id, seed.accounts, next);
    NewRowsBelong(u, rows, seed.accounts, t2.accounts, id, next);
    ChartIsTheSeeds(u, rows, seed.accounts, t2.accounts, id, next);
    OthersKept(t2.accounts, rows);
    RestoredAtLast(t, t2, u, seed, id);
  }

  lemma RestoredAtLast(t: Tables, t2: Tables, u: Tables, seed: Seed, id: int)
    requires Sound(t) && Sound(u)
    requires t2 == t.(entries := t.entries - SeedEntries(t), lines := t.lines - SeedLines(t), accounts := t.accounts - SeedAccountIds(t))
    requires u == t2.(companies := t.companies[id := SEED_COMPANY], accounts := u.accounts)
    requires SeedIds(u.companies) == {id} && (if id in t.companies then SeedIds(t.companies) == {id} else SeedIds(t.companies) == {})
    requires (forall s :: s in Chart(u) <==> s in seed.accounts) && |SeedAccountIds(u)| == |seed.accounts|
    requires u.accounts - SeedAccountIds(u) == t2.accounts
    ensures Restored(t, RestoreDocumentTypes(u, seed), seed)
  {
    var v := RestoreDocumentTypes(u, seed);
    forall i | i in v.entries ensures v.entries[i].companyId != id {
      assert i in t.entries && i !in SeedEntries(t);
      assert t.entries[i].companyId in t.companies;
    }
    assert SeedEntries(v) == {};
    assert SeedLines(v) == {};
    assert SeedAccountIds(v) == SeedAccountIds(u);
    assert Chart(v) == Chart(u);
    assert v.companies == t.companies[id := SEED_COMPANY];
  }

  // ---------------------------------------------------------------------------------------------
  // What other companies see of it
  // ---------------------------------------------------------------------------------------------

  function AccountsOf(t: Tables, company: int): map<int, Account> {
    map i | i in t.accounts && t.accounts[i].companyId == company :: t.accounts[i]
  }

  function EntriesOf(t: Tables, company: int): map<int, Entry> {
    map i | i in t.entries && t.entries[i].companyId == company :: t.entries[i]
  }

  /** The lines of the company's journal entries. */
  function LinesOf(t: Tables, company: int): map<int, Line> {
    map i | i in t.lines && t.lines[i].entryId in EntriesOf(t, company) :: t.lines[i]
  }

  /** The other companies are the same ones with the same rows. */
  lemma OtherCompaniesAreTheSame(before: Tables, after: Tables, seed: Seed, c: int)
    requires Restored(before, after, seed)
    ensures c in before.companies && before.companies[c].code != SEED_CODE <==> c in after.companies && after.companies[c].code != SEED_CODE
    ensures c in before.companies && before.companies[c].code != SEED_CODE ==> after.companies[c] == before.companies[c]
    ensures c in before.companies && before.companies[c].code != SEED_CODE ==> c !in SeedIds(before.companies) && c !in SeedIds(after.companies)
  {
    var id :| SeedIds(after.companies) == {id} && SeedIds(before.companies) <= {id}
              && (id in before.companies ==> id in SeedIds(before.companies))
              && after.companies == before.companies[id := SEED_COMPANY];
    assert id in SeedIds(after.companies);
  }

  lemma SameAccounts(before: Tables, after: Tables, c: int)
    requires c !in SeedIds(before.companies) && c !in SeedIds(after.companies)
    requires after.accounts - SeedAccountIds(after) == before.accounts - SeedAccountIds(before)
    ensures AccountsOf(after, c) == AccountsOf(before, c)
  {
    var left, left' := before.accounts - SeedAccountIds(before), after.accounts - SeedAccountIds(after);
    forall i ensures i in AccountsOf(after, c) <==> i in AccountsOf(before, c) {
      assert i in AccountsOf(before, c) <==> i in left && left[i].companyId == c;
      assert i in AccountsOf(after, c) <==> i in left' && left'[i].companyId == c;
    }
    forall i | i in AccountsOf(after, c) ensures AccountsOf(after, c)[i] == AccountsOf(before, c)[i] {
      assert i in left' && left'[i] == left[i];
    }
  }

  lemma SameEntries(before: Tables, after: Tables, c: int)
    requires c !in SeedIds(before.companies) && after.entries == before.entries - SeedEntries(before)
    ensures EntriesOf(after, c) == EntriesOf(before, c)
  {
    forall i ensures i in EntriesOf(after, c) <==> i in EntriesOf(before, c) {}
  }

  lemma SameLines(before: Tables, after: Tables, c: int)
    requires c !in SeedIds(before.companies) && EntriesOf(after, c) == EntriesOf(before, c)
    requires after.lines == before.lines - SeedLines(before)
    ensures LinesOf(after, c) == LinesOf(before, c)
  {
    forall i | i in LinesOf(before, c) ensures i !in SeedLines(before) {
      assert before.lines[i].entryId in EntriesOf(before, c);
    }
    forall i ensures i in LinesOf(after, c) <==> i in LinesOf(before, c) {}
  }

  /** The frame: a restore leaves every company with another code, its accounts, its journal entries and
      their lines as they were, and no other company appears. */
  lemma RestoreLeavesOthersAlone(before: Tables, after: Tables, seed: Seed, c: int)
    requires Restored(before, after, seed)
    ensures c in before.companies && before.companies[c].code != SEED_CODE <==> c in after.companies && after.companies[c].code != SEED_CODE
    ensures c in before.companies && before.companies[c].code != SEED_CODE ==>
              && after.companies[c] == before.companies[c]
              && AccountsOf(after, c) == AccountsOf(before, c)
              && EntriesOf(after, c) == EntriesOf(before, c)
              && LinesOf(after, c) == LinesOf(before, c)
  {
    OtherCompaniesAreTheSame(before, after, seed, c);
    if c in before.companies && before.companies[c].code != SEED_CODE {
      SameAccounts(before, after, c);
      SameEntries(before, after, c);
      SameLines(before, after, c);
    }
  }

  // ---------------------------------------------------------------------------------------------
  // The restore in terms of the rows themselves
  // ---------------------------------------------------------------------------------------------

  ghost predicate IsSeedCompany(t: Tables, company: int) {
    company in t.companies && t.companies[company].code == "1000"
  }

  ghost predicate IsSeedEntry(t: Tables, entry: int) {
    entry in t.entries && IsSeedCompany(t, t.entries[entry].companyId)
  }

  /** Account i belongs to the seed company and is the row that `s` lists. */
  ghost predicate IsListedAccount(t: Tables, i: int, s: SeedAccount) {
    i in t.accounts && IsSeedCompany(t, t.accounts[i].companyId) && t.accounts[i] == Account(t.accounts[i].companyId, s.code, s.name, s.kind)
  }

  /** The company with code 1000 is there with the seed data, and every other one is as it was. */
  ghost predicate CompaniesRestored(t: Tables, u: Tables) {
    && (forall i :: i in t.companies && !IsSeedCompany(t, i) ==> i in u.companies && u.companies[i] == t.companies[i])
    && (forall i :: i in u.companies && !IsSeedCompany(u, i) ==> i in t.companies)
    && (forall i :: IsSeedCompany(t, i) ==> IsSeedCompany(u, i))
    && (exists id :: IsSeedCompany(u, id))
    && (forall i, j :: IsSeedCompany(u, i) && IsSeedCompany(u, j) ==> i == j)
    && (forall i :: IsSeedCompany(u, i) ==> u.companies[i] == Company("1000", "Local Operations India", "INR"))
  }

  /** Exactly the entries of the company and their lines are gone, and the others are as they were. */
  ghost predicate JournalRestored(t: Tables, u: Tables) {
    && (forall i :: i in u.entries <==> i in t.entries && !IsSeedEntry(t, i))
    && (forall i :: i in u.entries ==> u.entries[i] == t.entries[i] && !IsSeedEntry(u, i))
    && (forall i :: i in u.lines <==> i in t.lines && !IsSeedEntry(t, t.lines[i].entryId))
    && (forall i :: i in u.lines ==> u.lines[i] == t.lines[i] && !IsSeedEntry(u, u.lines[i].entryId))
  }

  /** The accounts of other companies are as they were. */
  ghost predicate OtherAccountsKept(t: Tables, u: Tables) {
    && (forall i :: i in t.accounts && !IsSeedCompany(t, t.accounts[i].companyId) ==> i in u.accounts && u.accounts[i] == t.accounts[i])
    && (forall i :: i in u.accounts && !IsSeedCompany(u, u.accounts[i].companyId) ==> i in t.accounts && u.accounts[i] == t.accounts[i])
  }

  /** The accounts of the company are the listed ones, once each. */
  ghost predicate ChartIsListed(u: Tables, seed: Seed) {
    && (forall i :: i in u.accounts && IsSeedCompany(u, u.accounts[i].companyId) ==> exists s :: s in seed.accounts && IsListedAccount(u, i, s))
    && (forall s :: s in seed.accounts ==> exists i :: IsListedAccount(u, i, s))
    && (forall i, j, s :: IsListedAccount(u, i, s) && IsListedAccount(u, j, s) ==> i == j)
  }

  /** Document types that were there are as they were, and the missing ones of the seed are there. */
  ghost predicate DocumentTypesRestored(t: Tables, u: Tables, seed: Seed) {
    && (forall c :: c in t.documentTypes ==> c in u.documentTypes && u.documentTypes[c] == t.documentTypes[c])
    && (forall c :: c in u.documentTypes && c !in t.documentTypes ==> c in seed.documentTypes && u.documentTypes[c] == seed.documentTypes[c])
    && (forall c :: c in seed.documentTypes ==> c in u.documentTypes)
  }

  /** `u` is `t` after a restore, row by row. */
  ghost predicate RowsRestored(t: Tables, u: Tables, seed: Seed) {
    CompaniesRestored(t, u) && JournalRestored(t, u) && OtherAccountsKept(t, u) && ChartIsListed(u, seed) && DocumentTypesRestored(t, u, seed)
  }

  lemma SeedSets(t: Tables)
    ensures forall i :: i in SeedIds(t.companies) <==> IsSeedCompany(t, i)
    ensures forall i :: i in SeedEntries(t) <==> IsSeedEntry(t, i)
    ensures forall i :: i in SeedLines(t) <==> i in t.lines && IsSeedEntry(t, t.lines[i].entryId)
    ensures forall i :: i in SeedAccountIds(t) <==> i in t.accounts && IsSeedCompany(t, t.accounts[i].companyId)
  {
  }

  lemma CompanyRows(t: Tables, u: Tables, seed: Seed)
    requires Restored(t, u, seed)
    ensures CompaniesRestored(t, u)
  {
    var id :| SeedIds(u.companies) == {id} && SeedIds(t.companies) <= {id}
              && (id in t.companies ==> id in SeedIds(t.companies))
              && u.companies == t.companies[id := SEED_COMPANY];
    SeedSets(t);
    SeedSets(u);
    assert forall i :: IsSeedCompany(u, i) <==> i == id;
  }

  lemma JournalRows(t: Tables, u: Tables, seed: Seed)
    requires Restored(t, u, seed)
    ensures JournalRestored(t, u)
  {
    SeedSets(t);
    SeedSets(u);
    forall i ensures i in u.entries <==> i in t.entries && !IsSeedEntry(t, i) {
      assert i in u.entries <==> i in t.entries && i !in SeedEntries(t);
    }
    forall i ensures i in u.lines <==> i in t.lines && !IsSeedEntry(t, t.lines[i].entryId) {
      assert i in u.lines <==> i in t.lines && i !in SeedLines(t);
    }
    forall i | i in u.lines ensures !IsSeedEntry(u, u.lines[i].entryId) {
      assert i !in SeedLines(u);
    }
    forall i | i in u.entries ensures !IsSeedEntry(u, i) {
      assert i !in SeedEntries(u);
    }
  }

  lemma OtherAccountRows(t: Tables, u: Tables)
    requires u.accounts - SeedAccountIds(u) == t.accounts - SeedAccountIds(t)
    ensures OtherAccountsKept(t, u)
  {
    SeedSets(t);
    SeedSets(u);
    var left, left' := t.accounts - SeedAccountIds(t), u.accounts - SeedAccountIds(u);
    forall i | i in t.accounts && !IsSeedCompany(t, t.accounts[i].companyId) ensures i in u.accounts && u.accounts[i] == t.accounts[i] {
      assert i in left && i in left' && left'[i] == left[i];
    }
    forall i | i in u.accounts && !IsSeedCompany(u, u.accounts[i].companyId) ensures i in t.accounts && u.accounts[i] == t.accounts[i] {
      assert i in left' && i in left && left'[i] == left[i];
    }
  }

  lemma ChartRows(u: Tables, seed: Seed)
    requires UniqueAccountCodes(u.accounts) && UniqueCompanyCodes(u.companies)
    requires forall s :: s in Chart(u) <==> s in seed.accounts
    ensures ChartIsListed(u, seed)
  {
    SeedSets(u);
    forall i | i in u.accounts && IsSeedCompany(u, u.accounts[i].companyId) ensures exists s :: s in seed.accounts && IsListedAccount(u, i, s) {
      var s := SeedAccount(u.accounts[i].code, u.accounts[i].name, u.accounts[i].kind);
      assert i in SeedAccountIds(u) && s in Chart(u) && IsListedAccount(u, i, s);
    }
    forall s | s in seed.accounts ensures exists i :: IsListedAccount(u, i, s) {
      assert s in Chart(u);
      var i :| i in SeedAccountIds(u) && SeedAccount(u.accounts[i].code, u.accounts[i].name, u.accounts[i].kind) == s;
      assert IsListedAccount(u, i, s);
    }
  }

  /** Restored tables are restored row by row. */
  lemma RestoredMeansRows(t: Tables, u: Tables, seed: Seed)
    requires Restored(t, u, seed)
    ensures RowsRestored(t, u, seed)
  {
    CompanyRows(t, u, seed);
    JournalRows(t, u, seed);
    OtherAccountRows(t, u);
    ChartRows(u, seed);
  }

  /** When the database lets a restore happen, row by row: no entry of another company reverses one of
      company 1000, no line of another company's entry uses an account of company 1000, and the ids that
      are drawn are not those of rows that stay. */
  lemma RestorableMeansRows(t: Tables, seed: Seed, q: Sequences)
    ensures Restorable(t, seed, q) <==>
              && (forall i :: i in t.entries && !IsSeedEntry(t, i) && t.entries[i].reverses.Some? ==> !IsSeedEntry(t, t.entries[i].reverses.value))
              && (forall i :: i in t.lines && !IsSeedEntry(t, t.lines[i].entryId) && t.lines[i].accountId in t.accounts ==>
                    !IsSeedCompany(t, t.accounts[t.lines[i].accountId].companyId))
              && ((forall i :: i in t.companies ==> t.companies[i].code != "1000") ==> q.company !in t.companies)
              && (forall i :: q.account <= i < q.account + |seed.accounts| && i in t.accounts ==> IsSeedCompany(t, t.accounts[i].companyId))
  {
    SeedSets(t);
    if i :| i in SeedIds(t.companies) {
      assert i in t.companies && t.companies[i].code == "1000";
    } else {
      forall j ensures j !in SeedIds(t.companies) {}
      assert SeedIds(t.companies) == {};
      forall i | i in t.companies ensures t.companies[i].code != "1000" {
        assert i !in SeedIds(t.companies);
      }
    }
  }

  /** The restore, in rows only: when it succeeds, and what it leaves. */
  lemma RestoreRowByRow(t: Tables, seed: Seed, q: Sequences)
    requires DistinctCodes(seed.accounts) && Sound(t)
    ensures Restore(t, seed, q).Some? ==> RowsRestored(t, Restore(t, seed, q).value, seed)
    ensures Restore(t, seed, q).Some? <==>
              && (forall i :: i in t.entries && !IsSeedEntry(t, i) && t.entries[i].reverses.Some? ==> !IsSeedEntry(t, t.entries[i].reverses.value))
              && (forall i :: i in t.lines && !IsSeedEntry(t, t.lines[i].entryId) ==> !IsSeedCompany(t, t.accounts[t.lines[i].accountId].companyId))
              && ((forall i :: i in t.companies ==> t.companies[i].code != "1000") ==> q.company !in t.companies)
              && (forall i :: q.account <= i < q.account + |seed.accounts| && i in t.accounts ==> IsSeedCompany(t, t.accounts[i].companyId))
  {
    RestoreIsExact(t, seed, q);
    RestorableMeansRows(t, seed, q);
    if Restore(t, seed, q).Some? {
      RestoredMeansRows(t, Restore(t, seed, q).value, seed);
    }
  }

  /** Where a restore fails, statement by statement, in terms of the tables it starts from. */
  lemma WhereItFails(t: Tables, seed: Seed, q: Sequences)
    requires DistinctCodes(seed.accounts) && Sound(t)
    ensures ClearJournals(t).Some? <==> NoReversalOfSeedEntries(t)
    ensures ClearJournals(t).Some? ==> (Deletes(t).Some? <==> NoLineUsesSeedAccounts(t))
    ensures Deletes(t).Some? ==>
              && Deletes(t).value.companies == t.companies
              && (RestoreCompany(Deletes(t).value, q.company).Some? <==> CompanyIdIsFree(t, q.company))
              && (AccountsRestored(Deletes(t).value, seed, q).Some? <==> CompanyIdIsFree(t, q.company) && AccountIdsAreFree(t, seed, q.account))
  {
    ClearJournalsExactly(t);
    DeletesExactly(t);
    DeletesKeepCompanies(t);
    if Deletes(t).Some? {
      var _ := RestoreCompanyExactly(Deletes(t).value, q.company);
      RestAfterDeletes(t, Deletes(t).value, seed, q);
    }
  }

  // ---------------------------------------------------------------------------------------------
  // Restoring again
  // ---------------------------------------------------------------------------------------------

  /** The sequences are ahead of every id in use, as they are when ids only ever come from them. */
  ghost predicate Ahead(t: Tables, q: Sequences) {
    (forall i :: i in t.companies ==> i < q.company) && (forall i :: i in t.accounts ==> i < q.account)
  }

  /** The sequences after a restore: the company statement draws one id even when it updates, and the
      account statement draws one for every row. */
  function After(q: Sequences, seed: Seed): Sequences {
    Sequences(q.company + 1, q.account + |seed.accounts|)
  }

  /** The same tables, except that the accounts of the seed company may have other ids. */
  ghost predicate SameButAccountIds(a: Tables, b: Tables) {
    && a.companies == b.companies && a.entries == b.entries && a.lines == b.lines && a.documentTypes == b.documentTypes
    && a.accounts - SeedAccountIds(a) == b.accounts - SeedAccountIds(b)
    && (forall s :: s in Chart(a) <==> s in Chart(b)) && |SeedAccountIds(a)| == |SeedAccountIds(b)|
  }

  /** Two restores of the same tables leave the same contents; in particular a restore of restored tables
      changes nothing but the ids of the seed accounts. */
  lemma RestoredAgain(t: Tables, u: Tables, v: Tables, seed: Seed)
    requires Restored(t, u, seed) && Restored(u, v, seed)
    ensures SameButAccountIds(u, v)
  {
    var id :| SeedIds(u.companies) == {id} && SeedIds(t.companies) <= {id} && u.companies == t.companies[id := SEED_COMPANY];
    var id' :| SeedIds(v.companies) == {id'} && SeedIds(u.companies) <= {id'} && v.companies == u.companies[id' := SEED_COMPANY];
    assert id in SeedIds(u.companies);
    assert v.companies == u.companies;
    assert v.entries == u.entries && v.lines == u.lines;
    assert v.documentTypes == u.documentTypes;
  }

  /** Restoring restored tables is restoring the tables before. */
  lemma RestoredInTwoSteps(t: Tables, u: Tables, v: Tables, seed: Seed)
    requires Restored(t, u, seed) && Restored(u, v, seed)
    ensures Restored(t, v, seed)
  {
    RestoredAgain(t, u, v, seed);
    assert v.entries == t.entries - SeedEntries(t);
    assert v.lines == t.lines - SeedLines(t);
    assert v.accounts - SeedAccountIds(v) == t.accounts - SeedAccountIds(t);
  }

  /** The sequences are still ahead after a restore. */
  lemma SequencesStayAhead(t: Tables, u: Tables, seed: Seed, q: Sequences)
    requires UniqueCompanyCodes(t.companies) && Restore(t, seed, q) == Some(u) && Ahead(t, q)
    ensures Ahead(u, After(q, seed))
  {
    var t2 := Deletes(t).value;
    DeletesKeepCompanies(t);
    var t3 := RestoreCompany(t2, q.company).value;
    assert forall i :: i in t3.companies ==> i in t.companies || i == q.company;
    forall i | i in u.accounts ensures i < q.account + |seed.accounts| {
      if id :| id in SeedIds(t3.companies) {
        if i !in t3.accounts {
          NewIdsByPlace(t3.accounts, t3.accounts.Keys, id, seed.accounts, q.account, i);
        }
      }
    }
  }

  /** After a restore nothing refers to the accounts a second one would delete. */
  lemma NothingRefersAfterRestore(t: Tables, u: Tables, seed: Seed)
    requires Sound(t) && NothingRefersToSeedRows(t) && Restored(t, u, seed)
    ensures NothingRefersToSeedRows(u)
  {
    forall i | i in u.lines ensures u.lines[i].accountId !in SeedAccountIds(u) {
      assert i in t.lines && i !in SeedLines(t);
      assert t.lines[i].accountId in t.accounts - SeedAccountIds(t);
      assert t.lines[i].accountId in u.accounts - SeedAccountIds(u);
    }
  }

  lemma AheadIsFree(t: Tables, seed: Seed, q: Sequences)
    requires Ahead(t, q)
    ensures NewIdsAreFree(t, seed, q)
  {
  }

  /** Idempotence: when ids only ever come from the sequences, a restore that succeeds can be repeated,
      and the second one changes nothing but the ids of the seed accounts. */
  lemma RestoreTwice(t: Tables, seed: Seed, q: Sequences)
    requires DistinctCodes(seed.accounts) && Sound(t) && Ahead(t, q) && Restore(t, seed, q).Some?
    ensures Sound(Restore(t, seed, q).value)
    ensures var u := Restore(t, seed, q).value;
            && Restore(u, seed, After(q, seed)).Some?
            && SameButAccountIds(u, Restore(u, seed, After(q, seed)).value)
  {
    var u := Restore(t, seed, q).value;
    RestoreIsExact(t, seed, q);
    SequencesStayAhead(t, u, seed, q);
    NothingRefersAfterRestore(t, u, seed);
    AheadIsFree(u, seed, After(q, seed));
    RestoreIsExact(u, seed, After(q, seed));
    RestoredAgain(t, u, Restore(u, seed, After(q, seed)).value, seed);
  }
}
