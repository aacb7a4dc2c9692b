/**
 The tables that restore-seed touches, the constraints the database keeps on them, and its SQL
 statements as functions on the tables. A statement that would break a constraint fails.
 */
module SeedTables {
  import opened Prelude

  datatype Company = Company(code: string, name: string, currency: string)
  datatype Account = Account(companyId: int, code: string, name: string, kind: string)
  /** A journal entry; `reverses` is the entry it reverses, if any. */
  datatype Entry = Entry(companyId: int, reverses: Option<int>, narration: string)
  datatype Line = Line(entryId: int, accountId: int, amount: int)
  datatype DocumentType = DocumentType(name: string, inventory: bool, gl: bool, ar: bool, ap: bool, numbering: string, perYear: bool)

  /** The tables by primary key. */
  datatype Tables = Tables(
    companies: map<int, Company>,
    accounts: map<int, Account>,
    entries: map<int, Entry>,
    lines: map<int, Line>,
    documentTypes: map<string, DocumentType>)

  /** The next values of the id sequences. They advance even when a transaction is rolled back. */
  datatype Sequences = Sequences(company: int, account: int)

  datatype SeedAccount = SeedAccount(code: string, name: string, kind: string)

  /** The rows to put back besides the company: its chart of accounts, and the document types. */
  datatype Seed = Seed(accounts: seq<SeedAccount>, documentTypes: map<string, DocumentType>)

  const SEED_CODE := "1000"
  const SEED_COMPANY := Company(SEED_CODE, "Local Operations India", "INR")

  const SEED_ACCOUNTS: seq<SeedAccount> := [
    SeedAccount("1000", "Cash", "asset"),
    SeedAccount("1100", "Bank Account", "asset"),
    SeedAccount("1200", "Accounts Receivable", "asset"),
    SeedAccount("1300", "Furniture & Fixtures", "asset"),
    SeedAccount("1400", "Inventory", "asset"),
    SeedAccount("2000", "Accounts Payable", "liability"),
    SeedAccount("2100", "Short-Term Loans", "liability"),
    SeedAccount("3000", "Owner Capital", "equity"),
    SeedAccount("3100", "Retained Earnings", "equity"),
    SeedAccount("4000", "Sales Revenue", "revenue"),
    SeedAccount("4100", "Service Revenue", "revenue"),
    SeedAccount("5000", "Cost of Goods Sold", "expense"),
    SeedAccount("5100", "Rent Expense", "expense"),
    SeedAccount("5200", "Salary Expense", "expense"),
    SeedAccount("5300", "Utilities Expense", "expense")
  ]

  const SEED_DOCUMENT_TYPES: map<string, DocumentType> := map[
    "JE" := DocumentType("Journal Entry", false, true, false, false, "global", false),
    "SI" := DocumentType("Sales Invoice", true, true, true, false, "per_fy", true),
    "PI" := DocumentType("Purchase Invoice", true, true, false, true, "per_fy", true)
  ]

  const SEED := Seed(SEED_ACCOUNTS, SEED_DOCUMENT_TYPES)

  // ---------------------------------------------------------------------------------------------
  // Constraints
  // ---------------------------------------------------------------------------------------------

  ghost predicate UniqueCompanyCodes(companies: map<int, Company>) {
    forall i, j :: i in companies && j in companies && companies[i].code == companies[j].code ==> i == j
  }

  ghost predicate UniqueAccountCodes(accounts: map<int, Account>) {
    forall i, j :: i in accounts && j in accounts && accounts[i].companyId == accounts[j].companyId && accounts[i].code == accounts[j].code ==> i == j
  }

  /** Every reference points at an existing row. */
  ghost predicate References(t: Tables) {
    && (forall i :: i in t.accounts ==> t.accounts[i].companyId in t.companies)
    && (forall i :: i in t.entries ==> t.entries[i].companyId in t.companies)
    && (forall i :: i in t.entries && t.entries[i].reverses.Some? ==> t.entries[i].reverses.value in t.entries)
    && (forall i :: i in t.lines ==> t.lines[i].entryId in t.entries && t.lines[i].accountId in t.accounts)
  }

  ghost predicate Sound(t: Tables) {
    UniqueCompanyCodes(t.companies) && UniqueAccountCodes(t.accounts) && References(t)
  }

  // ---------------------------------------------------------------------------------------------
  // The rows of the seed company
  // ---------------------------------------------------------------------------------------------

  function SeedIds(companies: map<int, Company>): set<int> {
    set i | i in companies && companies[i].code == SEED_CODE
  }

  function SeedEntries(t: Tables): set<int> {
    set i | i in t.entries && t.entries[i].companyId in SeedIds(t.companies)
  }

  function SeedLines(t: Tables): set<int> {
    set i | i in t.lines && t.lines[i].entryId in SeedEntries(t)
  }

  function SeedAccountIds(t: Tables): set<int> {
    set i | i in t.accounts && t.accounts[i].companyId in SeedIds(t.companies)
  }

  // ---------------------------------------------------------------------------------------------
  // Statements
  // ---------------------------------------------------------------------------------------------

  function DeleteLines(t: Tables): Tables {
    t.(lines := t.lines - SeedLines(t))
  }

  /** Fails if a remaining line or a remaining reversal refers to a deleted entry. */
  function DeleteEntries(t: Tables): Option<Tables> {
    var gone := SeedEntries(t);
    if exists i :: i in t.lines && t.lines[i].entryId in gone then None
    else if exists i :: i in t.entries && i !in gone && t.entries[i].reverses.Some? && t.entries[i].reverses.value in gone then None
    else Some(t.(entries := t.entries - gone))
  }

  function ClearJournals(t: Tables): Option<Tables> { DeleteEntries(DeleteLines(t)) }

  /** Fails if a remaining line refers to a deleted account. */
  function DeleteAccounts(t: Tables): Option<Tables> {
    var gone := SeedAccountIds(t);
    if exists i :: i in t.lines && t.lines[i].accountId in gone then None
    else Some(t.(accounts := t.accounts - gone))
  }

  /** INSERT ... ON CONFLICT (company_code) DO UPDATE, with `next` as the id drawn for a new row. */
  function RestoreCompany(t: Tables, next: int): (r: Option<Tables>)
    requires UniqueCompanyCodes(t.companies)
    ensures r.Some? ==> UniqueCompanyCodes(r.value.companies)
  {
    var ids := SeedIds(t.companies);
    if ids != {} then
      Some(t.(companies := map i | i in t.companies ::
          if i in ids then t.companies[i].(name := SEED_COMPANY.name, currency := SEED_COMPANY.currency) else t.companies[i]))
    else if next in t.companies then None
    else
      assert forall i :: i in t.companies ==> i !in ids;
      Some(t.(companies := t.companies[next := SEED_COMPANY]))
  }

  function AccountsWith(accounts: map<int, Account>, companyId: int, code: string): set<int> {
    set i | i in accounts && accounts[i].companyId == companyId && accounts[i].code == code
  }

  function RowOf(companyId: int, seed: SeedAccount): Account {
    Account(companyId, seed.code, seed.name, seed.kind)
  }

  /** The update branch: name and type of the conflicting rows are overwritten. */
  function Overwrite(accounts: map<int, Account>, conflicts: set<int>, seed: SeedAccount): map<int, Account> {
    map i | i in accounts :: if i in conflicts then accounts[i].(name := seed.name, kind := seed.kind) else accounts[i]
  }

  /** INSERT ... ON CONFLICT (company_id, code) DO UPDATE for the rows `seeds` of one company, in order.
      Each row draws an id. A row that conflicts with one from `existing` updates it; a row that
      conflicts with one inserted or updated by the same statement makes the statement fail. */
  function UpsertAccounts(accounts: map<int, Account>, existing: set<int>, companyId: int, seeds: seq<SeedAccount>, next: int)
    : Option<map<int, Account>>
    decreases |seeds|
  {
    if seeds == [] then Some(accounts)
    else
      var conflicts := AccountsWith(accounts, companyId, seeds[0].code);
      if conflicts == {} then
        if next in accounts then None
        else UpsertAccounts(accounts[next := RowOf(companyId, seeds[0])], existing, companyId, seeds[1..], next + 1)
      else if conflicts <= existing then
        UpsertAccounts(Overwrite(accounts, conflicts, seeds[0]), existing - conflicts, companyId, seeds[1..], next + 1)
      else None
  }

  /** The accounts are inserted for the company that has the seed code; for none, nothing happens. */
  function RestoreAccounts(t: Tables, seed: Seed, next: int): Option<Tables>
    requires UniqueCompanyCodes(t.companies)
  {
    if !exists id :: id in SeedIds(t.companies) then Some(t)
    else
      var id :| id in SeedIds(t.companies);
      match UpsertAccounts(t.accounts, t.accounts.Keys, id, seed.accounts, next)
      case None => None
      case Some(accounts) => Some(t.(accounts := accounts))
  }

  /** INSERT ... ON CONFLICT (code) DO NOTHING: rows that are there stay as they are. */
  function RestoreDocumentTypes(t: Tables, seed: Seed): Tables {
    t.(documentTypes := seed.documentTypes + t.documentTypes)
  }
}
