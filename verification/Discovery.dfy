/**
 Finding the migrations of a directory listing: which entries count, when discovery stops the
 program, and what list it hands to the migrator.
 */
module Discovery {
  import opened Prelude
  import opened FileNames

  datatype DirEntry = DirEntry(name: string, isDir: bool)

  datatype DiscoverError =
    | BadFormat(filename: string)
    | DuplicateVersion(version: string)

  predicate IsMigration(entry: DirEntry) {
    !entry.isDir && HasSuffix(entry.name, EXTENSION)
  }

  /** What that comes to: the entry is no directory and its name ends in ".sql". */
  ghost predicate IsSqlFile(entry: DirEntry) {
    !entry.isDir && exists stem: string :: entry.name == stem + ".sql"
  }

  lemma MigrationsAreSqlFiles(entry: DirEntry)
    ensures IsMigration(entry) <==> IsSqlFile(entry)
  {
    SuffixEndsTheName(entry.name, ".sql");
  }

  /** The names of the entries that are migrations, in listing order. */
  function Candidates(entries: seq<DirEntry>): seq<string> {
    if entries == [] then []
    else
      var last := entries[|entries| - 1];
      Candidates(entries[..|entries| - 1]) + (if IsMigration(last) then [last.name] else [])
  }

  lemma {:induction false} CandidatesAreTheMigrations(entries: seq<DirEntry>, name: string)
    ensures name in Candidates(entries) <==> exists e :: e in entries && IsSqlFile(e) && e.name == name
  {
    if entries == [] {
    } else {
      MigrationsAreSqlFiles(entries[|entries| - 1]);
      var last := entries[|entries| - 1];
      CandidatesAreTheMigrations(entries[..|entries| - 1], name);
      assert entries == entries[..|entries| - 1] + [last];
    }
  }

  /** Why the last of `names` is not acceptable after the others, if it is not. */
  function Complaint(names: seq<string>): Option<DiscoverError>
    requires names != []
  {
    var last := names[|names| - 1];
    if !HasVersion(last) then Some(BadFormat(last))
    else if Version(last) in Versions(names[..|names| - 1]) then Some(DuplicateVersion(Version(last)))
    else None
  }

  /** The verdict on a list of candidates: that of its first unacceptable name. */
  function Verdict(names: seq<string>): Option<DiscoverError> {
    if names == [] then None
    else
      var before := Verdict(names[..|names| - 1]);
      if before.Some? then before else Complaint(names)
  }

  /** What discoverMigrations computes from a listing. */
  function Discover(entries: seq<DirEntry>): Result<seq<string>, DiscoverError> {
    match Verdict(Candidates(entries))
    case Some(error) => Failure(error)
    case None => Success(Sort(Candidates(entries)))
  }

  lemma {:induction false} AcceptedMeansDistinct(names: seq<string>)
    ensures Verdict(names).None? <==> DistinctVersions(names)
  {
    if names == [] {
    } else {
      var front, last := names[..|names| - 1], names[|names| - 1];
      AcceptedMeansDistinct(front);
      assert names == front + [last];
      if Verdict(names).None? {
        forall i, j | 0 <= i < j < |names| ensures Version(names[i]) != Version(names[j]) {
          assert Versions(front)[i] == Version(names[i]);
          if j < |front| { assert names[i] == front[i] && names[j] == front[j]; }
        }
        forall i | 0 <= i < |names| ensures HasVersion(names[i]) {
          if i < |front| { assert names[i] == front[i]; }
        }
      }
      if DistinctVersions(names) {
        assert DistinctVersions(front);
        assert forall i :: 0 <= i < |front| ==> Versions(front)[i] == Version(names[i]);
      }
    }
  }

  /** Discovery succeeds exactly when every migration entry has a separator and no two of them share
      a version, and then it returns precisely those names in strictly increasing order. */
  lemma DiscoverIsExact(entries: seq<DirEntry>)
    ensures Discover(entries).Success? <==> DistinctVersions(Candidates(entries))
    ensures Discover(entries).Success? ==>
              var files := Discover(entries).value;
              && StrictlyIncreasing(files)
              && DistinctVersions(files)
              && multiset(files) == multiset(Candidates(entries))
              && forall name :: name in files <==> exists e :: e in entries && IsSqlFile(e) && e.name == name
  {
    var names := Candidates(entries);
    AcceptedMeansDistinct(names);
    if DistinctVersions(names) {
      var files := Sort(names);
      SameElements(files, names);
      DistinctSurvivesPermutation(names, files);
      forall i, j | 0 <= i < j < |files| ensures Below(files[i], files[j]) {
        BelowIsTotal(files[i], files[j]);
      }
      forall name ensures name in files <==> exists e :: e in entries && IsSqlFile(e) && e.name == name {
        CandidatesAreTheMigrations(entries, name);
      }
    }
  }

  lemma SameElements(xs: seq<string>, ys: seq<string>)
    requires multiset(xs) == multiset(ys)
    ensures forall x :: x in xs <==> x in ys
  {
    forall x ensures x in xs <==> x in ys {
      assert x in xs <==> x in multiset(xs);
      assert x in ys <==> x in multiset(ys);
    }
  }

  lemma DistinctSurvivesPermutation(names: seq<string>, files: seq<string>)
    requires DistinctVersions(names) && multiset(names) == multiset(files)
    ensures DistinctVersions(files)
  {
    SameElements(names, files);
    forall i | 0 <= i < |files| ensures HasVersion(files[i]) {
      assert files[i] in names;
    }
    forall i, j | 0 <= i < j < |files| ensures Version(files[i]) != Version(files[j]) {
      assert files[i] in names && files[j] in names;
      var a :| 0 <= a < |names| && names[a] == files[i];
      var b :| 0 <= b < |names| && names[b] == files[j];
      if a == b {
        TwiceInMultiset(files, i, j);
        OnceInMultiset(names, a);
      }
    }
  }

  lemma TwiceInMultiset(xs: seq<string>, i: nat, j: nat)
    requires i < j < |xs| && xs[i] == xs[j]
    ensures multiset(xs)[xs[i]] >= 2
  {
    assert xs == xs[..j] + [xs[j]] + xs[j + 1..];
    assert xs[..j][i] == xs[i];
    assert xs[i] in multiset(xs[..j]);
  }

  lemma OnceInMultiset(xs: seq<string>, i: nat)
    requires DistinctVersions(xs) && i < |xs|
    ensures multiset(xs)[xs[i]] == 1
  {
    var before, after := xs[..i], xs[i + 1..];
    assert xs == before + [xs[i]] + after;
    assert xs[i] !in before;
    assert xs[i] !in after;
  }

  /** Discovery decides by versions alone: two lists with the same keys get the same verdict, down to the
      name or version that it complains about. */
  lemma {:induction false} SameKeysSameVerdict(names: seq<string>, renamed: seq<string>)
    requires SortKeys(names) == SortKeys(renamed)
    ensures Verdict(names) == Verdict(renamed)
  {
    assert |names| == |SortKeys(names)| == |renamed|;
    if names == [] {
    } else {
      var n := |names| - 1;
      assert SortKeys(names[..n]) == SortKeys(names)[..n] == SortKeys(renamed[..n]);
      SameKeysSameVerdict(names[..n], renamed[..n]);
      forall i | 0 <= i < |names| ensures Version(names[i]) == Version(renamed[i]) && (HasVersion(names[i]) <==> HasVersion(renamed[i])) {
        SameKeyAt(names, renamed, i);
      }
      KeyTellsVersion(names[n], renamed[n]);
      assert Versions(names[..n]) == Versions(renamed[..n]);
    }
  }

  lemma SameKeyAt(names: seq<string>, renamed: seq<string>, i: nat)
    requires SortKeys(names) == SortKeys(renamed) && i < |names| && i < |renamed|
    ensures SortKey(names[i]) == SortKey(renamed[i])
    ensures Version(names[i]) == Version(renamed[i]) && (HasVersion(names[i]) <==> HasVersion(renamed[i]))
  {
    assert SortKeys(names)[i] == SortKeys(renamed)[i];
    KeyTellsVersion(names[i], renamed[i]);
  }

  lemma OneMoreEntry(entries: seq<DirEntry>, n: nat)
    requires n < |entries|
    ensures Candidates(entries[..n + 1]) == Candidates(entries[..n]) + (if IsMigration(entries[n]) then [entries[n].name] else [])
  {
    assert entries[..n + 1][..n] == entries[..n];
  }

  lemma OneMoreName(names: seq<string>, name: string)
    requires Verdict(names).None?
    ensures Verdict(names + [name]) ==
              if !HasVersion(name) then Some(BadFormat(name))
              else if Version(name) in Versions(names) then Some(DuplicateVersion(Version(name)))
              else None
    ensures Versions(names + [name]) == Versions(names) + [Version(name)]
  {
    assert (names + [name])[..|names|] == names;
  }

  // ---------------------------------------------------------------------------------------------
  // Discovery in terms of the listing itself
  // ---------------------------------------------------------------------------------------------

  /** Every migration among the entries has a separator, and no two of them start with the same
      version. */
  ghost predicate IsWellNamed(entries: seq<DirEntry>) {
    && (forall i :: 0 <= i < |entries| && IsSqlFile(entries[i]) ==> '_' in entries[i].name)
    && (forall i, j :: 0 <= i < j < |entries| && IsSqlFile(entries[i]) && IsSqlFile(entries[j]) ==>
          !ShareVersion(entries[i].name, entries[j].name))
  }

  /** What the entry after well-named ones breaks, if anything. */
  ghost predicate BreaksARule(entries: seq<DirEntry>, n: nat)
    requires n < |entries|
  {
    && IsSqlFile(entries[n])
    && ('_' !in entries[n].name
        || exists i :: 0 <= i < n && IsSqlFile(entries[i]) && ShareVersion(entries[i].name, entries[n].name))
  }

  lemma OneMoreIsWellNamed(entries: seq<DirEntry>, n: nat)
    requires n < |entries|
    ensures IsWellNamed(entries[..n + 1]) <==> IsWellNamed(entries[..n]) && !BreaksARule(entries, n)
  {
    var front, more := entries[..n], entries[..n + 1];
    assert forall i :: 0 <= i < n ==> front[i] == more[i] == entries[i];
    assert more[n] == entries[n];
    if IsWellNamed(more) {
      forall i, j | 0 <= i < j < n && IsSqlFile(front[i]) && IsSqlFile(front[j]) ensures !ShareVersion(front[i].name, front[j].name) {
        assert !ShareVersion(more[i].name, more[j].name);
      }
      forall i | 0 <= i < n && IsSqlFile(entries[i]) && IsSqlFile(entries[n]) ensures !ShareVersion(entries[i].name, entries[n].name) {
        assert !ShareVersion(more[i].name, more[n].name);
      }
    }
    if IsWellNamed(front) && !BreaksARule(entries, n) {
      forall i, j | 0 <= i < j < n + 1 && IsSqlFile(more[i]) && IsSqlFile(more[j]) ensures !ShareVersion(more[i].name, more[j].name) {
        assert j < n ==> more[j] == front[j];
      }
    }
  }

  /** A name after accepted candidates takes one of their versions exactly if it shares it with an entry. */
  lemma TakenVersions(entries: seq<DirEntry>, name: string)
    requires Verdict(Candidates(entries)).None? && HasVersion(name)
    ensures Version(name) in Versions(Candidates(entries))
            <==> exists i :: 0 <= i < |entries| && IsSqlFile(entries[i]) && ShareVersion(entries[i].name, name)
  {
    var names := Candidates(entries);
    AcceptedMeansDistinct(names);
    if Version(name) in Versions(names) {
      var k :| 0 <= k < |names| && Versions(names)[k] == Version(name);
      CandidatesAreTheMigrations(entries, names[k]);
      VersionsAreShared(names[k], name);
      var e :| e in entries && IsSqlFile(e) && e.name == names[k];
      var i :| 0 <= i < |entries| && entries[i] == e;
      assert IsSqlFile(entries[i]) && ShareVersion(entries[i].name, name);
    }
    if i :| 0 <= i < |entries| && IsSqlFile(entries[i]) && ShareVersion(entries[i].name, name) {
      CandidatesAreTheMigrations(entries, entries[i].name);
      var k :| 0 <= k < |names| && names[k] == entries[i].name;
      VersionsAreShared(names[k], name);
      assert Versions(names)[k] == Version(name);
    }
  }

  /** The verdict after one more entry. */
  lemma NextVerdict(entries: seq<DirEntry>, n: nat)
    requires n < |entries| && Verdict(Candidates(entries[..n])).None?
    ensures Verdict(Candidates(entries[..n + 1]))
            == if !BreaksARule(entries, n) then None
               else if '_' in entries[n].name then Some(DuplicateVersion(Version(entries[n].name))) else Some(BadFormat(entries[n].name))
  {
    OneMoreEntry(entries, n);
    MigrationsAreSqlFiles(entries[n]);
    if IsMigration(entries[n]) {
      OneMoreName(Candidates(entries[..n]), entries[n].name);
      VersionsAreShared(entries[n].name, entries[n].name);
      if HasVersion(entries[n].name) {
        TakenVersions(entries[..n], entries[n].name);
        SharedBefore(entries, n);
      }
    } else {
      assert Candidates(entries[..n + 1]) == Candidates(entries[..n]);
    }
  }

  lemma SharedBefore(entries: seq<DirEntry>, n: nat)
    requires n < |entries|
    ensures (exists i :: 0 <= i < n && IsSqlFile(entries[i]) && ShareVersion(entries[i].name, entries[n].name))
            <==> (exists i :: 0 <= i < |entries[..n]| && IsSqlFile(entries[..n][i]) && ShareVersion(entries[..n][i].name, entries[n].name))
  {
    if i :| 0 <= i < n && IsSqlFile(entries[i]) && ShareVersion(entries[i].name, entries[n].name) {
      assert entries[..n][i] == entries[i];
    }
  }

  /** Discovery succeeds exactly for a well-named directory. */
  lemma {:induction false} DiscoverSucceedsIffWellNamed(entries: seq<DirEntry>)
    ensures Discover(entries).Success? <==> IsWellNamed(entries)
  {
    if entries == [] {
    } else {
      var n := |entries| - 1;
      assert entries[..n + 1] == entries;
      DiscoverSucceedsIffWellNamed(entries[..n]);
      OneMoreIsWellNamed(entries, n);
      if Verdict(Candidates(entries[..n])).None? {
        NextVerdict(entries, n);
      } else {
        StoppedEarly(entries, n);
      }
    }
  }

  /** A failed discovery reports the first entry of the listing that breaks a rule: a name without a
      separator as it is, and otherwise the version that an earlier entry has taken. */
  lemma {:induction false} DiscoverReportsTheFirst(entries: seq<DirEntry>) returns (n: nat)
    requires Discover(entries).Failure?
    ensures n < |entries| && IsWellNamed(entries[..n]) && BreaksARule(entries, n)
    ensures Discover(entries).error
            == if '_' in entries[n].name then DuplicateVersion(Version(entries[n].name)) else BadFormat(entries[n].name)
  {
    if entries == [] {
      assert false;
    } else {
      var k := |entries| - 1;
      assert entries[..k + 1] == entries;
      if Verdict(Candidates(entries[..k])).None? {
        n := k;
        NextVerdict(entries, k);
        DiscoverSucceedsIffWellNamed(entries[..k]);
      } else {
        StoppedEarly(entries, k);
        n := DiscoverReportsTheFirst(entries[..k]);
        SameRuleBroken(entries, k, n);
      }
    }
  }

  lemma SameRuleBroken(entries: seq<DirEntry>, k: nat, n: nat)
    requires n < k <= |entries| && BreaksARule(entries[..k], n)
    ensures entries[..k][..n] == entries[..n] && entries[..k][n] == entries[n] && BreaksARule(entries, n)
  {
    if i :| 0 <= i < n && IsSqlFile(entries[..k][i]) && ShareVersion(entries[..k][i].name, entries[..k][n].name) {
      assert entries[i] == entries[..k][i];
    }
  }

  /** The loop of discoverMigrations: one pass over the listing with a map of the versions seen. */
  method DiscoverMigrations(entries: seq<DirEntry>) returns (r: Result<seq<string>, DiscoverError>)
    ensures r == Discover(entries)
    ensures r.Success? <==> IsWellNamed(entries)
    ensures r.Success? ==>
              && StrictlyIncreasing(r.value)
              && forall name :: name in r.value <==> exists e :: e in entries && IsSqlFile(e) && e.name == name
  {
    DiscoverSucceedsIffWellNamed(entries);
    DiscoverIsExact(entries);
    var filenames: seq<string> := [];
    var versionMap: map<string, bool> := map[];
    for n := 0 to |entries|
      invariant filenames == Candidates(entries[..n])
      invariant Verdict(filenames).None?
      invariant forall v :: v in versionMap <==> v in Versions(filenames)
      invariant forall v :: v in versionMap ==> versionMap[v]
    {
      var entry := entries[n];
      OneMoreEntry(entries, n);
      if entry.isDir || !HasSuffix(entry.name, EXTENSION) {
        continue;
      }
      OneMoreName(filenames, entry.name);
      if !HasVersion(entry.name) {
        StoppedEarly(entries, n + 1);
        return Failure(BadFormat(entry.name));
      }
      var version := Version(entry.name);
      if version in versionMap && versionMap[version] {
        StoppedEarly(entries, n + 1);
        return Failure(DuplicateVersion(version));
      }
      versionMap := versionMap[version := true];
      filenames := filenames + [entry.name];
    }
    assert entries[..|entries|] == entries;
    return Success(Sort(filenames));
  }

  lemma {:induction false} StoppedEarly(entries: seq<DirEntry>, n: nat)
    requires n <= |entries| && Verdict(Candidates(entries[..n])).Some?
    ensures Verdict(Candidates(entries)) == Verdict(Candidates(entries[..n]))
    decreases |entries|
  {
    if n < |entries| {
      var front := entries[..|entries| - 1];
      assert front[..n] == entries[..n];
      StoppedEarly(front, n);
      if IsMigration(entries[|entries| - 1]) {
        assert Candidates(entries)[..|Candidates(entries)| - 1] == Candidates(front);
      } else {
        assert Candidates(entries) == Candidates(front);
      }
    } else {
      assert entries[..n] == entries;
    }
  }
}
