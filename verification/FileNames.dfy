/**
 Migration file names: the `version_description.sql` format, the string order that decides the order
 in which migrations run, and how that order relates to the order of the versions themselves.
 */
module FileNames {
  import opened Digits

  const SEPARATOR: char := '_'
  const EXTENSION: string := ".sql"

  // ---------------------------------------------------------------------------------------------
  // The order of sort.Strings
  // ---------------------------------------------------------------------------------------------

  /** Strict lexicographic order, character by character. */
  predicate Below(a: string, b: string) {
    b != [] && (a == [] || a[0] < b[0] || (a[0] == b[0] && Below(a[1..], b[1..])))
  }

  lemma {:induction false} BelowIsTotal(a: string, b: string)
    ensures a == b || Below(a, b) || Below(b, a)
    ensures !(Below(a, b) && Below(b, a))
    ensures Below(a, b) ==> a != b
  {
    if a != [] && b != [] && a[0] == b[0] {
      BelowIsTotal(a[1..], b[1..]);
      assert a == [a[0]] + a[1..] && b == [b[0]] + b[1..];
    }
  }

  /** What the order is: where two names first differ, the smaller character comes first, and a name
      comes before every longer one that starts with it. */
  lemma {:induction false} BelowIsLexicographic(a: string, b: string)
    ensures Below(a, b) <==> exists k :: DiffersAt(a, b, k)
  {
    if a == [] || b == [] {
      assert b != [] ==> DiffersAt(a, b, 0);
    } else if a[0] != b[0] {
      assert a[0] < b[0] ==> DiffersAt(a, b, 0);
      forall k ensures DiffersAt(a, b, k) ==> k == 0 {
        if 0 < k <= |a| && k < |b| {
          assert a[..k][0] != b[..k][0];
        }
      }
    } else {
      BelowIsLexicographic(a[1..], b[1..]);
      forall k ensures DiffersAt(a[1..], b[1..], k) <==> DiffersAt(a, b, k + 1) && k >= 0 {
        if 0 <= k < |a| && k < |b| {
          assert a[..k + 1] == [a[0]] + a[1..][..k] && b[..k + 1] == [b[0]] + b[1..][..k];
          assert a[1..][..k] == a[..k + 1][1..] && b[1..][..k] == b[..k + 1][1..];
        }
      }
      if k :| DiffersAt(a, b, k) {
        assert k != 0;
        assert DiffersAt(a[1..], b[1..], k - 1);
      }
      if k :| DiffersAt(a[1..], b[1..], k) {
        assert DiffersAt(a, b, k + 1);
      }
    }
  }

  /** `a` and `b` agree before index k, and there `a` ends or has the smaller character. */
  predicate DiffersAt(a: string, b: string, k: int) {
    0 <= k <= |a| && k < |b| && a[..k] == b[..k] && (k == |a| || a[k] < b[k])
  }

  lemma {:induction false} BelowIsTransitive(a: string, b: string, c: string)
    requires Below(a, b) && Below(b, c)
    ensures Below(a, c)
  {
    if a != [] && a[0] == b[0] == c[0] {
      BelowIsTransitive(a[1..], b[1..], c[1..]);
    }
  }

  /** Every name is strictly below all later ones. */
  ghost predicate StrictlyIncreasing(names: seq<string>) {
    forall i, j :: 0 <= i < j < |names| ==> Below(names[i], names[j])
  }

  /** A strictly increasing list is determined by the set of its elements. */
  lemma {:induction false} IncreasingListIsUnique(xs: seq<string>, ys: seq<string>)
    requires StrictlyIncreasing(xs) && StrictlyIncreasing(ys)
    requires forall x :: x in xs <==> x in ys
    ensures xs == ys
  {
    assert ys != [] ==> ys[0] in ys;
    if xs == [] {
    } else {
      assert xs[0] in ys;
      FirstIsLeast(xs, ys[0]);
      FirstIsLeast(ys, xs[0]);
      BelowIsTotal(xs[0], ys[0]);
      forall x ensures x in xs[1..] <==> x in ys[1..] {
        TailWithoutHead(xs, x);
        TailWithoutHead(ys, x);
      }
      IncreasingListIsUnique(xs[1..], ys[1..]);
      assert xs == [xs[0]] + xs[1..] && ys == [ys[0]] + ys[1..];
    }
  }

  lemma FirstIsLeast(xs: seq<string>, x: string)
    requires StrictlyIncreasing(xs) && x in xs
    ensures x == xs[0] || Below(xs[0], x)
  {
  }

  lemma TailWithoutHead(xs: seq<string>, x: string)
    requires StrictlyIncreasing(xs) && xs != []
    ensures x in xs[1..] <==> x in xs && x != xs[0]
  {
    if x in xs[1..] {
      var i :| 0 <= i < |xs| - 1 && xs[1..][i] == x;
      assert Below(xs[0], xs[i + 1]);
      BelowIsTotal(xs[0], x);
    }
    if x in xs && x != xs[0] {
      var i :| 0 <= i < |xs| && xs[i] == x;
      assert xs[1..][i - 1] == x;
    }
  }

  // ---------------------------------------------------------------------------------------------
  // Sorting
  // ---------------------------------------------------------------------------------------------

  /** Never decreasing: what sort.Strings promises of its result. */
  ghost predicate Sorted(names: seq<string>) {
    forall i, j :: 0 <= i < j < |names| ==> !Below(names[j], names[i])
  }

  function Insert(name: string, names: seq<string>): (r: seq<string>)
    requires Sorted(names)
    ensures Sorted(r)
    ensures multiset(r) == multiset(names) + multiset{name}
  {
    if names == [] then [name]
    else if !Below(names[0], name) then
      assert Sorted([name] + names) by { InsertInFront(name, names); }
      assert multiset([name] + names) == multiset{name} + multiset(names);
      [name] + names
    else
      var rest := Insert(name, names[1..]);
      assert names == [names[0]] + names[1..];
      assert Sorted([names[0]] + rest) by { KeepInFront(name, names, rest); }
      [names[0]] + rest
  }

  lemma InsertInFront(name: string, names: seq<string>)
    requires Sorted(names) && names != [] && !Below(names[0], name)
    ensures Sorted([name] + names)
  {
    var r := [name] + names;
    forall i, j | 0 <= i < j < |r| ensures !Below(r[j], r[i]) {
      if i == 0 && j > 1 {
        BelowIsTotal(names[0], names[j - 1]);
        if Below(names[j - 1], name) {
          if names[0] != names[j - 1] { BelowIsTransitive(names[0], names[j - 1], name); }
        }
      }
    }
  }

  lemma KeepInFront(name: string, names: seq<string>, rest: seq<string>)
    requires Sorted(names) && names != [] && Below(names[0], name)
    requires Sorted(rest) && multiset(rest) == multiset(names[1..]) + multiset{name}
    ensures Sorted([names[0]] + rest)
  {
    var r := [names[0]] + rest;
    forall i, j | 0 <= i < j < |r| ensures !Below(r[j], r[i]) {
      if i == 0 {
        assert r[j] in multiset(rest);
        if r[j] in names[1..] {
          var k :| 0 <= k < |names| - 1 && names[1..][k] == r[j];
          assert names[k + 1] == r[j];
        } else {
          assert r[j] == name;
          BelowIsTotal(names[0], name);
        }
      }
    }
  }

  /** The sorted rearrangement of `names`; the postcondition leaves only one (SortIsDetermined). */
  function Sort(names: seq<string>): (r: seq<string>)
    ensures Sorted(r)
    ensures multiset(r) == multiset(names)
  {
    if names == [] then []
    else
      assert names == [names[0]] + names[1..];
      Insert(names[0], Sort(names[1..]))
  }

  /** Whatever algorithm sorts `names`, the result is Sort(names). */
  lemma {:induction false} SortIsDetermined(xs: seq<string>, ys: seq<string>)
    requires Sorted(xs) && Sorted(ys) && multiset(xs) == multiset(ys)
    ensures xs == ys
  {
    assert |xs| == |multiset(xs)| == |multiset(ys)| == |ys|;
    if xs == [] {
    } else {
      SortedHeadsAgree(xs, ys);
      assert xs == [xs[0]] + xs[1..] && ys == [ys[0]] + ys[1..];
      assert multiset(xs[1..]) == multiset(xs) - multiset{xs[0]};
      assert multiset(ys[1..]) == multiset(ys) - multiset{xs[0]};
      SortIsDetermined(xs[1..], ys[1..]);
    }
  }

  lemma SortedHeadsAgree(xs: seq<string>, ys: seq<string>)
    requires Sorted(xs) && Sorted(ys) && multiset(xs) == multiset(ys) && xs != [] && ys != []
    ensures xs[0] == ys[0]
  {
    assert xs[0] in multiset(ys) && ys[0] in multiset(xs);
    var i :| 0 <= i < |ys| && ys[i] == xs[0];
    var j :| 0 <= j < |xs| && xs[j] == ys[0];
    BelowIsTotal(xs[0], ys[0]);
  }

  // ---------------------------------------------------------------------------------------------
  // Versions
  // ---------------------------------------------------------------------------------------------

  predicate HasSuffix(s: string, suffix: string) {
    |suffix| <= |s| && s[|s| - |suffix|..] == suffix
  }

  lemma SuffixEndsTheName(s: string, suffix: string)
    ensures HasSuffix(s, suffix) <==> exists stem: string :: s == stem + suffix
  {
    if HasSuffix(s, suffix) {
      assert s == s[..|s| - |suffix|] + suffix;
    }
    if stem: string :| s == stem + suffix {
      assert s[|s| - |suffix|..] == suffix;
    }
  }

  /** How many characters come before the first separator; all of them when there is none. */
  function VersionLength(name: string): (n: nat)
    ensures n <= |name|
    ensures SEPARATOR !in name[..n]
    ensures n < |name| ==> name[n] == SEPARATOR
  {
    if name == [] || name[0] == SEPARATOR then 0
    else
      var n := 1 + VersionLength(name[1..]);
      assert name[..n] == [name[0]] + name[1..][..n - 1];
      n
  }

  /** SplitN(name, "_", 2) has two parts. */
  predicate HasVersion(name: string) { VersionLength(name) < |name| }

  function Version(name: string): string { name[..VersionLength(name)] }

  function Description(name: string): string
    requires HasVersion(name)
  {
    name[VersionLength(name) + 1..]
  }

  /** A name splits exactly when it contains the separator, and then its two parts rebuild it; the
      version of any rebuilt name is the version it was built from. */
  lemma NameRoundTrip(name: string, version: string, description: string)
    ensures HasVersion(name) <==> SEPARATOR in name
    ensures HasVersion(name) ==> Version(name) + [SEPARATOR] + Description(name) == name
    ensures SEPARATOR !in version ==>
              var built := version + [SEPARATOR] + description;
              HasVersion(built) && Version(built) == version && Description(built) == description
  {
    assert name == name[..VersionLength(name)] + name[VersionLength(name)..];
    if SEPARATOR !in version {
      var built := version + [SEPARATOR] + description;
      assert built[..|version|] == version && built[|version|] == SEPARATOR;
      FirstSeparator(built, |version|);
      assert built[|version| + 1..] == description;
    }
  }

  lemma {:induction false} FirstSeparator(name: string, n: nat)
    requires n < |name| && name[n] == SEPARATOR && SEPARATOR !in name[..n]
    ensures VersionLength(name) == n
  {
    if n == 0 {
    } else {
      assert name[..n][0] == name[0];
      assert name[1..][..n - 1] == name[..n][1..];
      FirstSeparator(name[1..], n - 1);
    }
  }

  // ---------------------------------------------------------------------------------------------
  // File name order against version order
  // ---------------------------------------------------------------------------------------------

  predicate ProperPrefix(a: string, b: string) { |a| < |b| && a == b[..|a|] }

  /** Appending anything to two strings that first differ inside both keeps their order. */
  lemma {:induction false} SuffixesDoNotMatter(a: string, b: string, x: string, y: string)
    requires a != b && !ProperPrefix(a, b) && !ProperPrefix(b, a)
    ensures Below(a + x, b + y) <==> Below(a, b)
  {
    assert a[..0] == [] == b[..0];
    if a != [] && b != [] && a[0] == b[0] {
      assert a == [a[0]] + a[1..] && b == [b[0]] + b[1..];
      assert ProperPrefix(a[1..], b[1..]) ==> ProperPrefix(a, b);
      assert ProperPrefix(b[1..], a[1..]) ==> ProperPrefix(b, a);
      SuffixesDoNotMatter(a[1..], b[1..], x, y);
      assert (a + x)[1..] == a[1..] + x && (b + y)[1..] == b[1..] + y;
    }
  }

  /** Both names start with the same separator-free string and a separator. */
  ghost predicate ShareVersion(m: string, n: string) {
    exists v: string, x: string, y: string :: '_' !in v && m == v + "_" + x && n == v + "_" + y
  }

  lemma VersionsAreShared(m: string, n: string)
    ensures HasVersion(m) <==> '_' in m
    ensures HasVersion(m) && HasVersion(n) ==> (Version(m) == Version(n) <==> ShareVersion(m, n))
  {
    NameRoundTrip(m, [], []);
    NameRoundTrip(n, [], []);
    if HasVersion(m) && HasVersion(n) {
      if Version(m) == Version(n) {
        assert m == Version(m) + "_" + Description(m) && n == Version(m) + "_" + Description(n);
      }
      if v, x, y :| '_' !in v && m == v + "_" + x && n == v + "_" + y {
        NameRoundTrip(m, v, x);
        NameRoundTrip(n, v, y);
      }
    }
  }

  /** The part of a file name that decides its place: the version with its separator, and the whole name
      if it has no separator. */
  function SortKey(name: string): string {
    if HasVersion(name) then Version(name) + [SEPARATOR] else name
  }

  function AfterKey(name: string): string {
    if HasVersion(name) then Description(name) else []
  }

  /** A separator can only be the last character of a key, so a key that has one starts no other key. */
  lemma KeyEndsInside(m: string, n: string)
    requires HasVersion(m) && SortKey(m) != SortKey(n)
    ensures !ProperPrefix(SortKey(m), SortKey(n))
  {
    var a, b, v := SortKey(m), SortKey(n), Version(m);
    if |a| < |b| {
      SeparatorEndsKey(n);
      assert b[|v|] in b[..|b| - 1];
      assert b[..|a|][|v|] != a[|v|];
    }
  }

  lemma SeparatorEndsKey(name: string)
    requires name != []
    ensures SortKey(name) != [] && SEPARATOR !in SortKey(name)[..|SortKey(name)| - 1]
  {
    if HasVersion(name) {
      assert SortKey(name)[..|SortKey(name)| - 1] == Version(name);
    } else {
      assert name[..|name|] == name;
      forall i | 0 <= i < |name| - 1 ensures name[i] != SEPARATOR {
        assert name[i] in name[..|name|];
      }
    }
  }

  /** Two file names with different keys are ordered by their keys alone, so no description can ever
      change the order in which files run. */
  lemma FilenameOrderIsKeyOrder(m: string, n: string)
    requires SortKey(m) != SortKey(n)
    ensures Below(m, n) <==> Below(SortKey(m), SortKey(n))
  {
    KeyAndRest(m);
    KeyAndRest(n);
    BelowIsTotal(m, n);
    BelowIsTotal(SortKey(m), SortKey(n));
    if ProperPrefix(SortKey(m), SortKey(n)) {
      WholeNameIsPrefix(m, n);
      PrefixIsBelow(SortKey(m), SortKey(n));
      PrefixIsBelow(m, n);
    } else if ProperPrefix(SortKey(n), SortKey(m)) {
      WholeNameIsPrefix(n, m);
      PrefixIsBelow(SortKey(n), SortKey(m));
      PrefixIsBelow(n, m);
    } else {
      SuffixesDoNotMatter(SortKey(m), SortKey(n), AfterKey(m), AfterKey(n));
    }
  }

  lemma KeyAndRest(name: string)
    ensures name == SortKey(name) + AfterKey(name)
  {
    NameRoundTrip(name, [], []);
  }

  lemma WholeNameIsPrefix(m: string, n: string)
    requires ProperPrefix(SortKey(m), SortKey(n))
    ensures ProperPrefix(m, n)
  {
    KeyAndRest(n);
    if HasVersion(m) {
      KeyEndsInside(m, n);
    }
  }

  /** The key determines the version, and whether there is one. */
  lemma KeyTellsVersion(m: string, n: string)
    requires SortKey(m) == SortKey(n)
    ensures (HasVersion(m) <==> HasVersion(n)) && Version(m) == Version(n)
    ensures !HasVersion(m) ==> m == n
  {
    KeyHasSeparator(m);
    KeyHasSeparator(n);
    if HasVersion(m) {
      assert SortKey(m)[..|SortKey(m)| - 1] == Version(m);
      assert SortKey(n)[..|SortKey(n)| - 1] == Version(n);
    }
  }

  lemma KeyHasSeparator(name: string)
    ensures HasVersion(name) <==> SEPARATOR in SortKey(name)
  {
    if HasVersion(name) {
      assert SortKey(name)[|Version(name)|] == SEPARATOR;
    } else {
      assert name[..|name|] == name;
    }
  }

  /** `v` starts `w`, and `w` goes on with a character that sorts before the separator. */
  predicate Inverts(v: string, w: string) {
    ProperPrefix(v, w) && w[|v|] < SEPARATOR
  }

  lemma {:induction false} PrefixIsBelow(v: string, w: string)
    requires ProperPrefix(v, w)
    ensures Below(v, w)
  {
    if v == [] {
    } else {
      assert v[0] == w[0];
      assert v[1..] == w[1..][..|v| - 1];
      PrefixIsBelow(v[1..], w[1..]);
    }
  }

  /** Appending the separator moves the order of a string and its extension to the next character. */
  lemma {:induction false} SeparatorAgainstNext(v: string, w: string)
    requires ProperPrefix(v, w) && w[|v|] != SEPARATOR
    ensures Below(v + [SEPARATOR], w + [SEPARATOR]) <==> SEPARATOR < w[|v|]
  {
    if v != [] {
      assert v[0] == w[0];
      assert v[1..] == w[1..][..|v| - 1];
      SeparatorAgainstNext(v[1..], w[1..]);
      assert (v + [SEPARATOR])[1..] == v[1..] + [SEPARATOR];
      assert (w + [SEPARATOR])[1..] == w[1..] + [SEPARATOR];
    } else {
      assert (w + [SEPARATOR])[0] == w[0];
    }
  }

  /** For two files with different versions, file name order is version order exactly when neither
      version extends the other with a character that sorts before the separator. */
  lemma FilenameOrderAgainstVersionOrder(m: string, n: string)
    requires HasVersion(m) && HasVersion(n) && Version(m) != Version(n)
    ensures (Below(m, n) <==> Below(Version(m), Version(n)))
            <==> !Inverts(Version(m), Version(n)) && !Inverts(Version(n), Version(m))
  {
    var v, w := Version(m), Version(n);
    assert SortKey(m)[..|v|] == v && SortKey(n)[..|w|] == w;
    FilenameOrderIsKeyOrder(m, n);
    BelowIsTotal(v, w);
    BelowIsTotal(SortKey(m), SortKey(n));
    if ProperPrefix(v, w) {
      PrefixIsBelow(v, w);
      SeparatorAgainstNext(v, w);
    } else if ProperPrefix(w, v) {
      PrefixIsBelow(w, v);
      SeparatorAgainstNext(w, v);
    } else {
      SuffixesDoNotMatter(v, w, [SEPARATOR], [SEPARATOR]);
    }
  }

  ghost predicate DistinctVersions(names: seq<string>) {
    && (forall i :: 0 <= i < |names| ==> HasVersion(names[i]))
    && (forall i, j :: 0 <= i < j < |names| ==> Version(names[i]) != Version(names[j]))
  }

  function Versions(names: seq<string>): (vs: seq<string>)
    ensures |vs| == |names|
    ensures forall i :: 0 <= i < |names| ==> vs[i] == Version(names[i])
  {
    seq(|names|, i requires 0 <= i < |names| => Version(names[i]))
  }

  function SortKeys(names: seq<string>): (ks: seq<string>)
    ensures |ks| == |names|
    ensures forall i :: 0 <= i < |names| ==> ks[i] == SortKey(names[i])
  {
    seq(|names|, i requires 0 <= i < |names| => SortKey(names[i]))
  }

  /** A whole run goes through the versions in lexicographic order if and only if no version in the
      directory extends another one with a character that sorts before the separator. */
  lemma RunFollowsVersionOrder(files: seq<string>)
    requires DistinctVersions(files) && StrictlyIncreasing(files)
    ensures StrictlyIncreasing(Versions(files))
            <==> (forall i, j :: 0 <= i < |files| && 0 <= j < |files| ==> !Inverts(Version(files[i]), Version(files[j])))
  {
    var vs := Versions(files);
    if StrictlyIncreasing(vs) {
      forall i, j | 0 <= i < |files| && 0 <= j < |files| ensures !Inverts(Version(files[i]), Version(files[j])) {
        if i < j {
          assert Below(vs[i], vs[j]);
          FilenameOrderAgainstVersionOrder(files[i], files[j]);
        } else if j < i {
          assert Below(vs[j], vs[i]);
          FilenameOrderAgainstVersionOrder(files[j], files[i]);
        }
      }
    }
    if forall i, j :: 0 <= i < |files| && 0 <= j < |files| ==> !Inverts(Version(files[i]), Version(files[j])) {
      forall i, j | 0 <= i < j < |vs| ensures Below(vs[i], vs[j]) {
        FilenameOrderAgainstVersionOrder(files[i], files[j]);
      }
    }
  }

  /** Version "1" comes before "10", but the file of "10" runs first. */
  lemma TenRunsBeforeOne()
    ensures Below("1", "10") && Below("10_x.sql", "1_x.sql")
    ensures Version("1_x.sql") == "1" && Version("10_x.sql") == "10"
  {
  }

  /** Two listings with the same versions run the same versions in the same order, whatever the
      descriptions are. */
  lemma SameVersionsSameOrder(files: seq<string>, renamed: seq<string>)
    requires DistinctVersions(files) && StrictlyIncreasing(files)
    requires DistinctVersions(renamed) && StrictlyIncreasing(renamed)
    requires forall v :: v in Versions(files) <==> v in Versions(renamed)
    ensures Versions(files) == Versions(renamed)
  {
    KeysIncrease(files);
    KeysIncrease(renamed);
    forall k ensures k in SortKeys(files) <==> k in SortKeys(renamed) {
      KeyMembership(files, k);
      KeyMembership(renamed, k);
    }
    IncreasingListIsUnique(SortKeys(files), SortKeys(renamed));
    forall i | 0 <= i < |files| ensures Versions(files)[i] == Versions(renamed)[i] {
      var a, b := SortKey(files[i]), SortKey(renamed[i]);
      assert SortKeys(files)[i] == SortKeys(renamed)[i];
      assert a[..|a| - 1] == Version(files[i]) && b[..|b| - 1] == Version(renamed[i]);
    }
    assert |files| == |SortKeys(files)| == |renamed|;
  }

  /** Two sorted listings with the same keys, each as often, have them in the same order; here versions
      may occur twice, and names need not have one. */
  lemma SameKeysSameOrder(names: seq<string>, renamed: seq<string>)
    requires Sorted(names) && Sorted(renamed)
    requires multiset(SortKeys(names)) == multiset(SortKeys(renamed))
    ensures SortKeys(names) == SortKeys(renamed)
  {
    KeysAreSorted(names);
    KeysAreSorted(renamed);
    SortIsDetermined(SortKeys(names), SortKeys(renamed));
  }

  lemma KeysAreSorted(names: seq<string>)
    requires Sorted(names)
    ensures Sorted(SortKeys(names))
  {
    var keys := SortKeys(names);
    forall i, j | 0 <= i < j < |keys| ensures !Below(keys[j], keys[i]) {
      BelowIsTotal(keys[j], keys[i]);
      if keys[i] != keys[j] {
        FilenameOrderIsKeyOrder(names[j], names[i]);
      }
    }
  }

  lemma KeysIncrease(files: seq<string>)
    requires DistinctVersions(files) && StrictlyIncreasing(files)
    ensures StrictlyIncreasing(SortKeys(files))
  {
    forall i, j | 0 <= i < j < |files| ensures Below(SortKeys(files)[i], SortKeys(files)[j]) {
      if SortKey(files[i]) == SortKey(files[j]) {
        KeyTellsVersion(files[i], files[j]);
      }
      FilenameOrderIsKeyOrder(files[i], files[j]);
    }
  }

  lemma KeyMembership(files: seq<string>, key: string)
    requires DistinctVersions(files)
    ensures key in SortKeys(files) <==> key != [] && key[|key| - 1] == SEPARATOR && key[..|key| - 1] in Versions(files)
  {
    if key in SortKeys(files) {
      var i :| 0 <= i < |files| && SortKeys(files)[i] == key;
      assert key[..|key| - 1] == Version(files[i]) == Versions(files)[i];
    }
    if key != [] && key[|key| - 1] == SEPARATOR && key[..|key| - 1] in Versions(files) {
      var i :| 0 <= i < |files| && Versions(files)[i] == key[..|key| - 1];
      assert key == SortKey(files[i]) == SortKeys(files)[i];
    }
  }

  // ---------------------------------------------------------------------------------------------
  // Numeric versions
  // ---------------------------------------------------------------------------------------------

  /** Order and equality of two digit strings of the same length are those of the numbers. */
  lemma {:induction false} EqualWidthIsNumeric(a: string, b: string)
    requires |a| == |b| && AllDigits(a) && AllDigits(b)
    ensures Below(a, b) <==> Number(a) < Number(b)
    ensures a == b <==> Number(a) == Number(b)
  {
    if a == [] {
    } else {
      var n := |a| - 1;
      EqualWidthIsNumeric(a[..n], b[..n]);
      assert a == a[..n] + [a[n]] && b == b[..n] + [b[n]];
      if a[..n] == b[..n] {
        SharedPrefix(a[..n], [a[n]], [b[n]]);
        assert Below([a[n]], [b[n]]) <==> a[n] < b[n];
      } else {
        SuffixesDoNotMatter(a[..n], b[..n], [a[n]], [b[n]]);
      }
    }
  }

  lemma {:induction false} SharedPrefix(p: string, x: string, y: string)
    ensures Below(p + x, p + y) <==> Below(x, y)
  {
    if p == [] {
      assert p + x == x && p + y == y;
    } else {
      SharedPrefix(p[1..], x, y);
      assert (p + x)[1..] == p[1..] + x && (p + y)[1..] == p[1..] + y;
    }
  }

  /** With versions of one width made of digits, the documented NNN format, files run in increasing
      numeric order. */
  lemma NumericRunOrder(files: seq<string>, width: nat)
    requires DistinctVersions(files) && StrictlyIncreasing(files)
    requires forall i :: 0 <= i < |files| ==> |Version(files[i])| == width && AllDigits(Version(files[i]))
    ensures forall i, j :: 0 <= i < j < |files| ==> Number(Version(files[i])) < Number(Version(files[j]))
  {
    forall i, j | 0 <= i < j < |files| ensures Number(Version(files[i])) < Number(Version(files[j])) {
      FilenameOrderAgainstVersionOrder(files[i], files[j]);
      EqualWidthIsNumeric(Version(files[i]), Version(files[j]));
    }
  }
}
