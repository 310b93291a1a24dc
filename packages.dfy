/** The package records of `go list -json`, which file paths a kept package
    contributes, and what it means for a keep set to be closed under in-repo
    dependencies. Both the `pkglist` package and the inline copy in `main.go`
    are proved against the definitions here. */
module GoPackages {
  import opened GoStrings

  /** One decoded record: the package's directory, import path, the import paths it
      depends on (in-repo and external alike), and its file classes, each relative to
      `dir`. `embedFiles` is supplied by the embed analyzer, which is not part of this
      model. */
  datatype Package = Package(
    dir: string,
    importPath: string,
    deps: seq<string>,
    embedFiles: seq<string>,
    goFiles: seq<string>,
    testGoFiles: seq<string>,
    otherFiles: seq<string>)

  /** What `go list -json ./...` produced: the command failed,
      or its output decoded to `records`, followed, when `malformedTail` holds, by a
      value the JSON decoder rejects (nothing after it is ever read). */
  datatype ListOutput =
    | CommandFailed
    | Output(records: seq<Package>, malformedTail: bool)

  /** `m` after storing each record, in order, under its import path. */
  function Indexed(m: map<string, Package>, records: seq<Package>): map<string, Package>
    decreases |records|
  {
    if records == [] then m
    else
      var last := records[|records| - 1];
      Indexed(m, records[..|records| - 1])[last.importPath := last]
  }

  /** Every record of `m` is stored under its own import path. */
  ghost predicate KeyedByImportPath(m: map<string, Package>) {
    forall k :: k in m ==> m[k].importPath == k
  }

  /** filepath.Join on a clean absolute directory and a clean relative name. */
  function JoinPath(dir: string, name: string): string {
    dir + "/" + name
  }

  /** The absolute paths of `names` inside `dir`, in order. */
  function Joined(dir: string, names: seq<string>): seq<string> {
    seq(|names|, i requires 0 <= i < |names| => JoinPath(dir, names[i]))
  }

  /** The fixture test of the projection: the path lies under a `testdata` directory. */
  predicate InTestdata(path: string) {
    Contains(path, "/testdata/")
  }

  /** The paths of `paths` outside any `testdata` directory, in order. */
  function WithoutTestdata(paths: seq<string>): seq<string>
    decreases |paths|
  {
    if paths == [] then []
    else
      var last := paths[|paths| - 1];
      WithoutTestdata(paths[..|paths| - 1]) + (if InTestdata(last) then [] else [last])
  }

  /** What one kept package contributes to the file list, in the order the loops of
      the projection append it: Go files; then test files and all other files with
      tests, or only the other files outside `testdata` without; then embedded files. */
  function PackageFiles(p: Package, withTests: bool): seq<string> {
    Joined(p.dir, p.goFiles)
    + (if withTests then Joined(p.dir, p.testGoFiles) + Joined(p.dir, p.otherFiles)
       else WithoutTestdata(Joined(p.dir, p.otherFiles)))
    + Joined(p.dir, p.embedFiles)
  }

  /** `f` is the absolute path of one of `names` inside `dir`. */
  ghost predicate IsJoinedFrom(f: string, dir: string, names: seq<string>) {
    exists n :: n in names && f == JoinPath(dir, n)
  }

  /** `f` belongs to the projection of a package in `keep` that is also in `packages`. */
  ghost predicate KeptFile(packages: map<string, Package>, keep: set<string>, withTests: bool, f: string) {
    exists k :: k in packages && k in keep && f in PackageFiles(packages[k], withTests)
  }

  /** A package of the repository in `packages` whose record is matched by one of
      `patterns` under the matching rule `matches(pattern, importPath, dir)`. */
  ghost predicate MatchedBy(matches: (string, string, string) -> bool, packages: map<string, Package>,
                            patterns: seq<string>, k: string)
  {
    k in packages && exists j :: 0 <= j < |patterns| && matches(patterns[j], packages[k].importPath, packages[k].dir)
  }

  /** The import paths, as the records give them, of the packages some pattern matches. */
  ghost predicate Selected(matches: (string, string, string) -> bool, packages: map<string, Package>,
                           patterns: seq<string>, x: string)
  {
    exists k :: MatchedBy(matches, packages, patterns, k) && packages[k].importPath == x
  }

  // ---------------------------------------------------------------------------
  // Dependency closure

  /** Every dependency of `p` that is itself a package of the repository is in `s`. */
  ghost predicate DepsCovered(packages: map<string, Package>, p: string, s: set<string>) {
    p in packages ==> forall d :: d in packages[p].deps && d in packages ==> d in s
  }

  /** `s` is closed under in-repo dependencies. */
  ghost predicate Closed(packages: map<string, Package>, s: set<string>) {
    forall p :: p in s ==> DepsCovered(packages, p, s)
  }

  /** `r` is the dependency closure of `init`: it contains `init`, adds only packages of
      the repository, is closed, and lies inside every closed superset of `init`. */
  ghost predicate IsClosureOf(packages: map<string, Package>, init: set<string>, r: set<string>) {
    && init <= r
    && r - init <= packages.Keys
    && Closed(packages, r)
    && forall s :: init <= s && Closed(packages, s) ==> r <= s
  }

  /** `b` is a dependency of package `a`, and itself a package of the repository. */
  ghost predicate DepEdge(packages: map<string, Package>, a: string, b: string) {
    a in packages && b in packages[a].deps && b in packages
  }

  /** `path` starts in `init` and each step follows a `deps` edge to a package of the
      repository. */
  ghost predicate IsDepPath(packages: map<string, Package>, init: set<string>, path: seq<string>) {
    && |path| > 0
    && path[0] in init
    && forall i, j :: 0 <= i && j == i + 1 && j < |path| ==> DepEdge(packages, path[i], path[j])
  }

  ghost predicate Reachable(packages: map<string, Package>, init: set<string>, x: string) {
    exists path :: IsDepPath(packages, init, path) && path[|path| - 1] == x
  }

  // ---------------------------------------------------------------------------
  // Lemmas about indexing the records

  /** The index holds the previous keys and the import path of every record. */
  lemma {:induction false} IndexedKeys(m: map<string, Package>, records: seq<Package>)
    ensures Indexed(m, records).Keys == m.Keys + set r | r in records :: r.importPath
    decreases |records|
  {
    if records != [] {
      var init := records[..|records| - 1];
      IndexedKeys(m, init);
      assert records == init + [records[|records| - 1]];
    }
  }

  /** A record is what its import path maps to when no later record has the same
      import path: the last duplicate wins. */
  lemma {:induction false} IndexedLastWins(m: map<string, Package>, records: seq<Package>, i: int)
    requires 0 <= i < |records|
    requires forall j :: i < j < |records| ==> records[j].importPath != records[i].importPath
    ensures records[i].importPath in Indexed(m, records)
    ensures Indexed(m, records)[records[i].importPath] == records[i]
    decreases |records|
  {
    if i < |records| - 1 {
      IndexedLastWins(m, records[..|records| - 1], i);
    }
  }

  /** A key no record names keeps its previous entry, or its absence. */
  lemma {:induction false} IndexedUntouched(m: map<string, Package>, records: seq<Package>, k: string)
    requires forall r :: r in records ==> r.importPath != k
    ensures k in Indexed(m, records) <==> k in m
    ensures k in m ==> Indexed(m, records)[k] == m[k]
    decreases |records|
  {
    if records != [] {
      var init := records[..|records| - 1];
      assert forall r :: r in init ==> r in records;
      IndexedUntouched(m, init, k);
    }
  }

  /** Indexing keeps every record under its own import path. */
  lemma {:induction false} IndexedKeyed(m: map<string, Package>, records: seq<Package>)
    requires KeyedByImportPath(m)
    ensures KeyedByImportPath(Indexed(m, records))
    decreases |records|
  {
    if records != [] {
      IndexedKeyed(m, records[..|records| - 1]);
    }
  }

  // ---------------------------------------------------------------------------
  // Lemmas about the projection

  lemma {:induction false} WithoutTestdataMembers(paths: seq<string>, f: string)
    ensures f in WithoutTestdata(paths) <==> f in paths && !InTestdata(f)
    decreases |paths|
  {
    if paths != [] {
      var init := paths[..|paths| - 1];
      WithoutTestdataMembers(init, f);
      assert paths == init + [paths[|paths| - 1]];
    }
  }

  lemma JoinedMembers(dir: string, names: seq<string>, f: string)
    ensures f in Joined(dir, names) <==> IsJoinedFrom(f, dir, names)
  {
    var paths := Joined(dir, names);
    if f in paths {
      var i :| 0 <= i < |paths| && paths[i] == f;
      assert names[i] in names;
    }
    if IsJoinedFrom(f, dir, names) {
      var n :| n in names && f == JoinPath(dir, n);
      var i :| 0 <= i < |names| && names[i] == n;
      assert paths[i] == f;
    }
  }

  /** Membership in a package's projection, class by class: Go and embedded files
      always; test files and every other file with tests; without tests, only the other
      files outside `testdata`. */
  lemma PackageFilesMembers(p: Package, withTests: bool, f: string)
    ensures f in PackageFiles(p, withTests) <==>
      || IsJoinedFrom(f, p.dir, p.goFiles)
      || IsJoinedFrom(f, p.dir, p.embedFiles)
      || (withTests && (IsJoinedFrom(f, p.dir, p.testGoFiles) || IsJoinedFrom(f, p.dir, p.otherFiles)))
      || (!withTests && IsJoinedFrom(f, p.dir, p.otherFiles) && !InTestdata(f))
  {
    JoinedMembers(p.dir, p.goFiles, f);
    JoinedMembers(p.dir, p.embedFiles, f);
    JoinedMembers(p.dir, p.testGoFiles, f);
    JoinedMembers(p.dir, p.otherFiles, f);
    WithoutTestdataMembers(Joined(p.dir, p.otherFiles), f);
  }

  /** Asking for tests only ever adds files. */
  lemma ProjectionGrowsWithTests(p: Package, f: string)
    requires f in PackageFiles(p, false)
    ensures f in PackageFiles(p, true)
  {
    PackageFilesMembers(p, false, f);
    PackageFilesMembers(p, true, f);
  }

  /** Without tests, a file under `testdata` is kept only when it is listed as a Go
      file or an embedded file. */
  lemma TestdataExcludedWithoutTests(p: Package, f: string)
    requires f in PackageFiles(p, false) && InTestdata(f)
    ensures IsJoinedFrom(f, p.dir, p.goFiles) || IsJoinedFrom(f, p.dir, p.embedFiles)
  {
    PackageFilesMembers(p, false, f);
  }

  // ---------------------------------------------------------------------------
  // Lemmas about the closure

  /** The closure is unique: two closures of the same set are equal. */
  lemma ClosureUnique(packages: map<string, Package>, init: set<string>, a: set<string>, b: set<string>)
    requires IsClosureOf(packages, init, a) && IsClosureOf(packages, init, b)
    ensures a == b
  {
    assert Closed(packages, b);
    assert Closed(packages, a);
  }

  /** Closing a closed set changes nothing, so running the closure twice is the same as
      running it once. */
  lemma ClosureIdempotent(packages: map<string, Package>, init: set<string>, r: set<string>, r2: set<string>)
    requires IsClosureOf(packages, init, r) && IsClosureOf(packages, r, r2)
    ensures r2 == r
  {
    assert Closed(packages, r);
  }

  /** An identity outside the repository is never added by the closure. */
  lemma ClosureAddsOnlyRepoPackages(packages: map<string, Package>, init: set<string>, r: set<string>, x: string)
    requires IsClosureOf(packages, init, r)
    requires x !in packages && x !in init
    ensures x !in r
  {
  }

  /** A dependency edge to an identity outside the repository does not change which
      sets are closures. */
  lemma ExternalDepIsInert(packages: map<string, Package>, k: string, d: string, init: set<string>, r: set<string>)
    requires k in packages && d !in packages
    ensures var p := packages[k];
      var extended := packages[k := p.(deps := p.deps + [d])];
      IsClosureOf(packages, init, r) <==> IsClosureOf(extended, init, r)
  {
    var p := packages[k];
    var extended := packages[k := p.(deps := p.deps + [d])];
    assert extended.Keys == packages.Keys;
    forall s: set<string>, q: string ensures DepsCovered(packages, q, s) <==> DepsCovered(extended, q, s) {
      if q == k {
        assert forall e :: e in extended[q].deps && e in extended <==> e in packages[q].deps && e in packages;
      }
    }
    forall s: set<string> ensures Closed(packages, s) <==> Closed(extended, s) {
    }
  }

  /** The last identity of a dependency path from a closed superset of `init` lies in it. */
  lemma {:induction false} PathStaysInClosed(packages: map<string, Package>, init: set<string>, s: set<string>, path: seq<string>)
    requires init <= s && Closed(packages, s)
    requires IsDepPath(packages, init, path)
    ensures path[|path| - 1] in s
    decreases |path|
  {
    if |path| > 1 {
      var prefix := path[..|path| - 1];
      assert IsDepPath(packages, init, prefix);
      PathStaysInClosed(packages, init, s, prefix);
      var p := path[|path| - 2];
      assert DepEdge(packages, p, path[|path| - 1]);
      assert DepsCovered(packages, p, s);
    }
  }

  /** The closure is exactly the set of identities reachable from `init` along `deps`
      edges that end in packages of the repository. */
  lemma ClosureIsReachable(packages: map<string, Package>, init: set<string>, r: set<string>, x: string)
    requires IsClosureOf(packages, init, r)
    ensures x in r <==> Reachable(packages, init, x)
  {
    if Reachable(packages, init, x) {
      var path :| IsDepPath(packages, init, path) && path[|path| - 1] == x;
      PathStaysInClosed(packages, init, r, path);
    }
    if x in r {
      var reach := ReachableSet(packages, init);
      ReachableSetClosed(packages, init);
      assert r <= reach;
    }
  }

  ghost function ReachableSet(packages: map<string, Package>, init: set<string>): set<string> {
    set y | y in init + packages.Keys && Reachable(packages, init, y)
  }

  /** The reachable identities form a closed superset of `init`. */
  lemma ReachableSetClosed(packages: map<string, Package>, init: set<string>)
    ensures init <= ReachableSet(packages, init)
    ensures Closed(packages, ReachableSet(packages, init))
  {
    var reach := ReachableSet(packages, init);
    forall y | y in init ensures y in reach {
      assert IsDepPath(packages, init, [y]);
    }
    forall p | p in reach ensures DepsCovered(packages, p, reach) {
      if p in packages {
        forall d | d in packages[p].deps && d in packages ensures d in reach {
          ReachableStep(packages, init, p, d);
        }
      }
    }
  }

  lemma ReachableStep(packages: map<string, Package>, init: set<string>, p: string, d: string)
    requires Reachable(packages, init, p) && DepEdge(packages, p, d)
    ensures Reachable(packages, init, d)
  {
    var path :| IsDepPath(packages, init, path) && path[|path| - 1] == p;
    var longer := path + [d];
    assert longer[|longer| - 1] == d;
    assert IsDepPath(packages, init, longer);
  }
}
