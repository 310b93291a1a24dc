/** main.go: the command that prunes a repository to the packages named on its command
    line. It lists the repository's packages, cleans up the comma-separated patterns,
    keeps the packages its own copy of the matcher selects, closes them under in-repo
    dependencies, projects them to files and hands those to the cleaner. */
module Hatchet {
  import opened GoStrings
  import opened GoPackages
  import opened PackageSteps
  import PkgList
  import Cleaner
  import MemFs

  // ---------------------------------------------------------------------------
  // Import paths and matching

  /** The helper inside matchPackage: an import path of at least three segments whose
      first is `github.com` loses its host and organisation segments. */
  function NormalizeImportPath(path: string): string {
    var parts := Split(path, '/');
    if |parts| > 2 && parts[0] == "github.com" then Join(parts[2..], '/') else path
  }

  /** matchPackage of main.go. A `/...` pattern with prefix `.` matches everything;
      otherwise it matches when the normalized import path starts with the normalized
      prefix, or when the directory without its leading slash contains `/` and the
      normalized prefix. Any other pattern matches when the normalized import path
      equals the normalized pattern, or when the directory without its leading slash
      ends in `/` and the normalized pattern. */
  function MatchPackage(pattern: string, importPath: string, dir: string): bool {
    if HasSuffix(pattern, "/...") then
      var prefix := TrimSuffix(pattern, "/...");
      if prefix == "." then true
      else
        var normalizedPrefix := NormalizeImportPath(prefix);
        var normalizedImport := NormalizeImportPath(importPath);
        if HasPrefix(normalizedImport, normalizedPrefix) then true
        else Contains(TrimPrefix(dir, "/"), "/" + normalizedPrefix)
    else
      var normalizedPattern := NormalizeImportPath(pattern);
      var normalizedImport := NormalizeImportPath(importPath);
      if normalizedImport == normalizedPattern then true
      else HasSuffix(TrimPrefix(dir, "/"), "/" + normalizedPattern)
  }

  /** Normalization only ever changes a path below `github.com/`. */
  lemma NormalizeOnlyGithub(path: string)
    ensures !HasPrefix(path, "github.com/") ==> NormalizeImportPath(path) == path
  {
    var parts := Split(path, '/');
    if |parts| > 2 && parts[0] == "github.com" {
      JoinSplit(path, '/');
      assert path == "github.com" + "/" + Join(parts[1..], '/');
      assert HasPrefix(path, "github.com/");
    }
  }

  /** `github.com/<org>/<rest>` normalizes to `rest`, whatever the organisation. */
  lemma NormalizeGithub(org: string, rest: string)
    requires '/' !in org
    ensures NormalizeImportPath("github.com/" + org + "/" + rest) == rest
  {
    var parts := Split("github.com/" + org + "/" + rest, '/');
    SplitGithub(org, rest);
    assert parts[2..] == Split(rest, '/');
    JoinSplit(rest, '/');
  }

  lemma SplitGithub(org: string, rest: string)
    requires '/' !in org
    ensures Split("github.com/" + org + "/" + rest, '/') == ["github.com", org] + Split(rest, '/')
  {
    assert "github.com/" + org + "/" + rest == "github.com" + ['/'] + (org + ['/'] + rest);
    SplitCons("github.com", '/', org + ['/'] + rest);
    SplitCons(org, '/', rest);
  }

  /** A path naming only a `github.com` organisation is too short to lose anything. */
  lemma NormalizeOrganisationOnly(org: string)
    requires '/' !in org
    ensures NormalizeImportPath("github.com/" + org) == "github.com/" + org
  {
    var path := "github.com/" + org;
    assert path == "github.com" + ['/'] + org;
    SplitCons("github.com", '/', org);
    SplitPiece(org, '/');
  }

  /** `./...` matches every package. */
  lemma DotWildcardMatchesAll(importPath: string, dir: string)
    ensures MatchPackage("./...", importPath, dir)
  {
    assert HasSuffix("./...", "/...");
    assert TrimSuffix("./...", "/...") == ".";
  }

  /** For paths outside `github.com/`, the pattern `prefix/...` matches exactly when the
      import path starts with `prefix`, as a string and not as a run of segments, or
      when the directory, leading slash removed, contains `/` and `prefix`. */
  lemma WildcardMatch(prefix: string, importPath: string, dir: string)
    requires prefix != "."
    requires !HasPrefix(prefix, "github.com/") && !HasPrefix(importPath, "github.com/")
    ensures MatchPackage(prefix + "/...", importPath, dir) <==>
      HasPrefix(importPath, prefix) || Contains(TrimPrefix(dir, "/"), "/" + prefix)
  {
    var pattern := prefix + "/...";
    assert HasSuffix(pattern, "/...");
    assert TrimSuffix(pattern, "/...") == prefix;
    NormalizeOnlyGithub(prefix);
    NormalizeOnlyGithub(importPath);
  }

  /** `github.com/<org>/<rest>/...` matches every import path that starts with `rest`
      after any `github.com` organisation: organisations are ignored, and so are segment
      boundaries at the end of `rest`. */
  lemma GithubWildcardIgnoresOrganisation(org: string, other: string, rest: string, tail: string, dir: string)
    requires '/' !in org && '/' !in other
    ensures MatchPackage("github.com/" + org + "/" + rest + "/...", "github.com/" + other + "/" + rest + tail, dir)
  {
    var prefix := "github.com/" + org + "/" + rest;
    var pattern := prefix + "/...";
    assert HasSuffix(pattern, "/...");
    assert TrimSuffix(pattern, "/...") == prefix;
    assert prefix != "." by { assert |prefix| > 1; }
    NormalizeGithub(org, rest);
    assert "github.com/" + other + "/" + rest + tail == "github.com/" + other + "/" + (rest + tail);
    NormalizeGithub(other, rest + tail);
    assert HasPrefix(rest + tail, rest);
  }

  /** Unlike the matcher of `pkg/pkglist`, main.go's wildcard does not respect segment
      boundaries: `a/...` matches the package `ab` in `/ab`, and `pkg/foo/...` the
      package `pkg/foox`; so for any prefix, `github.com` ones included, and any
      character but `/`. */
  lemma WildcardCrossesSegmentBoundary(prefix: string, c: char)
    requires prefix != "." && c != '/'
    ensures MatchPackage(prefix + "/...", prefix + [c], "/" + prefix + [c])
    ensures !PkgList.MatchPackage(prefix + "/...", prefix + [c], "/" + prefix + [c])
  {
    var pattern := prefix + "/...";
    assert HasSuffix(pattern, "/...");
    assert TrimSuffix(pattern, "/...") == prefix;
    NormalizeSnoc(prefix, c);
    assert HasPrefix(NormalizeImportPath(prefix) + [c], NormalizeImportPath(prefix));
    PkgList.WildcardSegmentBoundary(prefix, c);
  }

  /** A character other than `/` appended to a path is appended to its normalization:
      it extends the last segment, which normalization keeps. */
  lemma NormalizeSnoc(path: string, c: char)
    requires c != '/'
    ensures NormalizeImportPath(path + [c]) == NormalizeImportPath(path) + [c]
  {
    var parts := Split(path, '/');
    SplitSnoc(path, '/', c);
    var extended := Split(path + [c], '/');
    if |parts| > 2 {
      assert extended[0] == parts[0];
      var tail := parts[2..];
      assert extended[2..] == tail[..|tail| - 1] + [tail[|tail| - 1] + [c]];
      JoinSnoc(tail, '/', c);
    }
  }

  /** For paths outside `github.com/`, a plain pattern matches exactly when it is the
      import path, or when the directory, leading slash removed, ends in `/` and the
      pattern. */
  lemma PlainMatch(pattern: string, importPath: string, dir: string)
    requires !HasSuffix(pattern, "/...")
    requires !HasPrefix(pattern, "github.com/") && !HasPrefix(importPath, "github.com/")
    ensures MatchPackage(pattern, importPath, dir) <==>
      importPath == pattern || HasSuffix(TrimPrefix(dir, "/"), "/" + pattern)
  {
    NormalizeOnlyGithub(pattern);
    NormalizeOnlyGithub(importPath);
  }

  /** A plain pattern below `github.com` matches the same path under any organisation. */
  lemma PlainMatchIgnoresOrganisation(org: string, other: string, rest: string, dir: string)
    requires '/' !in org && '/' !in other
    requires !HasSuffix("github.com/" + org + "/" + rest, "/...")
    ensures MatchPackage("github.com/" + org + "/" + rest, "github.com/" + other + "/" + rest, dir)
  {
    NormalizeGithub(org, rest);
    NormalizeGithub(other, rest);
  }

  /** A plain pattern matches every package in a directory `parent/<normalized
      pattern>` for an absolute `parent`, whatever its import path. */
  lemma PlainMatchByDirectory(pattern: string, importPath: string, parent: string)
    requires !HasSuffix(pattern, "/...")
    requires HasPrefix(parent, "/")
    ensures MatchPackage(pattern, importPath, parent + "/" + NormalizeImportPath(pattern))
  {
    var tail := "/" + NormalizeImportPath(pattern);
    var dir := parent + "/" + NormalizeImportPath(pattern);
    assert dir == parent + tail;
    DirectoryEndsIn(parent, tail);
  }

  lemma DirectoryEndsIn(parent: string, tail: string)
    requires HasPrefix(parent, "/")
    ensures HasSuffix(TrimPrefix(parent + tail, "/"), tail)
  {
    var dir := parent + tail;
    assert dir == "/" + (parent[1..] + tail);
    assert TrimPrefix(dir, "/") == parent[1..] + tail;
  }

  /** The directory test looks only below the first directory level: for a package in
      `/x`, the trimmed directory `x` never ends in `/` and a pattern, so a plain
      pattern matches it only through its import path. */
  lemma PlainMatchMissesTopDirectory(pattern: string, importPath: string, x: string)
    requires !HasSuffix(pattern, "/...") && '/' !in x
    ensures !HasSuffix(TrimPrefix("/" + x, "/"), "/" + NormalizeImportPath(pattern))
    ensures MatchPackage(pattern, importPath, "/" + x) <==>
      NormalizeImportPath(importPath) == NormalizeImportPath(pattern)
  {
    var suffix := "/" + NormalizeImportPath(pattern);
    assert HasPrefix("/" + x, "/");
    assert TrimPrefix("/" + x, "/") == x;
    if |suffix| <= |x| {
      assert x[|x| - |suffix|..][0] == x[|x| - |suffix|] != '/';
    }
  }

  // ---------------------------------------------------------------------------
  // Patterns

  /** The cleanup main.go applies to each comma-separated piece: white space trimmed,
      then one trailing slash removed. */
  function CleanPattern(p: string): string {
    TrimSuffix(TrimSpace(p), "/")
  }

  /** A pattern written with white space around it and one trailing slash, or none,
      comes out as written. */
  lemma CleanPatternOfPadded(lead: string, core: string, trail: string)
    requires forall c :: c in lead ==> IsSpace(c)
    requires forall c :: c in trail ==> IsSpace(c)
    requires core != "" && !IsSpace(core[0]) && !IsSpace(core[|core| - 1]) && core[|core| - 1] != '/'
    ensures CleanPattern(lead + core + trail) == core
    ensures CleanPattern(lead + core + "/" + trail) == core
  {
    TrimSpaceOfPadded(lead, core, trail);
    assert !HasSuffix(core, "/");
    assert lead + core + "/" + trail == lead + (core + "/") + trail;
    TrimSpaceOfPadded(lead, core + "/", trail);
    assert HasSuffix(core + "/", "/") && (core + "/")[..|core|] == core;
  }

  /** Only one trailing slash goes, so the cleanup is not idempotent: `core//` comes
      out as `core/`, and only a second cleanup yields `core`. */
  lemma CleanPatternRemovesOneSlash(core: string)
    requires core != "" && !IsSpace(core[0]) && core[|core| - 1] != '/'
    ensures CleanPattern(core + "//") == core + "/"
    ensures CleanPattern(CleanPattern(core + "//")) == core
  {
    assert "" + (core + "//") + "" == core + "//";
    TrimSpaceOfPadded("", core + "//", "");
    assert (core + "//")[..|core| + 1] == core + "/";
    assert "" + (core + "/") + "" == core + "/";
    TrimSpaceOfPadded("", core + "/", "");
    assert (core + "/")[..|core|] == core;
  }

  /** The pattern flag split at commas and each piece cleaned up in place. The usage
      branch for an empty split never runs: a split has at least one piece. */
  method PreparePatterns(packagesFlag: string) returns (patterns: array<string>)
    ensures fresh(patterns)
    ensures patterns.Length == |Split(packagesFlag, ',')| >= 1
    ensures forall i :: 0 <= i < patterns.Length ==> patterns[i] == CleanPattern(Split(packagesFlag, ',')[i])
  {
    var pieces := Split(packagesFlag, ',');
    patterns := new string[|pieces|](i requires 0 <= i < |pieces| => pieces[i]);
    for i := 0 to patterns.Length
      invariant forall j :: 0 <= j < i ==> patterns[j] == CleanPattern(pieces[j])
      invariant forall j :: i <= j < patterns.Length ==> patterns[j] == pieces[j]
    {
      var p := TrimSpace(patterns[i]);
      p := TrimSuffix(p, "/");
      patterns[i] := p;
    }
  }

  // ---------------------------------------------------------------------------
  // The pipeline

  datatype Listing = ListFailed | DecodeFailed | Listed(packages: map<string, Package>)

  /** findPackagesInRepo: a failed `go list` and a malformed value are both errors,
      and the latter discards what was decoded before it; otherwise every record is
      stored under its import path, later duplicates overwriting earlier ones. */
  method FindPackagesInRepo(out: ListOutput) returns (r: Listing)
    ensures out.CommandFailed? <==> r == ListFailed
    ensures r == DecodeFailed <==> out.Output? && out.malformedTail
    ensures r.Listed? ==> out.Output? && r.packages == Indexed(map[], out.records)
    ensures r.Listed? ==> KeyedByImportPath(r.packages)
  {
    if out.CommandFailed? {
      return ListFailed;
    }
    var records := out.records;
    var packages: map<string, Package> := map[];
    for i := 0 to |records|
      invariant packages == Indexed(map[], records[..i])
    {
      assert records[..i + 1][..i] == records[..i];
      packages := packages[records[i].importPath := records[i]];
    }
    assert records[..|records|] == records;
    if out.malformedTail {
      return DecodeFailed;
    }
    IndexedKeyed(map[], records);
    return Listed(packages);
  }

  /** The match loop: the import paths of the packages some pattern matches. */
  method SelectPackages(allPackages: map<string, Package>, patterns: seq<string>) returns (keep: set<string>)
    ensures forall x :: x in keep <==> Selected(MatchPackage, allPackages, patterns, x)
  {
    keep := SelectMatching(MatchPackage, allPackages, patterns);
  }

  /** With `./...` among the patterns, every package of the repository is selected. */
  lemma DotWildcardSelectsAll(allPackages: map<string, Package>, patterns: seq<string>, k: string)
    requires "./..." in patterns && k in allPackages
    ensures Selected(MatchPackage, allPackages, patterns, allPackages[k].importPath)
  {
    var j :| 0 <= j < |patterns| && patterns[j] == "./...";
    DotWildcardMatchesAll(allPackages[k].importPath, allPackages[k].dir);
    assert MatchedBy(MatchPackage, allPackages, patterns, k);
  }

  /** The dependency worklist over the keep map, which it grows in place. */
  method AddDependencies(allPackages: map<string, Package>, keep: set<string>) returns (closed: set<string>)
    ensures IsClosureOf(allPackages, keep, closed)
  {
    var keepPackages := new KeepSet(keep);
    CloseOverDeps(allPackages, keepPackages);
    closed := keepPackages.members;
  }

  /** The other-files loop with tests: its two branches append the same path. */
  method AppendOtherFiles(files: seq<string>, dir: string, names: seq<string>) returns (allFiles: seq<string>)
    ensures allFiles == files + Joined(dir, names)
  {
    allFiles := files;
    for i := 0 to |names|
      invariant allFiles == files + Joined(dir, names[..i])
    {
      var absPath := JoinPath(dir, names[i]);
      assert Joined(dir, names[..i + 1]) == Joined(dir, names[..i]) + [absPath];
      if Contains(absPath, "/testdata/") {
        allFiles := allFiles + [absPath];
      } else {
        allFiles := allFiles + [absPath];
      }
    }
    assert names[..|names|] == names;
  }

  /** What one kept package appends to the file list. */
  method AppendKeptPackage(files: seq<string>, pkg: Package, withTests: bool) returns (allFiles: seq<string>)
    ensures allFiles == files + PackageFiles(pkg, withTests)
  {
    allFiles := AppendJoined(files, pkg.dir, pkg.goFiles);
    if withTests {
      allFiles := AppendJoined(allFiles, pkg.dir, pkg.testGoFiles);
      allFiles := AppendOtherFiles(allFiles, pkg.dir, pkg.otherFiles);
    } else {
      allFiles := AppendOutsideTestdata(allFiles, pkg.dir, pkg.otherFiles);
    }
    allFiles := AppendJoined(allFiles, pkg.dir, pkg.embedFiles);
  }

  /** The file list: the projections of the kept packages of the repository. */
  method ProjectFiles(allPackages: map<string, Package>, keep: set<string>, withTests: bool)
    returns (allFiles: seq<string>)
    ensures forall f :: f in allFiles <==> KeptFile(allPackages, keep, withTests, f)
  {
    allFiles := [];
    var rest := allPackages.Keys;
    while rest != {}
      invariant rest <= allPackages.Keys
      invariant forall f :: f in allFiles <==>
        exists k :: k in allPackages.Keys - rest && k in keep && f in PackageFiles(allPackages[k], withTests)
      decreases rest
    {
      var pkgPath :| pkgPath in rest;
      if pkgPath in keep {
        allFiles := AppendKeptPackage(allFiles, allPackages[pkgPath], withTests);
      }
      rest := rest - {pkgPath};
    }
  }

  /** The cleaner options main.go passes: its four flags, and no `go mod tidy`. */
  function MainOptions(protectGit: bool, protectGoMod: bool, withTests: bool, dryRun: bool)
    : seq<Cleaner.CleanerOption>
  {
    [ Cleaner.WithGitProtection(protectGit), Cleaner.WithGoModProtection(protectGoMod),
      Cleaner.WithTestKeeping(withTests), Cleaner.WithDryRun(dryRun) ]
  }

  /** Each flag reaches the cleaner unchanged, and `go mod tidy` stays off. */
  lemma MainOptionsConfigure(protectGit: bool, protectGoMod: bool, withTests: bool, dryRun: bool)
    ensures Cleaner.Configure(MainOptions(protectGit, protectGoMod, withTests, dryRun))
      == Cleaner.Settings(protectGit, protectGoMod, withTests, dryRun, false)
  {
    var opts := MainOptions(protectGit, protectGoMod, withTests, dryRun);
    assert opts[..1][..0] == [] && opts[..2][..1] == opts[..1] && opts[..3][..2] == opts[..2];
    assert opts[..4] == opts;
    calc {
      Cleaner.Configure(opts);
      Cleaner.Apply(Cleaner.Configure(opts[..3]), opts[3]);
      Cleaner.Apply(Cleaner.Apply(Cleaner.Configure(opts[..2]), opts[2]), opts[3]);
      Cleaner.Apply(Cleaner.Apply(Cleaner.Apply(Cleaner.Configure(opts[..1]), opts[1]), opts[2]), opts[3]);
      Cleaner.Apply(Cleaner.Apply(Cleaner.Apply(Cleaner.Apply(Cleaner.Defaults, opts[0]), opts[1]), opts[2]), opts[3]);
    }
  }

  datatype Abort = NoSourceDir | FindFailed(listing: Listing) | CleanFailed(error: Cleaner.CleanError)

  /** The keep decision of a run: the cleaned patterns, the listed packages, the
      selected and closed keep sets, and the files to keep. */
  datatype Plan =
    | Aborted(reason: Abort)
    | Plan(patterns: seq<string>, allPackages: map<string, Package>, selected: set<string>,
           keep: set<string>, files: seq<string>)

  /** main up to the cleaner: the patterns, the source-directory check, the listing,
      the selection, the closure and the projection. */
  method PlanKeep(sourceDir: string, packagesFlag: string, withTests: bool, out: ListOutput) returns (r: Plan)
    ensures sourceDir == "" ==> r == Aborted(NoSourceDir)
    ensures sourceDir != "" && (out.CommandFailed? || out.malformedTail) ==> r.Aborted? && r.reason.FindFailed?
    ensures r.Plan? <==> sourceDir != "" && out.Output? && !out.malformedTail
    ensures r.Plan? ==>
      && out.Output?
      && r.allPackages == Indexed(map[], out.records)
      && |r.patterns| == |Split(packagesFlag, ',')|
      && (forall i :: 0 <= i < |r.patterns| ==> r.patterns[i] == CleanPattern(Split(packagesFlag, ',')[i]))
      && (forall x :: x in r.selected <==> Selected(MatchPackage, r.allPackages, r.patterns, x))
      && IsClosureOf(r.allPackages, r.selected, r.keep)
      && (forall f :: f in r.files <==> KeptFile(r.allPackages, r.keep, withTests, f))
  {
    var patterns := PreparePatterns(packagesFlag);
    if sourceDir == "" {
      return Aborted(NoSourceDir);
    }
    var listing := FindPackagesInRepo(out);
    if !listing.Listed? {
      return Aborted(FindFailed(listing));
    }
    var allPackages := listing.packages;
    var selected := SelectPackages(allPackages, patterns[..]);
    var keep := AddDependencies(allPackages, selected);
    var files := ProjectFiles(allPackages, keep, withTests);
    return Plan(patterns[..], allPackages, selected, keep, files);
  }

  /** The whole command on the filesystem `fs`: plan, then clean with main.go's options.
      `plan` is the keep decision, which a failed clean replaces in `r` by its error. A
      run that stops before the cleaner changes nothing, and no run, not even one whose
      clean fails part way, removes a file of the plan. */
  method Run(sourceDir: string, packagesFlag: string, withTests: bool, protectGit: bool, protectGoMod: bool,
             dryRun: bool, out: ListOutput, fs: MemFs.FileSystem)
    returns (r: Plan, ghost plan: Plan)
    requires fs.Valid()
    modifies fs
    ensures fs.Valid()
    ensures r.Aborted? && !r.reason.CleanFailed? ==> fs.files == old(fs.files) && fs.dirs == old(fs.dirs)
    ensures fs.files <= old(fs.files) && fs.dirs <= old(fs.dirs)
    ensures plan.Plan? <==> sourceDir != "" && out.Output? && !out.malformedTail
    ensures plan.Plan? ==>
      && plan.allPackages == Indexed(map[], out.records)
      && |plan.patterns| == |Split(packagesFlag, ',')|
      && (forall i :: 0 <= i < |plan.patterns| ==> plan.patterns[i] == CleanPattern(Split(packagesFlag, ',')[i]))
      && (forall x :: x in plan.selected <==> Selected(MatchPackage, plan.allPackages, plan.patterns, x))
      && IsClosureOf(plan.allPackages, plan.selected, plan.keep)
      && (forall f :: f in plan.files <==> KeptFile(plan.allPackages, plan.keep, withTests, f))
    ensures !plan.Plan? ==> r == plan
    ensures r.Plan? ==> r == plan
    ensures r.Aborted? && r.reason.CleanFailed? ==> plan.Plan?
    ensures plan.Plan? ==> forall f :: f in old(fs.files) && f in plan.files ==> f in fs.files
    ensures dryRun ==> fs.files == old(fs.files) && fs.dirs == old(fs.dirs)
    ensures forall f :: f in old(fs.files) - fs.files ==>
      MemFs.AtOrUnder(f, sourceDir) && !(protectGit && Contains(f, "/.git/"))
    ensures forall d :: d in old(fs.dirs) - fs.dirs ==> Cleaner.Reaches(protectGit, sourceDir, d) && d != sourceDir
  {
    r := PlanKeep(sourceDir, packagesFlag, withTests, out);
    plan := r;
    if r.Aborted? {
      return;
    }
    MainOptionsConfigure(protectGit, protectGoMod, withTests, dryRun);
    var c := new Cleaner.Cleaner.New(sourceDir, r.files, fs, MainOptions(protectGit, protectGoMod, withTests, dryRun));
    ghost var order, failedAt;
    var cleaned;
    cleaned, order, failedAt := c.Clean();
    forall f | f in old(fs.files) && f in plan.files
      ensures f in fs.files
    {
      assert c.Keeps(f) && f !in c.Removable(old(fs.files));
    }
    if cleaned.CleanFailed? {
      r := Aborted(CleanFailed(cleaned.error));
    }
  }
}
