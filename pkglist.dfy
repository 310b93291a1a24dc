/** pkg/pkglist/pkglist.go: discovering the packages of a repository, matching caller
    patterns against them, closing the kept set under in-repo dependencies and
    projecting it to a list of files. */
module PkgList {
  import opened GoStrings
  import opened GoPackages
  import opened PackageSteps

  datatype FindError = ListFailed | DecodeFailed

  datatype Outcome = Pass | Fail(error: FindError)

  /** matchPackage: the exact import path first; then a `/...` wildcard, whose prefix
      `.` matches everything and otherwise matches as a trailing or leading segment
      run of the import path or as a segment run inside the directory; otherwise the
      last import-path segment, a trailing segment run of the import path, or of the
      directory. */
  function MatchPackage(pattern: string, importPath: string, dir: string): bool
  {
    if pattern == importPath then true
    else if HasSuffix(pattern, "/...") then
      var prefix := TrimSuffix(pattern, "/...");
      if prefix == "." then true
      else if HasSuffix(importPath, "/" + prefix) || HasPrefix(importPath, prefix + "/") then true
      else Contains(dir, "/" + prefix + "/")
    else
      var importParts := Split(importPath, '/');
      if |importParts| > 0 && importParts[|importParts| - 1] == pattern then true
      else if HasSuffix(importPath, "/" + pattern) then true
      else HasSuffix(dir, "/" + pattern)
  }

  class Finder {
    const sourceDir: string
    /** The injected commander, represented by what its `go list` call produces. */
    const commander: ListOutput
    var packages: map<string, Package>

    /** Each record is stored under its own import path. */
    ghost predicate Valid()
      reads this
    {
      KeyedByImportPath(packages)
    }

    /** NewFinder, with the commander injected. */
    constructor (sourceDir: string, commander: ListOutput)
      ensures this.sourceDir == sourceDir && this.commander == commander
      ensures packages == map[] && Valid()
    {
      this.sourceDir := sourceDir;
      this.commander := commander;
      packages := map[];
    }

    /** FindAll: a failed command changes nothing; otherwise every decoded record is
        stored under its import path, later duplicates overwriting earlier ones, and a
        malformed value ends the loop with an error, keeping what was stored before. */
    method FindAll() returns (r: Outcome)
      modifies this
      ensures commander.CommandFailed? ==> r == Fail(ListFailed) && packages == old(packages)
      ensures commander.Output? ==> packages == Indexed(old(packages), commander.records)
      ensures commander.Output? ==> r == (if commander.malformedTail then Fail(DecodeFailed) else Pass)
      ensures old(Valid()) ==> Valid()
    {
      if commander.CommandFailed? {
        return Fail(ListFailed);
      }
      var records := commander.records;
      var i := 0;
      while i < |records|
        invariant 0 <= i <= |records|
        invariant packages == Indexed(old(packages), records[..i])
        invariant old(Valid()) ==> Valid()
      {
        var pkg := records[i];
        assert records[..i + 1][..i] == records[..i];
        packages := packages[pkg.importPath := pkg];
        i := i + 1;
      }
      assert records[..|records|] == records;
      if commander.malformedTail {
        return Fail(DecodeFailed);
      }
      return Pass;
    }

    /** FilterByPatterns: exactly the import paths of the packages that some pattern
        matches. */
    method FilterByPatterns(patterns: seq<string>) returns (keep: set<string>)
      ensures forall x :: x in keep <==> Selected(MatchPackage, packages, patterns, x)
    {
      keep := SelectMatching(MatchPackage, packages, patterns);
    }

    /** AddDependencies: grows the caller's keep set in place to its dependency closure,
        inserting only packages of the repository and never removing anything. */
    method AddDependencies(keep: KeepSet)
      modifies keep
      ensures IsClosureOf(packages, old(keep.members), keep.members)
    {
      CloseOverDeps(packages, keep);
    }

    /** GetFileList: the files of the kept packages of the repository, each package
        contributing what its projection says (order is not part of the contract). */
    method GetFileList(keep: set<string>, withTests: bool) returns (allFiles: seq<string>)
      ensures forall f :: f in allFiles <==> KeptFile(packages, keep, withTests, f)
    {
      allFiles := [];
      var rest := packages.Keys;
      while rest != {}
        invariant rest <= packages.Keys
        invariant forall f :: f in allFiles <==>
          exists k :: k in packages.Keys - rest && k in keep && f in PackageFiles(packages[k], withTests)
        decreases rest
      {
        var pkgPath :| pkgPath in rest;
        var pkg := packages[pkgPath];
        if pkgPath in keep {
          allFiles := AppendPackageFiles(allFiles, pkg, withTests);
        }
        rest := rest - {pkgPath};
      }
    }
  }

  /** The loop body of GetFileList for one kept package. */
  method AppendPackageFiles(files: seq<string>, pkg: Package, withTests: bool) returns (allFiles: seq<string>)
    ensures allFiles == files + PackageFiles(pkg, withTests)
  {
    allFiles := AppendJoined(files, pkg.dir, pkg.goFiles);
    if withTests {
      allFiles := AppendJoined(allFiles, pkg.dir, pkg.testGoFiles);
      allFiles := AppendJoined(allFiles, pkg.dir, pkg.otherFiles);
    } else {
      allFiles := AppendOutsideTestdata(allFiles, pkg.dir, pkg.otherFiles);
    }
    allFiles := AppendJoined(allFiles, pkg.dir, pkg.embedFiles);
  }

  // ---------------------------------------------------------------------------
  // Lemmas about matching

  /** A pattern that is the import path matches, whatever the directory. */
  lemma MatchExact(importPath: string, dir: string)
    ensures MatchPackage(importPath, importPath, dir)
  {
  }

  /** A plain pattern matches exactly when it is the import path, or a run of whole
      trailing segments of the import path or of the directory; the package-name check
      adds nothing beyond the import-path suffix check. */
  lemma MatchPlain(pattern: string, importPath: string, dir: string)
    requires !HasSuffix(pattern, "/...")
    ensures MatchPackage(pattern, importPath, dir) <==>
      importPath == pattern || HasSuffix(importPath, "/" + pattern) || HasSuffix(dir, "/" + pattern)
  {
    LastSegmentIsSuffix(importPath);
  }

  /** The pattern `prefix/...` for a prefix other than `.` matches exactly when it is the
      import path itself, when `prefix` is a run of whole trailing or leading segments of
      the import path, or a run of whole inner segments of the directory. */
  lemma MatchWildcard(prefix: string, importPath: string, dir: string)
    requires prefix != "."
    ensures MatchPackage(prefix + "/...", importPath, dir) <==>
      || importPath == prefix + "/..."
      || HasSuffix(importPath, "/" + prefix)
      || HasPrefix(importPath, prefix + "/")
      || Contains(dir, "/" + prefix + "/")
  {
    var pattern := prefix + "/...";
    assert HasSuffix(pattern, "/...");
    assert TrimSuffix(pattern, "/...") == prefix;
  }

  /** `./...` matches every package. */
  lemma DotWildcardMatchesAll(importPath: string, dir: string)
    ensures MatchPackage("./...", importPath, dir)
  {
    assert HasSuffix("./...", "/...");
    assert TrimSuffix("./...", "/...") == ".";
  }

  /** `prefix/...` matches every package whose import path lies below `prefix`. */
  lemma WildcardCoversSubpackages(prefix: string, sub: string, dir: string)
    requires prefix != "."
    ensures MatchPackage(prefix + "/...", prefix + "/" + sub, dir)
  {
    MatchWildcard(prefix, prefix + "/" + sub, dir);
    assert (prefix + "/" + sub)[..|prefix + "/"|] == prefix + "/";
  }

  /** Matching respects segment boundaries: `a/...` matches neither the package `ab`
      nor its directory `/ab`, and `pkg/foo/...` neither `pkg/foox` nor `/pkg/foox`;
      so for any prefix and any character but `/`. */
  lemma WildcardSegmentBoundary(prefix: string, c: char)
    requires prefix != "." && c != '/'
    ensures !MatchPackage(prefix + "/...", prefix + [c], "/" + prefix + [c])
  {
    var importPath, dir := prefix + [c], "/" + prefix + [c];
    MatchWildcard(prefix, importPath, dir);
    assert |importPath| < |prefix + "/..."|;
    assert !HasSuffix(importPath, "/" + prefix) by {
      ShiftDiffers(prefix, c);
    }
    assert !HasPrefix(importPath, prefix + "/") by { assert importPath[|prefix|] == c; }
    assert !Contains(dir, "/" + prefix + "/") by {
      var sub := "/" + prefix + "/";
      assert !HasPrefix(dir, sub) by { assert dir[|prefix| + 1] == c && sub[|prefix| + 1] == '/'; }
      assert dir[1..] == importPath;
      NotContainsShort(importPath, sub);
    }
  }

  /** `prefix/...` does not match the package whose import path is `prefix` itself,
      unless its directory continues below a `prefix` segment run. */
  lemma WildcardExcludesNamedPackage()
    ensures !MatchPackage("a/b/...", "a/b", "/a/b")
  {
    MatchWildcard("a/b", "a/b", "/a/b");
    NotContainsShort("/a/b", "/a/b/");
  }

  /** Appending a character other than `/` never gives the same text as putting a `/`
      in front. */
  lemma {:induction false} ShiftDiffers(s: string, c: char)
    requires c != '/'
    ensures s + [c] != "/" + s
    decreases |s|
  {
    if s == "" {
      assert (s + [c])[0] != ("/" + s)[0];
    } else if s[0] != '/' {
      assert (s + [c])[0] != ("/" + s)[0];
    } else {
      ShiftDiffers(s[1..], c);
      assert (s + [c])[1..] == s[1..] + [c];
      assert ("/" + s)[1..] == s == "/" + s[1..];
    }
  }

  lemma {:induction false} NotContainsShort(s: string, sub: string)
    requires |s| < |sub|
    ensures !Contains(s, sub)
    decreases |s|
  {
    if |s| > 0 {
      NotContainsShort(s[1..], sub);
    }
  }

  // ---------------------------------------------------------------------------
  // Lemmas about selection and the file list

  /** With records stored under their import paths, selection yields keys of the index. */
  lemma SelectedAreKeys(packages: map<string, Package>, patterns: seq<string>, x: string)
    requires KeyedByImportPath(packages)
    requires Selected(MatchPackage, packages, patterns, x)
    ensures x in packages
  {
  }

  /** A pattern naming a package's import path selects that package. */
  lemma SelectedByExactPattern(packages: map<string, Package>, patterns: seq<string>, k: string)
    requires KeyedByImportPath(packages) && k in packages && k in patterns
    ensures Selected(MatchPackage, packages, patterns, k)
  {
    var j :| 0 <= j < |patterns| && patterns[j] == k;
    assert MatchPackage(patterns[j], packages[k].importPath, packages[k].dir);
    assert MatchedBy(MatchPackage, packages, patterns, k);
  }

  /** Adding patterns only ever selects more. */
  lemma SelectedGrowsWithPatterns(packages: map<string, Package>, patterns: seq<string>, more: seq<string>, x: string)
    requires Selected(MatchPackage, packages, patterns, x)
    ensures Selected(MatchPackage, packages, patterns + more, x)
  {
    var k :| MatchedBy(MatchPackage, packages, patterns, k) && packages[k].importPath == x;
    var j :| 0 <= j < |patterns| && MatchPackage(patterns[j], packages[k].importPath, packages[k].dir);
    assert (patterns + more)[j] == patterns[j];
    assert MatchedBy(MatchPackage, packages, patterns + more, k);
  }

  /** The file list with tests contains the file list without them. */
  lemma KeptFileGrowsWithTests(packages: map<string, Package>, keep: set<string>, f: string)
    requires KeptFile(packages, keep, false, f)
    ensures KeptFile(packages, keep, true, f)
  {
    var k :| k in packages && k in keep && f in PackageFiles(packages[k], false);
    ProjectionGrowsWithTests(packages[k], f);
  }

  /** A wider keep set lists more files. */
  lemma KeptFileMonotone(packages: map<string, Package>, keep: set<string>, wider: set<string>, withTests: bool, f: string)
    requires keep <= wider && KeptFile(packages, keep, withTests, f)
    ensures KeptFile(packages, wider, withTests, f)
  {
  }
}
