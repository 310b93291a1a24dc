/** pkg/cleaner/cleaner.go: the deletion engine. It walks the source tree, removes every
    file that is neither listed for keeping nor protected, then collapses directories
    left empty, depth first. */
module Cleaner {
  import opened GoStrings
  import opened MemFs

  // ---------------------------------------------------------------------------
  // Options

  /** The functional options of the constructor. */
  datatype CleanerOption =
    | WithGitProtection(protect: bool)
    | WithGoModProtection(protect: bool)
    | WithDryRun(dryRun: bool)
    | WithTestKeeping(keep: bool)
    | WithGoModTidy(enabled: bool)

  /** The flags an option can set. */
  datatype Settings = Settings(protectGit: bool, protectGoMod: bool, keepTests: bool, dryRun: bool, runGoModTidy: bool)

  /** Protection of `.git` and of the module manifests on, everything else off. */
  const Defaults := Settings(true, true, false, false, false)

  /** What one option does to the flags. */
  function Apply(s: Settings, opt: CleanerOption): Settings {
    match opt
    case WithGitProtection(b) => s.(protectGit := b)
    case WithGoModProtection(b) => s.(protectGoMod := b)
    case WithDryRun(b) => s.(dryRun := b)
    case WithTestKeeping(b) => s.(keepTests := b)
    case WithGoModTidy(b) => s.(runGoModTidy := b)
  }

  /** The flags after applying `opts`, in order, to the defaults. */
  function Configure(opts: seq<CleanerOption>): Settings
    decreases |opts|
  {
    if opts == [] then Defaults else Apply(Configure(opts[..|opts| - 1]), opts[|opts| - 1])
  }

  /** Two options set the same flag. */
  predicate SameFlag(a: CleanerOption, b: CleanerOption) {
    || (a.WithGitProtection? && b.WithGitProtection?)
    || (a.WithGoModProtection? && b.WithGoModProtection?)
    || (a.WithDryRun? && b.WithDryRun?)
    || (a.WithTestKeeping? && b.WithTestKeeping?)
    || (a.WithGoModTidy? && b.WithGoModTidy?)
  }

  // ---------------------------------------------------------------------------
  // Classification

  /** The walk callback's decision for one file: kept when it is listed, when it lies in
      a `.git` directory and that is protected, or when it is a module manifest outside
      `testdata` and manifests are protected. Every other file is removed. */
  predicate KeepsFile(filesToKeep: set<string>, protectGit: bool, protectGoMod: bool, path: string) {
    || path in filesToKeep
    || (protectGit && Contains(path, "/.git/"))
    || (protectGoMod && !Contains(path, "/testdata/") && (Base(path) == "go.mod" || Base(path) == "go.sum"))
  }

  // ---------------------------------------------------------------------------
  // Reach of the empty-directory pass

  /** The empty-directory pass started at `root` visits `x`: `x` is `root`, or lies
      below it with no `.git` segment in between when `.git` is protected. */
  ghost predicate Reaches(protectGit: bool, root: string, x: string) {
    x == root || (Under(x, root) && !(protectGit && ".git" in Split(x[|root| + 1..], '/')))
  }

  /** `d` has an immediate entry among `present`. */
  ghost predicate HasChildIn(present: set<string>, d: string) {
    exists y :: y in present && IsChildOf(y, d)
  }

  /** No visited directory but the source directory is left without entries. */
  ghost predicate Settled(protectGit: bool, sourceDir: string, root: string, present: set<string>, dirs: set<string>) {
    forall d :: d in dirs && Reaches(protectGit, root, d) && d != sourceDir ==> HasChildIn(present, d)
  }

  /** No visited directory fails to list or to be removed. */
  ghost predicate FaultFree(protectGit: bool, root: string, dirs: set<string>, unreadable: set<string>, locked: set<string>) {
    forall d :: d in dirs && Reaches(protectGit, root, d) ==> d !in unreadable && d !in locked
  }

  /** Every directory of `start` that is gone has no entry among `files` and `dirs`:
      only directories left without entries are removed. */
  ghost predicate EmptiedOnly(start: set<string>, files: set<string>, dirs: set<string>) {
    forall d :: d in start && d !in dirs ==> !HasChildIn(files + dirs, d)
  }

  /** Removing more directories keeps the already removed ones without entries. */
  lemma EmptiedTrans(a: set<string>, b: set<string>, c: set<string>, files: set<string>)
    requires c <= b <= a
    requires EmptiedOnly(a, files, b) && EmptiedOnly(b, files, c)
    ensures EmptiedOnly(a, files, c)
  {
    forall d | d in a && d !in c ensures !HasChildIn(files + c, d) {
      if d !in b {
        assert !HasChildIn(files + b, d);
        assert files + c <= files + b;
      }
    }
  }

  /** Removing a directory without entries keeps `EmptiedOnly`. */
  lemma EmptiedByRemoval(start: set<string>, dirs: set<string>, files: set<string>, p: string)
    requires EmptiedOnly(start, files, dirs)
    requires forall x :: x in files + dirs ==> !IsChildOf(x, p)
    ensures EmptiedOnly(start, files, dirs - {p})
  {
    forall d | d in start && d !in dirs - {p} ensures !HasChildIn(files + (dirs - {p}), d) {
      assert files + (dirs - {p}) <= files + dirs;
    }
  }

  datatype CleanError =
    | WalkFailed(walkError: FsError)
    | RemoveFailed(path: string, removeError: FsError)
    | EmptyDirsFailed(dirError: FsError)

  datatype CleanResult = Cleaned | CleanFailed(error: CleanError)

  class Cleaner {
    const sourceDir: string
    const filesToKeep: set<string>
    var fs: FileSystem
    const protectGit: bool
    const protectGoMod: bool
    const keepTests: bool
    const dryRun: bool
    const runGoModTidy: bool

    /** New: the keep list as a set and the options applied in order to the defaults;
        `osFs` stands for the operating system's filesystem. */
    constructor New(sourceDir: string, filesToKeep: seq<string>, osFs: FileSystem, opts: seq<CleanerOption>)
      ensures this.sourceDir == sourceDir && fs == osFs
      ensures forall f :: f in this.filesToKeep <==> f in filesToKeep
      ensures Settings(protectGit, protectGoMod, keepTests, dryRun, runGoModTidy) == Configure(opts)
    {
      var keepFiles: set<string> := {};
      for i := 0 to |filesToKeep|
        invariant forall f :: f in keepFiles <==> f in filesToKeep[..i]
      {
        assert filesToKeep[..i + 1] == filesToKeep[..i] + [filesToKeep[i]];
        keepFiles := keepFiles + {filesToKeep[i]};
      }
      assert filesToKeep[..|filesToKeep|] == filesToKeep;
      var settings := Defaults;
      for i := 0 to |opts|
        invariant settings == Configure(opts[..i])
      {
        assert opts[..i + 1][..i] == opts[..i];
        settings := Apply(settings, opts[i]);
      }
      assert opts[..|opts|] == opts;
      this.sourceDir := sourceDir;
      this.filesToKeep := keepFiles;
      fs := osFs;
      protectGit := settings.protectGit;
      protectGoMod := settings.protectGoMod;
      keepTests := settings.keepTests;
      dryRun := settings.dryRun;
      runGoModTidy := settings.runGoModTidy;
    }

    predicate Keeps(path: string) {
      KeepsFile(filesToKeep, protectGit, protectGoMod, path)
    }

    /** The files a clean removes: those at or below the source directory it does not keep. */
    function Removable(files: set<string>): set<string> {
      set f | f in files && AtOrUnder(f, sourceDir) && !Keeps(f)
    }

    /** Clean: a walk that fails changes nothing; otherwise the unkept files are removed
        (none on a dry run), the first removal that fails stops the clean, and the
        empty-directory pass runs from the source directory. The `go mod tidy` step is
        not part of this model. */
    method Clean() returns (r: CleanResult, ghost order: seq<string>, ghost failedAt: int)
      requires fs.Valid()
      modifies fs
      ensures fs.Valid()
      ensures !old(fs.WalkFails(sourceDir)) ==> Enumerates(order, Removable(old(fs.files)))
      ensures r.CleanFailed? && r.error.RemoveFailed? ==>
        && 0 <= failedAt < |order| && order[failedAt] == r.error.path
        && fs.dirs == old(fs.dirs)
        && forall f :: f in fs.files <==> f in old(fs.files) && f !in order[..failedAt]
      ensures old(fs.WalkFails(sourceDir)) ==> r.CleanFailed? && r.error.WalkFailed?
      ensures old(fs.WalkFails(sourceDir)) || dryRun ==> fs.files == old(fs.files) && fs.dirs == old(fs.dirs)
      ensures fs.files <= old(fs.files) && old(fs.files) - fs.files <= Removable(old(fs.files))
      ensures fs.dirs <= old(fs.dirs)
      ensures forall d :: d in old(fs.dirs) && d !in fs.dirs ==> Reaches(protectGit, sourceDir, d) && d != sourceDir
      ensures EmptiedOnly(old(fs.dirs), fs.files, fs.dirs)
      ensures (r.Cleaned? || r.error.EmptyDirsFailed?) && !dryRun ==> fs.files == old(fs.files) - Removable(old(fs.files))
      ensures r.Cleaned? && !dryRun ==> Settled(protectGit, sourceDir, sourceDir, fs.files + fs.dirs, fs.dirs)
      ensures && !old(fs.WalkFails(sourceDir))
              && Removable(old(fs.files)) !! fs.locked
              && sourceDir in old(fs.dirs)
              && FaultFree(protectGit, sourceDir, old(fs.dirs), fs.unreadable, fs.locked)
              ==> r.Cleaned?
    {
      order, failedAt := [], 0;
      var walked := fs.Walk(sourceDir);
      if walked.Err? {
        return CleanFailed(WalkFailed(walked.error)), order, failedAt;
      }
      var paths := walked.value;
      var toRemove: seq<string> := [];
      for i := 0 to |paths|
        invariant forall x :: x in toRemove <==> x in paths[..i] && !Keeps(x)
        invariant forall a, b :: 0 <= a < b < |toRemove| ==> toRemove[a] != toRemove[b]
      {
        assert paths[..i + 1] == paths[..i] + [paths[i]];
        if !Keeps(paths[i]) {
          assert paths[i] !in paths[..i];
          toRemove := toRemove + [paths[i]];
        }
      }
      assert paths[..|paths|] == paths;
      assert forall x :: x in toRemove <==> x in Removable(fs.files);
      order := toRemove;
      if !dryRun {
        for i := 0 to |toRemove|
          invariant fs.Valid()
          invariant fs.dirs == old(fs.dirs)
          invariant forall f :: f in fs.files <==> f in old(fs.files) && f !in toRemove[..i]
        {
          var path := toRemove[i];
          assert path !in toRemove[..i];
          RemovalKeepsValid(fs.files, fs.dirs, fs, path);
          var e := fs.Remove(path);
          if e.Failed? {
            return CleanFailed(RemoveFailed(path, e.error)), order, i;
          }
          assert toRemove[..i + 1] == toRemove[..i] + [path];
        }
        assert toRemove[..|toRemove|] == toRemove;
      }
      var e := RemoveEmptyDirs(sourceDir);
      if e.Failed? {
        return CleanFailed(EmptyDirsFailed(e.error)), order, failedAt;
      }
      return Cleaned, order, failedAt;
    }

    /** removeEmptyDirs: below `path`, entries first, skipping `.git` when protected,
        then `path` itself when it is left without entries and is not the source
        directory; a dry run removes nothing. The first listing or removal that fails
        stops the pass. */
    method RemoveEmptyDirs(path: string) returns (r: Status)
      requires fs.Valid()
      modifies fs
      decreases DirsAtOrUnder(fs.dirs, path), 1
      ensures fs.Valid()
      ensures fs.files == old(fs.files) && fs.dirs <= old(fs.dirs)
      ensures forall d :: d in old(fs.dirs) && d !in fs.dirs ==> Reaches(protectGit, path, d) && d != sourceDir
      ensures EmptiedOnly(old(fs.dirs), fs.files, fs.dirs)
      ensures dryRun ==> fs.dirs == old(fs.dirs)
      ensures r.Done? && !dryRun ==> Settled(protectGit, sourceDir, path, fs.files + fs.dirs, fs.dirs)
      ensures FaultFree(protectGit, path, old(fs.dirs), fs.unreadable, fs.locked) && path in old(fs.dirs) ==> r.Done?
    {
      var listing := fs.ReadDir(path);
      if listing.Err? {
        return Failed(listing.error);
      }
      var entries := listing.value;
      ghost var start := fs.dirs;
      assert EntriesOf(entries, path, fs.files + start, start);
      var k := 0;
      while k < |entries|
        invariant fs.Valid() && fs.files == old(fs.files)
        invariant VisitInv(path, entries, k, start, fs.files, fs.dirs)
        invariant EmptiedOnly(start, fs.files, fs.dirs)
      {
        assert DirsAtOrUnder(fs.dirs, path) <= DirsAtOrUnder(start, path);
        var e := VisitEntry(path, entries, k, start);
        if e.Failed? {
          return e;
        }
        k := k + 1;
      }
      VisitDone(path, entries, start);
      r := RemoveIfEmpty(path, start);
    }

    /** One turn of the entry loop of removeEmptyDirs: a directory entry other than a
        protected `.git` is collapsed recursively; any other entry is passed over. */
    method VisitEntry(path: string, entries: seq<DirEntry>, k: int, ghost start: set<string>) returns (e: Status)
      requires fs.Valid() && EntriesOf(entries, path, fs.files + start, start)
      requires VisitInv(path, entries, k, start, fs.files, fs.dirs) && k < |entries|
      requires EmptiedOnly(start, fs.files, fs.dirs)
      modifies fs
      decreases DirsAtOrUnder(fs.dirs, path), 0
      ensures fs.Valid() && fs.files == old(fs.files) && fs.dirs <= old(fs.dirs)
      ensures EmptiedOnly(start, fs.files, fs.dirs)
      ensures e.Done? ==> VisitInv(path, entries, k + 1, start, fs.files, fs.dirs)
      ensures e.Failed? ==> forall d :: d in start && d !in fs.dirs ==> Reaches(protectGit, path, d) && d != sourceDir
      ensures dryRun ==> fs.dirs == start
      ensures FaultFree(protectGit, path, start, fs.unreadable, fs.locked) ==> e.Done?
    {
      var entry := entries[k];
      ghost var before := fs.dirs;
      if entry.isDir && !(protectGit && entry.name == ".git") {
        var subpath := path + "/" + entry.name;
        JoinIsChild(path, entry.name);
        ChildOutsideSubtree(fs.dirs, path, subpath);
        e := RemoveEmptyDirs(subpath);
        EmptiedTrans(start, before, fs.dirs, fs.files);
        if e.Failed? {
          ReachFromChild(path, subpath, start, before);
          RemovedBelowEntry(path, subpath, start, before, fs.dirs);
          return e;
        }
        VisitStep(path, entries, k, start, fs.files, before, fs.dirs);
      } else {
        VisitSkip(path, entries, k, start, fs.files, fs.dirs);
        e := Done;
      }
    }

    /** The tail of removeEmptyDirs, once every entry has been visited: list `path`
        again and remove it when it is left without entries and is not the source
        directory. `start` is the tree before the visit. */
    method RemoveIfEmpty(path: string, ghost start: set<string>) returns (r: Status)
      requires fs.Valid() && path in fs.dirs && path !in fs.unreadable && fs.dirs <= start
      requires forall d :: d in start && d !in fs.dirs ==> Reaches(protectGit, path, d) && d != sourceDir
      requires EmptiedOnly(start, fs.files, fs.dirs)
      requires dryRun ==> fs.dirs == start
      requires !dryRun ==> forall d :: d in fs.dirs && Reaches(protectGit, path, d) && d != sourceDir && d != path ==>
        HasChildIn(fs.files + fs.dirs, d)
      modifies fs
      ensures fs.Valid()
      ensures fs.files == old(fs.files) && fs.dirs <= old(fs.dirs)
      ensures forall d :: d in start && d !in fs.dirs ==> Reaches(protectGit, path, d) && d != sourceDir
      ensures EmptiedOnly(start, fs.files, fs.dirs)
      ensures dryRun ==> fs.dirs == start
      ensures r.Done? && !dryRun ==> Settled(protectGit, sourceDir, path, fs.files + fs.dirs, fs.dirs)
      ensures path !in fs.locked ==> r.Done?
    {
      var again := fs.ReadDir(path);
      // A directory's listing fails always or never here, and the first listing of
      // `path` succeeded, so the second one does too.
      assert again.Ok?;
      if |again.value| == 0 && path != sourceDir {
        if dryRun {
          return Done;
        }
        assert fs.ChildrenOf(path) == {};
        RemovalKeepsValid(fs.files, fs.dirs, fs, path);
        ghost var present := fs.files + fs.dirs;
        ghost var beforeRemoval := fs.dirs;
        r := fs.Remove(path);
        if r.Done? {
          SettledAfterRemoval(path, present, fs.files + fs.dirs, fs.dirs);
          EmptiedByRemoval(start, beforeRemoval, fs.files, path);
        }
        return r;
      }
      if |again.value| > 0 {
        JoinIsChild(path, again.value[0].name);
      }
      return Done;
    }

    /** The invariant of the entry loop of removeEmptyDirs after `k` entries: what was
        removed lies below a visited entry, later entries are still present, and every
        visited directory that is left has an entry. */
    ghost predicate VisitInv(path: string, entries: seq<DirEntry>, k: int, start: set<string>,
                             files: set<string>, dirs: set<string>)
    {
      && 0 <= k <= |entries|
      && dirs <= start && path in dirs
      && (forall d :: d in start && d !in dirs ==>
            Reaches(protectGit, path, d) && d != sourceDir && RemovedBelow(path, entries, k, d))
      && (dryRun ==> dirs == start)
      && (forall j :: k <= j < |entries| && entries[j].isDir ==> path + "/" + entries[j].name in dirs)
      && (!dryRun ==> forall d :: d in dirs && d != sourceDir && Handled(path, entries, k, d) ==>
            HasChildIn(files + dirs, d))
    }

    /** An entry that is a file, or a protected `.git`, changes nothing. */
    lemma VisitSkip(path: string, entries: seq<DirEntry>, k: int, start: set<string>, files: set<string>, dirs: set<string>)
      requires VisitInv(path, entries, k, start, files, dirs) && k < |entries|
      requires !entries[k].isDir || (protectGit && entries[k].name == ".git")
      ensures VisitInv(path, entries, k + 1, start, files, dirs)
    {
      forall d | d in start && d !in dirs ensures RemovedBelow(path, entries, k + 1, d) {
        var j :| 0 <= j < k && j < |entries| && AtOrUnder(d, path + "/" + entries[j].name);
      }
      forall d | d in dirs && d != sourceDir && Handled(path, entries, k + 1, d) ensures Handled(path, entries, k, d) {
        var j :| 0 <= j < k + 1 && j < |entries| && entries[j].isDir && !(protectGit && entries[j].name == ".git")
          && Reaches(protectGit, path + "/" + entries[j].name, d);
        assert j != k;
      }
    }

    /** Visiting entry `k`, with the callee's guarantees, keeps the invariant. */
    lemma VisitStep(path: string, entries: seq<DirEntry>, k: int, start: set<string>, files: set<string>,
                    before: set<string>, after: set<string>)
      requires VisitInv(path, entries, k, start, files, before) && k < |entries|
      requires EntriesOf(entries, path, files + start, start)
      requires entries[k].isDir && !(protectGit && entries[k].name == ".git")
      requires after <= before
      requires forall d :: d in before && d !in after ==>
        Reaches(protectGit, path + "/" + entries[k].name, d) && d != sourceDir
      requires dryRun ==> after == before
      requires !dryRun ==> Settled(protectGit, sourceDir, path + "/" + entries[k].name, files + after, after)
      ensures VisitInv(path, entries, k + 1, start, files, after)
    {
      var subpath := path + "/" + entries[k].name;
      JoinIsChild(path, entries[k].name);
      forall d | d in start && d !in after
        ensures Reaches(protectGit, path, d) && RemovedBelow(path, entries, k + 1, d)
      {
        if d in before {
          ReachesViaChild(protectGit, path, subpath, d);
        } else {
          var j :| 0 <= j < k && j < |entries| && AtOrUnder(d, path + "/" + entries[j].name);
        }
      }
      forall j | k < j < |entries| && entries[j].isDir ensures path + "/" + entries[j].name in after {
        SiblingSubtrees(path, entries[j].name, entries[k].name, path + "/" + entries[j].name);
      }
      if !dryRun {
        forall d | d in after && d != sourceDir && Handled(path, entries, k + 1, d)
          ensures HasChildIn(files + after, d)
        {
          var j :| 0 <= j < k + 1 && j < |entries| && entries[j].isDir && !(protectGit && entries[j].name == ".git")
            && Reaches(protectGit, path + "/" + entries[j].name, d);
          if j < k {
            assert Handled(path, entries, k, d);
            var y :| y in files + before && IsChildOf(y, d);
            var c := path + "/" + entries[j].name;
            JoinIsChild(path, entries[j].name);
            AtOrUnderTrans(y, d, c);
            SiblingSubtrees(path, entries[j].name, entries[k].name, y);
            assert y in files + after;
          }
        }
      }
    }

    /** After the entry loop, every directory the pass reaches strictly below `path` that
        is left has an entry. */
    lemma VisitDone(path: string, entries: seq<DirEntry>, start: set<string>)
      requires fs.Valid() && VisitInv(path, entries, |entries|, start, fs.files, fs.dirs)
      requires EntriesOf(entries, path, fs.files + start, start)
      ensures !dryRun ==> forall d :: d in fs.dirs && Reaches(protectGit, path, d) && d != sourceDir && d != path ==>
        HasChildIn(fs.files + fs.dirs, d)
    {
      forall d | d in fs.dirs && Reaches(protectGit, path, d) && d != path
        ensures Handled(path, entries, |entries|, d)
      {
        VisitedThroughEntry(path, entries, start, d);
      }
    }

    /** What the pass removed below a visited entry was reached from `path`. */
    lemma RemovedBelowEntry(path: string, subpath: string, start: set<string>, before: set<string>, after: set<string>)
      requires IsChildOf(subpath, path) && !(protectGit && subpath[|path| + 1..] == ".git")
      requires forall d :: d in start && d !in before ==> Reaches(protectGit, path, d) && d != sourceDir
      requires forall d :: d in before && d !in after ==> Reaches(protectGit, subpath, d) && d != sourceDir
      ensures forall d :: d in start && d !in after ==> Reaches(protectGit, path, d) && d != sourceDir
    {
      forall d | d in before && d !in after ensures Reaches(protectGit, path, d) {
        ReachesViaChild(protectGit, path, subpath, d);
      }
    }

    /** Removing `path` itself leaves every other visited directory with its entries. */
    lemma SettledAfterRemoval(path: string, present: set<string>, now: set<string>, dirs: set<string>)
      requires now == present - {path} && dirs <= now
      requires forall d :: d in dirs && Reaches(protectGit, path, d) && d != sourceDir && d != path ==>
        HasChildIn(present, d)
      ensures Settled(protectGit, sourceDir, path, now, dirs)
    {
      forall d | d in dirs && Reaches(protectGit, path, d) && d != sourceDir ensures HasChildIn(now, d) {
        var y :| y in present && IsChildOf(y, d);
        AtOrUnderTrans(y, d, path);
      }
    }

    /** `d` was removed from below one of the first `k` entries. */
    ghost predicate RemovedBelow(path: string, entries: seq<DirEntry>, k: int, d: string) {
      exists j :: 0 <= j < k && j < |entries| && AtOrUnder(d, path + "/" + entries[j].name)
    }

    /** `d` is visited through one of the first `k` entries. */
    ghost predicate Handled(path: string, entries: seq<DirEntry>, k: int, d: string) {
      exists j :: 0 <= j < k && j < |entries| && entries[j].isDir && !(protectGit && entries[j].name == ".git")
        && Reaches(protectGit, path + "/" + entries[j].name, d)
    }

    lemma ChildOutsideSubtree(dirs: set<string>, path: string, subpath: string)
      requires IsChildOf(subpath, path) && path in dirs
      ensures path in DirsAtOrUnder(dirs, path) - DirsAtOrUnder(dirs, subpath)
      ensures DirsAtOrUnder(dirs, subpath) <= DirsAtOrUnder(dirs, path)
    {
      forall x | x in DirsAtOrUnder(dirs, subpath) ensures x in DirsAtOrUnder(dirs, path) {
        AtOrUnderTrans(x, subpath, path);
      }
    }

    /** A fault-free pass from `path` is fault free from each entry it visits. */
    lemma ReachFromChild(path: string, subpath: string, dirs: set<string>, remaining: set<string>)
      requires IsChildOf(subpath, path) && !(protectGit && subpath[|path| + 1..] == ".git")
      requires remaining <= dirs
      ensures FaultFree(protectGit, path, dirs, fs.unreadable, fs.locked) ==>
        FaultFree(protectGit, subpath, remaining, fs.unreadable, fs.locked)
    {
      forall d | d in remaining && Reaches(protectGit, subpath, d) ensures Reaches(protectGit, path, d) {
        ReachesViaChild(protectGit, path, subpath, d);
      }
    }

    /** Every directory the pass reaches strictly below `path` is visited through the
        entry of `path` on the way to it. */
    lemma VisitedThroughEntry(path: string, entries: seq<DirEntry>, start: set<string>, d: string)
      requires fs.Valid() && fs.dirs <= start
      requires EntriesOf(entries, path, fs.files + start, start)
      requires d in fs.dirs && Reaches(protectGit, path, d) && d != path
      ensures Handled(path, entries, |entries|, d)
    {
      var c := FirstStep(path, d);
      FirstStepPresent(fs, path, d);
      var j :| 0 <= j < |entries| && path + "/" + entries[j].name == c;
      JoinIsChild(path, entries[j].name);
      assert c[|path| + 1..] == entries[j].name;
      ReachesViaChild(protectGit, path, c, d);
    }
  }

  // ---------------------------------------------------------------------------
  // Lemmas about reach

  /** Reaching below an entry `c` of `root` from `root` is reaching it from `c`, unless
      `c` is a protected `.git`. */
  lemma ReachesViaChild(protectGit: bool, root: string, c: string, x: string)
    requires IsChildOf(c, root) && AtOrUnder(x, c)
    ensures Under(x, root)
    ensures Reaches(protectGit, root, x) <==> !(protectGit && c[|root| + 1..] == ".git") && Reaches(protectGit, c, x)
  {
    BelowChild(x, c, root);
    var name := c[|root| + 1..];
    ChildName(c, root);
    if x == c {
      assert x[|root| + 1..] == name;
      SplitPiece(name, '/');
    } else {
      assert x[..|c| + 1] == c + "/";
      var tail := x[|c| + 1..];
      assert x[|root| + 1..] == name + "/" + tail;
      SplitCons(name, '/', tail);
      assert x[|root| + 1..] == name + ['/'] + tail;
    }
  }

  /** Below the entry `path/n1`, a path is below the entry `path/n2` only when the
      names are the same. */
  lemma SiblingSubtrees(path: string, n1: string, n2: string, y: string)
    requires '/' !in n1 && '/' !in n2
    requires AtOrUnder(y, path + "/" + n1)
    ensures AtOrUnder(y, path + "/" + n2) <==> n1 == n2
  {
    var c1, c2 := path + "/" + n1, path + "/" + n2;
    JoinIsChild(path, n1);
    JoinIsChild(path, n2);
    if AtOrUnder(y, c2) {
      ChildrenDisjoint(path, c1, c2, y);
      assert c1[|path| + 1..] == n1 && c2[|path| + 1..] == n2;
    }
  }

  // ---------------------------------------------------------------------------
  // Lemmas about the options

  /** Of two options for the same flag, the later one decides. */
  lemma LaterOptionWins(opts: seq<CleanerOption>, a: CleanerOption, b: CleanerOption)
    requires SameFlag(a, b)
    ensures Configure(opts + [a, b]) == Configure(opts + [b])
  {
    assert (opts + [a, b])[..|opts| + 1] == opts + [a];
    assert (opts + [a])[..|opts|] == opts;
    assert (opts + [b])[..|opts|] == opts;
  }

  /** Options for different flags can be given in either order. */
  lemma DistinctOptionsCommute(opts: seq<CleanerOption>, a: CleanerOption, b: CleanerOption)
    requires !SameFlag(a, b)
    ensures Configure(opts + [a, b]) == Configure(opts + [b, a])
  {
    assert (opts + [a, b])[..|opts| + 1] == opts + [a];
    assert (opts + [b, a])[..|opts| + 1] == opts + [b];
    assert (opts + [a])[..|opts|] == opts;
    assert (opts + [b])[..|opts|] == opts;
  }

  /** A flag no option mentions keeps its default. */
  lemma {:induction false} UnsetFlagsKeepDefaults(opts: seq<CleanerOption>)
    ensures (forall o :: o in opts ==> !o.WithGitProtection?) ==> Configure(opts).protectGit
    ensures (forall o :: o in opts ==> !o.WithGoModProtection?) ==> Configure(opts).protectGoMod
    ensures (forall o :: o in opts ==> !o.WithDryRun?) ==> !Configure(opts).dryRun
    ensures (forall o :: o in opts ==> !o.WithTestKeeping?) ==> !Configure(opts).keepTests
    ensures (forall o :: o in opts ==> !o.WithGoModTidy?) ==> !Configure(opts).runGoModTidy
    decreases |opts|
  {
    if opts != [] {
      var init, last := opts[..|opts| - 1], opts[|opts| - 1];
      assert opts == init + [last];
      UnsetFlagsKeepDefaults(init);
    }
  }

  // ---------------------------------------------------------------------------
  // Lemmas about classification

  /** Every file inside a `.git` directory is kept while `.git` is protected. */
  lemma GitContentsKept(filesToKeep: set<string>, protectGoMod: bool, dir: string, rest: string)
    ensures KeepsFile(filesToKeep, true, protectGoMod, dir + "/.git/" + rest)
  {
    ContainsInfix(dir, "/.git/", rest);
  }

  /** A module manifest outside `testdata` is kept while manifests are protected. */
  lemma ManifestKept(filesToKeep: set<string>, protectGit: bool, dir: string, name: string)
    requires name == "go.mod" || name == "go.sum"
    requires !Contains(dir + "/" + name, "/testdata/")
    ensures KeepsFile(filesToKeep, protectGit, true, dir + "/" + name)
  {
    BaseOfJoin(dir, name);
  }

  /** Below `testdata`, a manifest that is not listed and not inside `.git` is removed
      even with every protection on. */
  lemma TestdataManifestRemovable(filesToKeep: set<string>, dir: string, rest: string)
    requires dir + "/testdata/" + rest !in filesToKeep
    requires !Contains(dir + "/testdata/" + rest, "/.git/")
    ensures !KeepsFile(filesToKeep, true, true, dir + "/testdata/" + rest)
  {
    ContainsInfix(dir, "/testdata/", rest);
  }


  // ---------------------------------------------------------------------------
  // Lemmas about reach

  /** With `.git` protected, neither a `.git` entry of the root nor anything below it is
      visited by the empty-directory pass. */
  lemma ProtectedGitNotReached(root: string, rest: string)
    ensures !Reaches(true, root, root + "/.git")
    ensures !Reaches(true, root, root + "/.git/" + rest)
  {
    var c := root + "/.git";
    JoinIsChild(root, ".git");
    assert c[|root| + 1..] == ".git";
    ReachesViaChild(true, root, c, c);
    var x := root + "/.git/" + rest;
    assert x == c + "/" + rest;
    assert x[..|c| + 1] == c + "/";
    ReachesViaChild(true, root, c, x);
  }


  // ---------------------------------------------------------------------------
  // Construction over a given filesystem

  /** NewWithFs: as New, with `fs` in place of the operating system's filesystem. */
  method NewWithFs(sourceDir: string, filesToKeep: seq<string>, fs: FileSystem, opts: seq<CleanerOption>)
    returns (c: Cleaner)
    ensures fresh(c)
    ensures c.sourceDir == sourceDir && c.fs == fs
    ensures forall f :: f in c.filesToKeep <==> f in filesToKeep
    ensures Settings(c.protectGit, c.protectGoMod, c.keepTests, c.dryRun, c.runGoModTidy) == Configure(opts)
  {
    c := new Cleaner.New(sourceDir, filesToKeep, fs, opts);
    c.fs := fs;
  }

  // ---------------------------------------------------------------------------
  // A clean of a small tree

  /** The tree: a source directory with two packages of two files each. */
  const SrcDir: string := "/src"
  const Pkg1Dir: string := SrcDir + "/" + "pkg1"
  const Pkg2Dir: string := SrcDir + "/" + "pkg2"
  const File1: string := Pkg1Dir + "/" + "file1.go"
  const File2: string := Pkg1Dir + "/" + "file2.go"
  const File3: string := Pkg2Dir + "/" + "file3.go"
  const File4: string := Pkg2Dir + "/" + "file4_test.go"

  /** The clean of the tree with the default options and one file of each package
      listed for keeping succeeds, leaves exactly the listed files, and keeps both
      package directories. */
  method CleanTwoPackages() returns (r: CleanResult, files: set<string>, dirs: set<string>)
    ensures r == Cleaned
    ensures files == {File1, File4}
    ensures dirs == {SrcDir, Pkg1Dir, Pkg2Dir}
  {
    var c := TwoPackagesCleaner();
    TwoPackagesRemovable(c);
    NothingFails(c.fs, c.protectGit, c.sourceDir);
    ghost var removed := c.Removable(c.fs.files);
    r := CleanFaultFree(c);
    files, dirs := c.fs.files, c.fs.dirs;
    TwoPackagesDistinct();
    LeftAfterRemoval(files, {File1, File2, File3, File4}, removed, File1, File2, File3, File4);
    TwoPackagesDirsStay(files, {SrcDir, Pkg1Dir, Pkg2Dir}, dirs);
  }

  /** A clean that nothing can stop succeeds, removes exactly the files it does not
      keep, and removes only directories it leaves without entries. */
  method CleanFaultFree(c: Cleaner) returns (r: CleanResult)
    requires c.fs.Valid() && !c.dryRun
    requires !c.fs.WalkFails(c.sourceDir) && c.sourceDir in c.fs.dirs
    requires c.Removable(c.fs.files) !! c.fs.locked
    requires FaultFree(c.protectGit, c.sourceDir, c.fs.dirs, c.fs.unreadable, c.fs.locked)
    modifies c.fs
    ensures r == Cleaned
    ensures c.fs.files == old(c.fs.files) - c.Removable(old(c.fs.files))
    ensures c.fs.dirs <= old(c.fs.dirs) && EmptiedOnly(old(c.fs.dirs), c.fs.files, c.fs.dirs)
  {
    ghost var order, failedAt;
    r, order, failedAt := c.Clean();
  }

  /** On a tree with nothing unreadable or locked, neither the walk nor the
      empty-directory pass can fail. */
  lemma NothingFails(fs: FileSystem, protectGit: bool, root: string)
    requires fs.unreadable == {} && fs.locked == {} && root in fs.dirs
    ensures !fs.WalkFails(root) && FaultFree(protectGit, root, fs.dirs, fs.unreadable, fs.locked)
  {
  }

  /** The cleaner of the two-package clean, over a fresh in-memory tree. */
  method TwoPackagesCleaner() returns (c: Cleaner)
    ensures fresh(c) && fresh(c.fs) && c.fs.Valid()
    ensures c.sourceDir == SrcDir
    ensures c.fs.files == {File1, File2, File3, File4}
    ensures c.fs.dirs == {SrcDir, Pkg1Dir, Pkg2Dir}
    ensures c.fs.unreadable == {} && c.fs.locked == {}
    ensures forall f :: f in c.filesToKeep <==> f in [File1, File4]
    ensures Settings(c.protectGit, c.protectGoMod, c.keepTests, c.dryRun, c.runGoModTidy) == Configure([])
  {
    TwoPackagesTree();
    var fs := new FileSystem({File1, File2, File3, File4}, {SrcDir, Pkg1Dir, Pkg2Dir}, {}, {});
    c := NewWithFs(SrcDir, [File1, File4], fs, []);
  }

  /** The tree of the two-package clean is a well-formed filesystem. */
  lemma TwoPackagesTree()
    ensures var files := {File1, File2, File3, File4};
      var dirs := {SrcDir, Pkg1Dir, Pkg2Dir};
      files !! dirs && forall x :: x in files + dirs ==> AncestorsIn(x, dirs)
  {
    var dirs := {SrcDir, Pkg1Dir, Pkg2Dir};
    assert AncestorsIn(SrcDir, dirs) by { assert forall i :: 0 < i < |SrcDir| ==> SrcDir[i] != '/'; }
    JoinedAncestors(SrcDir, "pkg1", dirs);
    JoinedAncestors(SrcDir, "pkg2", dirs);
    JoinedAncestors(Pkg1Dir, "file1.go", dirs);
    JoinedAncestors(Pkg1Dir, "file2.go", dirs);
    JoinedAncestors(Pkg2Dir, "file3.go", dirs);
    JoinedAncestors(Pkg2Dir, "file4_test.go", dirs);
    TwoPackagesDistinct();
  }

  /** The paths of the tree are pairwise distinct. */
  lemma TwoPackagesDistinct()
    ensures |SrcDir| < |Pkg1Dir| && |SrcDir| < |Pkg2Dir| && Pkg1Dir != Pkg2Dir
    ensures |Pkg1Dir| < |File1| && |Pkg1Dir| < |File2| && |Pkg2Dir| < |File3| && |Pkg2Dir| < |File4|
    ensures File1 != File2 && File1 != File3 && File1 != File4
    ensures File2 != File3 && File2 != File4 && File3 != File4
  {
    JoinInjective(SrcDir, "pkg1", SrcDir, "pkg2");
    JoinInjective(Pkg1Dir, "file1.go", Pkg1Dir, "file2.go");
    JoinInjective(Pkg1Dir, "file1.go", Pkg2Dir, "file3.go");
    JoinInjective(Pkg1Dir, "file1.go", Pkg2Dir, "file4_test.go");
    JoinInjective(Pkg1Dir, "file2.go", Pkg2Dir, "file3.go");
    JoinInjective(Pkg1Dir, "file2.go", Pkg2Dir, "file4_test.go");
    JoinInjective(Pkg2Dir, "file3.go", Pkg2Dir, "file4_test.go");
  }

  /** With the default options and the two listed files, the clean of the tree removes
      exactly the two unlisted files, and it is no dry run. */
  lemma TwoPackagesRemovable(c: Cleaner)
    requires c.sourceDir == SrcDir
    requires forall f :: f in c.filesToKeep <==> f in [File1, File4]
    requires Settings(c.protectGit, c.protectGoMod, c.keepTests, c.dryRun, c.runGoModTidy) == Configure([])
    ensures c.Removable({File1, File2, File3, File4}) == {File2, File3}
    ensures !c.dryRun
  {
    TwoPackagesDistinct();
    assert HasPrefix(File2, SrcDir + "/") && HasPrefix(File3, SrcDir + "/");
    OutsideGitAndTestdata(File2);
    OutsideGitAndTestdata(File3);
    RemovableOfFour(c, File1, Pkg1Dir, "file2.go", Pkg2Dir, "file3.go", File4);
  }

  lemma LeftAfterRemoval(left: set<string>, all: set<string>, removed: set<string>, k1: string, a: string, b: string, k2: string)
    requires all == {k1, a, b, k2} && removed == {a, b} && left == all - removed
    requires k1 != a && k1 != b && k2 != a && k2 != b
    ensures left == {k1, k2}
  {
  }

  /** Of two listed files and two unlisted ones that the defaults do not protect, the
      clean removes the unlisted ones. */
  lemma RemovableOfFour(c: Cleaner, k1: string, dirA: string, nameA: string, dirB: string, nameB: string, k2: string)
    requires c.protectGit && c.protectGoMod
    requires k1 in c.filesToKeep && k2 in c.filesToKeep
    requires dirA + "/" + nameA !in c.filesToKeep && dirB + "/" + nameB !in c.filesToKeep
    requires nameA != "" && '/' !in nameA && nameA != "go.mod" && nameA != "go.sum"
    requires !Contains(dirA + "/" + nameA, "/testdata/") && !Contains(dirA + "/" + nameA, "/.git/")
    requires nameB != "" && '/' !in nameB && nameB != "go.mod" && nameB != "go.sum"
    requires !Contains(dirB + "/" + nameB, "/testdata/") && !Contains(dirB + "/" + nameB, "/.git/")
    requires AtOrUnder(dirA + "/" + nameA, c.sourceDir) && AtOrUnder(dirB + "/" + nameB, c.sourceDir)
    ensures c.Removable({k1, dirA + "/" + nameA, dirB + "/" + nameB, k2}) == {dirA + "/" + nameA, dirB + "/" + nameB}
  {
    RemovedByDefault(c, dirA, nameA);
    RemovedByDefault(c, dirB, nameB);
  }

  /** After the two-package clean, both package directories stay, as each still holds
      a listed file, and so does the source directory. */
  lemma TwoPackagesDirsStay(files: set<string>, start: set<string>, dirs: set<string>)
    requires files == {File1, File4}
    requires start == {SrcDir, Pkg1Dir, Pkg2Dir} && dirs <= start
    requires EmptiedOnly(start, files, dirs)
    ensures dirs == start
  {
    JoinIsChild(Pkg1Dir, "file1.go");
    JoinIsChild(Pkg2Dir, "file4_test.go");
    JoinIsChild(SrcDir, "pkg1");
    assert HasChildIn(files + dirs, Pkg1Dir);
    assert HasChildIn(files + dirs, Pkg2Dir);
    assert HasChildIn(files + dirs, SrcDir);
  }

  /** The ancestors of `dir + "/" + name` are `dir` and its own ancestors. */
  lemma JoinedAncestors(dir: string, name: string, dirs: set<string>)
    requires dir in dirs && AncestorsIn(dir, dirs) && '/' !in name
    ensures AncestorsIn(dir + "/" + name, dirs)
  {
    var x := dir + "/" + name;
    forall i | 0 < i < |x| && x[i] == '/' ensures x[..i] in dirs {
      assert i <= |dir| by {
        assert forall j :: |dir| < j < |x| ==> x[j] == name[j - |dir| - 1];
      }
      if i < |dir| {
        assert x[..i] == dir[..i];
      } else {
        assert x[..i] == dir;
      }
    }
  }

  /** With the default protections, an unlisted file outside `.git` and `testdata`
      whose name is no manifest is removed. */
  lemma RemovedByDefault(c: Cleaner, dir: string, name: string)
    requires c.protectGit && c.protectGoMod
    requires dir + "/" + name !in c.filesToKeep
    requires name != "" && '/' !in name && name != "go.mod" && name != "go.sum"
    requires !Contains(dir + "/" + name, "/testdata/") && !Contains(dir + "/" + name, "/.git/")
    ensures !c.Keeps(dir + "/" + name)
  {
    BaseOfJoin(dir, name);
  }

  /** A path without the letter `t` lies neither in `.git` nor in `testdata`, as both
      names hold a `t`. This spares unfolding Contains over the literal paths of the
      two-package tree. */
  lemma OutsideGitAndTestdata(path: string)
    requires 't' !in path
    ensures !Contains(path, "/testdata/") && !Contains(path, "/.git/")
  {
    ContainsChars(path, "/.git/");
    ContainsChars(path, "/testdata/");
    assert 't' in "/.git/" && 't' in "/testdata/";
  }
}
