/** The virtual filesystem the cleaner works against (the `afero.Fs` capability): a set
    of file paths and a set of directory paths, plus the directories whose listing
    fails and the entries whose removal fails, which stand for the I/O errors of a real
    filesystem. */
module MemFs {
  import opened GoStrings

  // ---------------------------------------------------------------------------
  // Path algebra on `/`-separated paths

  /** `x` lies strictly below directory `d`. */
  predicate Under(x: string, d: string) {
    HasPrefix(x, d + "/")
  }

  predicate AtOrUnder(x: string, d: string) {
    x == d || Under(x, d)
  }

  /** `x` is an immediate entry of directory `d`. */
  predicate IsChildOf(x: string, d: string) {
    Under(x, d) && '/' !in x[|d| + 1..]
  }

  /** The immediate entry of `d` on the way down to `x`. */
  function FirstStep(d: string, x: string): (c: string)
    requires Under(x, d)
    ensures IsChildOf(c, d) && AtOrUnder(x, c)
    ensures c == x || (|c| < |x| && x[|c|] == '/' && c == x[..|c|])
  {
    var rel := x[|d| + 1..];
    var j := FirstIndex(rel, '/');
    var c := x[..|d| + 1 + j];
    assert c[|d| + 1..] == rel[..j];
    assert c[..|d| + 1] == x[..|d| + 1];
    if j == |rel| then
      assert c == x;
      c
    else
      assert x[|c|] == rel[j];
      assert x[..|c| + 1] == c + "/";
      c
  }

  /** The entry of `d` on the way to `x` is the only one: any entry of `d` at or above
      `x` is it. */
  lemma ChildIsFirstStep(d: string, c: string, x: string)
    requires IsChildOf(c, d) && AtOrUnder(x, c)
    ensures Under(x, d) && c == FirstStep(d, x)
  {
    AtOrUnderTrans(x, c, d);
    var rel := x[|d| + 1..];
    var name := c[|d| + 1..];
    assert c[..|d| + 1] == d + "/";
    assert x[..|c|] == c;
    assert rel[..|name|] == name;
    assert forall j :: 0 <= j < |name| ==> rel[j] != '/';
    var i := FirstIndex(rel, '/');
    if x == c {
      assert rel == name;
      assert i == |rel|;
    } else {
      assert x[|c|] == '/';
      assert rel[|name|] == '/';
      assert i == |name|;
    }
  }

  /** Two entries of the same directory at or above the same path are the same. */
  lemma ChildrenDisjoint(d: string, c1: string, c2: string, x: string)
    requires IsChildOf(c1, d) && IsChildOf(c2, d)
    requires AtOrUnder(x, c1) && AtOrUnder(x, c2)
    ensures c1 == c2
  {
    ChildIsFirstStep(d, c1, x);
    ChildIsFirstStep(d, c2, x);
  }

  /** Below is transitive. */
  lemma AtOrUnderTrans(x: string, c: string, d: string)
    requires AtOrUnder(x, c) && AtOrUnder(c, d)
    ensures AtOrUnder(x, d)
  {
    if Under(x, c) && Under(c, d) {
      assert x[..|c|] == c;
      assert x[..|d| + 1] == c[..|d| + 1];
    }
  }

  /** A path below an entry of `d` is below `d`, strictly. */
  lemma BelowChild(x: string, c: string, d: string)
    requires AtOrUnder(x, c) && IsChildOf(c, d)
    ensures Under(x, d)
  {
    AtOrUnderTrans(x, c, d);
  }

  /** The entry `d/name` of `d`, for a name without `/`. */
  lemma JoinIsChild(d: string, name: string)
    requires '/' !in name
    ensures IsChildOf(d + "/" + name, d)
  {
    var x := d + "/" + name;
    assert x[..|d| + 1] == d + "/";
    assert x[|d| + 1..] == name;
  }

  /** The name of an entry of `d`, joined back onto `d`, is the entry. */
  lemma ChildName(x: string, d: string)
    requires IsChildOf(x, d)
    ensures d + "/" + x[|d| + 1..] == x
  {
    assert x[..|d| + 1] == d + "/";
  }

  /** Every `/` inside `x` (other than a leading one) ends a directory that is present. */
  ghost predicate AncestorsIn(x: string, dirs: set<string>) {
    forall i :: 0 < i < |x| && x[i] == '/' ==> x[..i] in dirs
  }

  /** The directories of `dirs` at or below `p`. */
  function DirsAtOrUnder(dirs: set<string>, p: string): (r: set<string>)
    ensures r <= dirs
    ensures forall x :: x in r <==> x in dirs && AtOrUnder(x, p)
  {
    set x | x in dirs && AtOrUnder(x, p)
  }

  datatype DirEntry = DirEntry(name: string, isDir: bool)

  /** `entries` names every immediate entry of `d` among `present` once, and says which
      are among `dirs`. */
  ghost predicate EntriesOf(entries: seq<DirEntry>, d: string, present: set<string>, dirs: set<string>) {
    && (forall k :: 0 <= k < |entries| ==>
          var x := d + "/" + entries[k].name;
          '/' !in entries[k].name && x in present && (entries[k].isDir <==> x in dirs))
    && (forall x :: x in present && IsChildOf(x, d) ==> exists k :: 0 <= k < |entries| && d + "/" + entries[k].name == x)
    && forall a, b :: 0 <= a < b < |entries| ==> entries[a].name != entries[b].name
  }

  datatype FsError = NotExist | PermissionDenied | DirNotEmpty

  datatype Result<T> = Ok(value: T) | Err(error: FsError)

  datatype Status = Done | Failed(error: FsError)

  class FileSystem {
    var files: set<string>
    var dirs: set<string>
    /** Directories whose listing fails. */
    const unreadable: set<string>
    /** Entries whose removal fails. */
    const locked: set<string>

    /** A path is a file or a directory, never both, and the directories above every
        entry exist. */
    ghost predicate Valid()
      reads this
    {
      && files !! dirs
      && forall x :: x in files + dirs ==> AncestorsIn(x, dirs)
    }

    constructor (files: set<string>, dirs: set<string>, unreadable: set<string>, locked: set<string>)
      ensures this.files == files && this.dirs == dirs
      ensures this.unreadable == unreadable && this.locked == locked
    {
      this.files := files;
      this.dirs := dirs;
      this.unreadable := unreadable;
      this.locked := locked;
    }

    /** The immediate entries of `d`. */
    function ChildrenOf(d: string): (r: set<string>)
      reads this
      ensures forall x :: x in r <==> x in files + dirs && IsChildOf(x, d)
    {
      set x | x in files + dirs && IsChildOf(x, d)
    }

    /** The files at or below `root`. */
    function FilesAtOrUnder(root: string): (r: set<string>)
      reads this
      ensures forall x :: x in r <==> x in files && AtOrUnder(x, root)
    {
      set x | x in files && AtOrUnder(x, root)
    }

    /** `entries` names every immediate entry of `d` once, and says which are directories. */
    ghost predicate ListsChildren(entries: seq<DirEntry>, d: string)
      reads this
    {
      EntriesOf(entries, d, files + dirs, dirs)
    }

    /** A walk of `root` stops with an error when `root` is missing or when it reaches a
        directory it cannot list. */
    ghost predicate WalkFails(root: string)
      reads this
    {
      || root !in files + dirs
      || exists d :: d in dirs && AtOrUnder(d, root) && d in unreadable
    }

    /** afero.ReadDir: the entries of a listable directory. */
    method ReadDir(d: string) returns (r: Result<seq<DirEntry>>)
      ensures d !in dirs ==> r == Err(NotExist)
      ensures d in dirs && d in unreadable ==> r == Err(PermissionDenied)
      ensures d in dirs && d !in unreadable ==> r.Ok? && ListsChildren(r.value, d)
    {
      if d !in dirs {
        return Err(NotExist);
      }
      if d in unreadable {
        return Err(PermissionDenied);
      }
      var rest := ChildrenOf(d);
      var entries: seq<DirEntry> := [];
      ghost var listed: seq<string> := [];
      while rest != {}
        invariant rest <= ChildrenOf(d)
        invariant |listed| == |entries|
        invariant forall k :: 0 <= k < |entries| ==> listed[k] == d + "/" + entries[k].name
        invariant forall k :: 0 <= k < |entries| ==>
          '/' !in entries[k].name && listed[k] in ChildrenOf(d) - rest && (entries[k].isDir <==> listed[k] in dirs)
        invariant forall x :: x in ChildrenOf(d) - rest ==> x in listed
        invariant forall a, b :: 0 <= a < b < |entries| ==> listed[a] != listed[b]
        decreases rest
      {
        var x :| x in rest;
        assert forall k :: 0 <= k < |listed| ==> listed[k] != x;
        ChildName(x, d);
        entries := entries + [DirEntry(x[|d| + 1..], x in dirs)];
        listed := listed + [x];
        rest := rest - {x};
      }
      forall x | x in files + dirs && IsChildOf(x, d) ensures exists k :: 0 <= k < |entries| && d + "/" + entries[k].name == x {
        assert x in ChildrenOf(d) - rest;
        assert x in listed;
        var k :| 0 <= k < |listed| && listed[k] == x;
      }
      return Ok(entries);
    }

    /** Remove: a file, or a directory without entries, unless its removal fails. */
    method Remove(p: string) returns (r: Status)
      modifies this
      ensures p !in old(files + dirs) ==> r == Failed(NotExist)
      ensures p in old(files + dirs) && p in locked ==> r == Failed(PermissionDenied)
      ensures p in old(dirs) - locked && old(ChildrenOf(p)) != {} ==> r == Failed(DirNotEmpty)
      ensures r.Failed? ==> files == old(files) && dirs == old(dirs)
      ensures r.Done? <==> p in old(files + dirs) && p !in locked && (p in old(dirs) ==> old(ChildrenOf(p)) == {})
      ensures r.Done? ==> files == old(files) - {p} && dirs == old(dirs) - {p}
    {
      if p !in files + dirs {
        return Failed(NotExist);
      }
      if p in locked {
        return Failed(PermissionDenied);
      }
      if p in dirs && ChildrenOf(p) != {} {
        return Failed(DirNotEmpty);
      }
      files := files - {p};
      dirs := dirs - {p};
      return Done;
    }

    /** afero.Walk, as the cleaner uses it: every file at or below `root`, once each,
        unless the walk stops with an error. */
    method Walk(root: string) returns (r: Result<seq<string>>)
      ensures r.Err? <==> WalkFails(root)
      ensures r.Ok? ==> Enumerates(r.value, FilesAtOrUnder(root))
    {
      if root !in files + dirs {
        return Err(NotExist);
      }
      var blocked := set d | d in dirs && AtOrUnder(d, root) && d in unreadable;
      if blocked != {} {
        return Err(PermissionDenied);
      }
      var rest := FilesAtOrUnder(root);
      var walked: seq<string> := [];
      while rest != {}
        invariant rest <= FilesAtOrUnder(root)
        invariant forall x :: x in walked <==> x in FilesAtOrUnder(root) - rest
        invariant forall a, b :: 0 <= a < b < |walked| ==> walked[a] != walked[b]
        decreases rest
      {
        var x :| x in rest;
        assert x !in walked;
        walked := walked + [x];
        rest := rest - {x};
      }
      return Ok(walked);
    }
  }

  // ---------------------------------------------------------------------------
  // Lemmas

  /** In a valid filesystem the entry of `d` on the way to a present entry is a
      directory when it is not the entry itself. */
  lemma FirstStepPresent(fs: FileSystem, d: string, x: string)
    requires fs.Valid() && x in fs.files + fs.dirs && Under(x, d)
    ensures FirstStep(d, x) in fs.files + fs.dirs
    ensures FirstStep(d, x) != x ==> FirstStep(d, x) in fs.dirs
  {
    var c := FirstStep(d, x);
    if c != x {
      assert AncestorsIn(x, fs.dirs);
      assert x[|c|] == '/' && 0 < |c|;
    }
  }

  /** A directory with a present entry below it has an immediate entry. */
  lemma UnderImpliesChild(fs: FileSystem, d: string, x: string)
    requires fs.Valid() && x in fs.files + fs.dirs && Under(x, d)
    ensures FirstStep(d, x) in fs.ChildrenOf(d)
  {
    FirstStepPresent(fs, d, x);
  }

  /** Removing a file, or a directory without entries, keeps the filesystem valid. */
  lemma RemovalKeepsValid(files: set<string>, dirs: set<string>, fs: FileSystem, p: string)
    requires fs.Valid() && files == fs.files && dirs == fs.dirs
    requires p in dirs ==> fs.ChildrenOf(p) == {}
    ensures var files', dirs' := files - {p}, dirs - {p};
      files' !! dirs' && forall x :: x in files' + dirs' ==> AncestorsIn(x, dirs')
  {
    var files', dirs' := files - {p}, dirs - {p};
    forall x | x in files' + dirs' ensures AncestorsIn(x, dirs') {
      forall i | 0 < i < |x| && x[i] == '/' ensures x[..i] in dirs' {
        assert AncestorsIn(x, dirs);
        var a := x[..i];
        assert x[..|a| + 1] == a + "/";
        UnderImpliesChild(fs, a, x);
      }
    }
  }
}
