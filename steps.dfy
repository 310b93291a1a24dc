/** The loops that `pkg/pkglist` and the inline copy in `main.go` share: selecting the
    packages some pattern matches under a given matching rule, growing a keep set to its
    dependency closure with a worklist, and appending the joined paths of one file
    class. Each is proved against the definitions of `GoPackages`. */
module PackageSteps {
  import opened GoStrings
  import opened GoPackages

  /** The keep set: a Go map from import path to an empty value, owned by the caller and
      grown in place by the closure. */
  class KeepSet {
    var members: set<string>

    constructor (members: set<string>)
      ensures this.members == members
    {
      this.members := members;
    }
  }

  /** For each pattern, every package (in map order) whose record the rule matches adds
      its import path. */
  method SelectMatching(matches: (string, string, string) -> bool, packages: map<string, Package>,
                        patterns: seq<string>) returns (keep: set<string>)
    ensures forall x :: x in keep <==> Selected(matches, packages, patterns, x)
  {
    keep := {};
    for i := 0 to |patterns|
      invariant forall x :: x in keep <==> Selected(matches, packages, patterns[..i], x)
    {
      var pattern := patterns[i];
      var rest := packages.Keys;
      ghost var before := keep;
      while rest != {}
        invariant rest <= packages.Keys
        invariant forall x :: x in keep <==>
          x in before || exists k :: k in packages.Keys - rest && matches(pattern, packages[k].importPath, packages[k].dir) && packages[k].importPath == x
        decreases rest
      {
        var k :| k in rest;
        var pkg := packages[k];
        if matches(pattern, pkg.importPath, pkg.dir) {
          keep := keep + {pkg.importPath};
        }
        rest := rest - {k};
      }
      SelectedStep(matches, packages, patterns, i, keep, before);
    }
    assert patterns[..|patterns|] == patterns;
  }

  /** The worklist closure: queue the initial members, then for each queued package of
      the repository keep and queue each in-repo dependency not yet kept. */
  method CloseOverDeps(packages: map<string, Package>, keep: KeepSet)
    modifies keep
    ensures IsClosureOf(packages, old(keep.members), keep.members)
  {
    ghost var init := keep.members;
    var toProcess := SeqOfSet(keep.members);
    var i := 0;
    while i < |toProcess|
      invariant 0 <= i <= |toProcess|
      invariant Enumerates(toProcess, keep.members)
      invariant init <= keep.members && keep.members - init <= packages.Keys
      invariant forall j :: 0 <= j < i ==> DepsCovered(packages, toProcess[j], keep.members)
      invariant BelowClosedSupersets(packages, init, keep.members)
      decreases packages.Keys - keep.members, |toProcess| - i
    {
      var pkg := toProcess[i];
      ghost var keep0, process0 := keep.members, toProcess;
      if pkg in packages {
        toProcess := VisitDeps(packages, keep, pkg, toProcess, init);
      }
      forall j | 0 <= j < i ensures DepsCovered(packages, toProcess[j], keep.members) {
        assert toProcess[j] == process0[j];
        assert DepsCovered(packages, process0[j], keep0);
      }
      if keep.members != keep0 {
        assert keep.members == keep0 + (keep.members - keep0);
        var x :| x in keep.members - keep0;
        assert x in packages.Keys - keep0 && x !in packages.Keys - keep.members;
      }
      i := i + 1;
    }
  }

  /** The inner loop of the closure for one package of the repository. */
  method VisitDeps(packages: map<string, Package>, keep: KeepSet, pkg: string, toProcess: seq<string>,
                   ghost init: set<string>) returns (queue: seq<string>)
    requires pkg in packages && pkg in keep.members
    requires Enumerates(toProcess, keep.members)
    requires BelowClosedSupersets(packages, init, keep.members)
    modifies keep
    ensures Enumerates(queue, keep.members)
    ensures |toProcess| <= |queue| && queue[..|toProcess|] == toProcess
    ensures old(keep.members) <= keep.members && keep.members - old(keep.members) <= packages.Keys
    ensures keep.members == old(keep.members) ==> queue == toProcess
    ensures DepsCovered(packages, pkg, keep.members)
    ensures BelowClosedSupersets(packages, init, keep.members)
  {
    queue := toProcess;
    var deps := packages[pkg].deps;
    for j := 0 to |deps|
      invariant Enumerates(queue, keep.members)
      invariant |toProcess| <= |queue| && queue[..|toProcess|] == toProcess
      invariant old(keep.members) <= keep.members && keep.members - old(keep.members) <= packages.Keys
      invariant keep.members == old(keep.members) ==> queue == toProcess
      invariant forall k :: 0 <= k < j && deps[k] in packages ==> deps[k] in keep.members
      invariant BelowClosedSupersets(packages, init, keep.members)
    {
      var dep := deps[j];
      if dep !in keep.members && dep in packages {
        forall s | init <= s && Closed(packages, s) ensures keep.members + {dep} <= s {
          assert DepsCovered(packages, pkg, s);
        }
        keep.members := keep.members + {dep};
        queue := queue + [dep];
      }
    }
  }

  /** One of the projection's loops: append the absolute path of each name. */
  method AppendJoined(files: seq<string>, dir: string, names: seq<string>) returns (allFiles: seq<string>)
    ensures allFiles == files + Joined(dir, names)
  {
    allFiles := files;
    for i := 0 to |names|
      invariant allFiles == files + Joined(dir, names[..i])
    {
      assert Joined(dir, names[..i + 1]) == Joined(dir, names[..i]) + [JoinPath(dir, names[i])];
      allFiles := allFiles + [JoinPath(dir, names[i])];
    }
    assert names[..|names|] == names;
  }

  /** The other-files loop without tests: skip paths under a `testdata` directory. */
  method AppendOutsideTestdata(files: seq<string>, dir: string, names: seq<string>) returns (allFiles: seq<string>)
    ensures allFiles == files + WithoutTestdata(Joined(dir, names))
  {
    allFiles := files;
    for i := 0 to |names|
      invariant allFiles == files + WithoutTestdata(Joined(dir, names[..i]))
    {
      var absPath := JoinPath(dir, names[i]);
      var joined := Joined(dir, names[..i + 1]);
      assert joined[..i] == Joined(dir, names[..i]) && joined[i] == absPath;
      if !Contains(absPath, "/testdata/") {
        allFiles := allFiles + [absPath];
      }
    }
    assert names[..|names|] == names;
  }

  /** `k` lies inside every closed superset of `init`. */
  ghost predicate BelowClosedSupersets(packages: map<string, Package>, init: set<string>, k: set<string>) {
    forall s :: init <= s && Closed(packages, s) ==> k <= s
  }

  /** The members of a set, each once, in some order (Go's map iteration order is
      unspecified). */
  method SeqOfSet(s: set<string>) returns (q: seq<string>)
    ensures Enumerates(q, s)
  {
    q := [];
    var rest := s;
    while rest != {}
      invariant rest <= s
      invariant forall x :: x in q <==> x in s - rest
      invariant forall a, b :: 0 <= a < b < |q| ==> q[a] != q[b]
      decreases rest
    {
      var x :| x in rest;
      assert x !in q;
      q := q + [x];
      rest := rest - {x};
    }
  }

  /** Adding the matches of pattern `i` to the selection of the patterns before it gives
      the selection of the patterns up to and including it. */
  lemma SelectedStep(matches: (string, string, string) -> bool, packages: map<string, Package>,
                     patterns: seq<string>, i: int, keep: set<string>, before: set<string>)
    requires 0 <= i < |patterns|
    requires forall x :: x in before <==> Selected(matches, packages, patterns[..i], x)
    requires forall x :: x in keep <==>
      x in before || exists k :: k in packages.Keys && matches(patterns[i], packages[k].importPath, packages[k].dir) && packages[k].importPath == x
    ensures forall x :: x in keep <==> Selected(matches, packages, patterns[..i + 1], x)
  {
    var next := patterns[..i + 1];
    assert next[..i] == patterns[..i] && next[i] == patterns[i];
    forall x ensures x in keep <==> Selected(matches, packages, next, x) {
      if x in keep {
        if x in before {
          var k :| MatchedBy(matches, packages, patterns[..i], k) && packages[k].importPath == x;
          var j :| 0 <= j < i && matches(patterns[..i][j], packages[k].importPath, packages[k].dir);
          assert next[j] == patterns[..i][j];
          assert MatchedBy(matches, packages, next, k);
        } else {
          var k :| k in packages.Keys && matches(patterns[i], packages[k].importPath, packages[k].dir) && packages[k].importPath == x;
          assert MatchedBy(matches, packages, next, k);
        }
      }
      if Selected(matches, packages, next, x) {
        var k :| MatchedBy(matches, packages, next, k) && packages[k].importPath == x;
        var j :| 0 <= j < i + 1 && matches(next[j], packages[k].importPath, packages[k].dir);
        if j < i {
          assert patterns[..i][j] == next[j];
          assert MatchedBy(matches, packages, patterns[..i], k);
        }
      }
    }
  }
}
