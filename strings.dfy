/** The few functions of Go's `strings` and `path/filepath` packages that the pruning
    tool relies on, over `string` (a `seq<char>`). Paths are taken to be clean and
    `/`-separated, so `filepath.ToSlash` is the identity and `filepath.Join(dir, f)`
    is `dir + "/" + f`. */
module GoStrings {

  /** `sub` occurs in `s` at index `i`. */
  ghost predicate OccursAt(s: string, sub: string, i: int) {
    0 <= i && i + |sub| <= |s| && s[i..i + |sub|] == sub
  }

  /** strings.HasPrefix */
  predicate HasPrefix(s: string, prefix: string) {
    |prefix| <= |s| && s[..|prefix|] == prefix
  }

  /** strings.HasSuffix */
  predicate HasSuffix(s: string, suffix: string) {
    |suffix| <= |s| && s[|s| - |suffix|..] == suffix
  }

  /** strings.Contains, scanning from the left. */
  predicate Contains(s: string, sub: string)
    decreases |s|
  {
    HasPrefix(s, sub) || (|s| > 0 && Contains(s[1..], sub))
  }

  /** strings.TrimPrefix */
  function TrimPrefix(s: string, prefix: string): (r: string)
    ensures HasPrefix(s, prefix) ==> s == prefix + r
    ensures !HasPrefix(s, prefix) ==> r == s
  {
    if HasPrefix(s, prefix) then s[|prefix|..] else s
  }

  /** strings.TrimSuffix */
  function TrimSuffix(s: string, suffix: string): (r: string)
    ensures HasSuffix(s, suffix) ==> s == r + suffix
    ensures !HasSuffix(s, suffix) ==> r == s
  {
    if HasSuffix(s, suffix) then s[..|s| - |suffix|] else s
  }

  /** The index of the first `c` in `s`, or `|s|` when there is none. */
  function FirstIndex(s: string, c: char): (i: nat)
    ensures i <= |s|
    ensures i < |s| ==> s[i] == c
    ensures forall j :: 0 <= j < i ==> s[j] != c
  {
    if |s| == 0 then 0
    else if s[0] == c then 0
    else 1 + FirstIndex(s[1..], c)
  }

  /** strings.Join */
  function Join(parts: seq<string>, sep: char): string
  {
    if |parts| == 0 then ""
    else if |parts| == 1 then parts[0]
    else parts[0] + [sep] + Join(parts[1..], sep)
  }

  /** strings.Split with a one-character separator: never empty, and no piece holds
      the separator (JoinSplit below: joining the pieces gives back the input). */
  function Split(s: string, sep: char): (parts: seq<string>)
    ensures |parts| >= 1
    ensures forall k :: 0 <= k < |parts| ==> sep !in parts[k]
    decreases |s|
  {
    var i := FirstIndex(s, sep);
    if i == |s| then [s] else [s[..i]] + Split(s[i + 1..], sep)
  }

  /** The last `/`-separated segment of a path. */
  function LastSegment(s: string): string
  {
    var parts := Split(s, '/');
    parts[|parts| - 1]
  }

  /** unicode.IsSpace: the Latin-1 spaces and the other Unicode White_Space characters. */
  predicate IsSpace(c: char) {
    c == '\t' || c == '\n' || c == '\U{000B}' || c == '\U{000C}' || c == '\r' || c == ' '
    || c == '\U{0085}' || c == '\U{00A0}' || c == '\U{1680}'
    || ('\U{2000}' <= c <= '\U{200A}') || c == '\U{2028}' || c == '\U{2029}'
    || c == '\U{202F}' || c == '\U{205F}' || c == '\U{3000}'
  }

  function TrimLeftSpace(s: string): string
    decreases |s|
  {
    if |s| > 0 && IsSpace(s[0]) then TrimLeftSpace(s[1..]) else s
  }

  function TrimRightSpace(s: string): string
    decreases |s|
  {
    if |s| > 0 && IsSpace(s[|s| - 1]) then TrimRightSpace(s[..|s| - 1]) else s
  }

  /** strings.TrimSpace */
  function TrimSpace(s: string): string
  {
    TrimRightSpace(TrimLeftSpace(s))
  }

  function TrimTrailingSlashes(s: string): string
    decreases |s|
  {
    if |s| > 0 && s[|s| - 1] == '/' then TrimTrailingSlashes(s[..|s| - 1]) else s
  }

  /** filepath.Base on a `/`-separated path: trailing slashes are dropped, then the
      last element is returned; "" gives "." and a path of slashes gives "/". */
  function Base(path: string): string
  {
    if path == "" then "."
    else
      var trimmed := TrimTrailingSlashes(path);
      if trimmed == "" then "/" else LastSegment(trimmed)
  }

  // ---------------------------------------------------------------------------
  // Lemmas

  /** Every occurrence is found by Contains. */
  lemma {:induction false} OccursImpliesContains(s: string, sub: string, i: int)
    requires OccursAt(s, sub, i)
    ensures Contains(s, sub)
    decreases i
  {
    if i > 0 {
      assert s[1..][i - 1..i - 1 + |sub|] == s[i..i + |sub|];
      OccursImpliesContains(s[1..], sub, i - 1);
    }
  }

  /** What Contains finds is an occurrence. */
  lemma {:induction false} ContainsImpliesOccurs(s: string, sub: string)
    requires Contains(s, sub)
    ensures exists i :: OccursAt(s, sub, i)
    decreases |s|
  {
    if HasPrefix(s, sub) {
      assert OccursAt(s, sub, 0);
    } else {
      ContainsImpliesOccurs(s[1..], sub);
      var i :| OccursAt(s[1..], sub, i);
      assert s[1..][i..i + |sub|] == s[i + 1..i + 1 + |sub|];
      assert OccursAt(s, sub, i + 1);
    }
  }

  /** Contains means some occurrence exists, and conversely. */
  lemma ContainsIff(s: string, sub: string)
    ensures Contains(s, sub) <==> exists i :: OccursAt(s, sub, i)
  {
    if Contains(s, sub) {
      ContainsImpliesOccurs(s, sub);
    }
    forall i | OccursAt(s, sub, i) ensures Contains(s, sub) {
      OccursImpliesContains(s, sub, i);
    }
  }

  /** An occurrence at a known index is found by Contains. */
  lemma ContainsAt(s: string, sub: string, i: int)
    requires OccursAt(s, sub, i)
    ensures Contains(s, sub)
  {
    OccursImpliesContains(s, sub, i);
  }

  /** A string placed between two others is contained in the result. */
  lemma ContainsInfix(a: string, sub: string, b: string)
    ensures Contains(a + sub + b, sub)
  {
    assert (a + sub + b)[|a|..|a| + |sub|] == sub;
    ContainsAt(a + sub + b, sub, |a|);
  }

  /** An occurrence in a suffix is an occurrence in the whole. */
  lemma ContainsInSuffix(a: string, b: string, sub: string)
    requires Contains(b, sub)
    ensures Contains(a + b, sub)
  {
    ContainsImpliesOccurs(b, sub);
    var i :| OccursAt(b, sub, i);
    assert (a + b)[|a| + i..|a| + i + |sub|] == b[i..i + |sub|];
    ContainsAt(a + b, sub, |a| + i);
  }

  /** Every character of a contained string occurs in the containing one. */
  lemma {:induction false} ContainsChars(s: string, sub: string)
    ensures Contains(s, sub) ==> forall c :: c in sub ==> c in s
    decreases |s|
  {
    if HasPrefix(s, sub) {
      assert forall c :: c in sub ==> c in s[..|sub|];
    }
    if |s| > 0 {
      ContainsChars(s[1..], sub);
      assert forall c :: c in s[1..] ==> c in s;
    }
  }

  /** Joining the pieces of a split gives back the input. */
  lemma {:induction false} JoinSplit(s: string, sep: char)
    ensures Join(Split(s, sep), sep) == s
    decreases |s|
  {
    var i := FirstIndex(s, sep);
    if i < |s| {
      var rest := Split(s[i + 1..], sep);
      JoinSplit(s[i + 1..], sep);
      assert Split(s, sep) == [s[..i]] + rest;
      assert ([s[..i]] + rest)[1..] == rest;
      assert s == s[..i] + [sep] + s[i + 1..];
    }
  }

  /** Splitting text that was joined from separator-free pieces gives back the pieces. */
  lemma {:induction false} SplitJoin(parts: seq<string>, sep: char)
    requires |parts| >= 1
    requires forall k :: 0 <= k < |parts| ==> sep !in parts[k]
    ensures Split(Join(parts, sep), sep) == parts
    decreases |parts|
  {
    if |parts| == 1 {
      assert FirstIndex(parts[0], sep) == |parts[0]|;
    } else {
      var s := Join(parts, sep);
      var tail := Join(parts[1..], sep);
      assert s == parts[0] + [sep] + tail;
      assert s[|parts[0]|] == sep;
      assert forall j :: 0 <= j < |parts[0]| ==> s[j] == parts[0][j];
      assert FirstIndex(s, sep) == |parts[0]|;
      assert s[..|parts[0]|] == parts[0];
      assert s[|parts[0]| + 1..] == tail;
      SplitJoin(parts[1..], sep);
    }
  }

  /** A character other than the separator appended to the text extends the last piece
      and leaves the others as they are. */
  lemma {:induction false} SplitSnoc(s: string, sep: char, c: char)
    requires c != sep
    ensures var parts := Split(s, sep);
      Split(s + [c], sep) == parts[..|parts| - 1] + [parts[|parts| - 1] + [c]]
    decreases |s|
  {
    var t := s + [c];
    var i := FirstIndex(s, sep);
    assert forall j :: 0 <= j < |s| ==> t[j] == s[j];
    if i == |s| {
      assert FirstIndex(t, sep) == |t|;
    } else {
      assert FirstIndex(t, sep) == i;
      assert t[..i] == s[..i];
      assert t[i + 1..] == s[i + 1..] + [c];
      SplitSnoc(s[i + 1..], sep, c);
      var rest := Split(s[i + 1..], sep);
      var parts := [s[..i]] + rest;
      assert Split(s, sep) == parts;
      assert parts[..|parts| - 1] == [s[..i]] + rest[..|rest| - 1];
    }
  }

  /** Joining after extending the last piece extends the joined text. */
  lemma {:induction false} JoinSnoc(parts: seq<string>, sep: char, c: char)
    requires |parts| >= 1
    ensures Join(parts[..|parts| - 1] + [parts[|parts| - 1] + [c]], sep) == Join(parts, sep) + [c]
    decreases |parts|
  {
    if |parts| > 1 {
      var q := parts[..|parts| - 1] + [parts[|parts| - 1] + [c]];
      var tail := parts[1..];
      assert q[1..] == tail[..|tail| - 1] + [tail[|tail| - 1] + [c]];
      JoinSnoc(tail, sep, c);
      assert q[0] == parts[0];
    }
  }

  /** A separator-free piece is split into itself. */
  lemma SplitPiece(n: string, sep: char)
    requires sep !in n
    ensures Split(n, sep) == [n]
  {
    assert FirstIndex(n, sep) == |n|;
  }

  /** Splitting a separator-free piece followed by the separator and more text gives
      the piece, then the split of the rest. */
  lemma SplitCons(n: string, sep: char, rest: string)
    requires sep !in n
    ensures Split(n + [sep] + rest, sep) == [n] + Split(rest, sep)
  {
    var s := n + [sep] + rest;
    assert s[|n|] == sep;
    assert forall j :: 0 <= j < |n| ==> s[j] == n[j];
    assert FirstIndex(s, sep) == |n|;
    assert s[..|n|] == n;
    assert s[|n| + 1..] == rest;
  }

  /** The last piece of a split is a suffix of the input, preceded by the separator
      unless it is the whole input. */
  lemma {:induction false} SplitLast(s: string, sep: char)
    ensures var parts := Split(s, sep);
      |parts| == 1 ==> parts[0] == s
    ensures var parts := Split(s, sep);
      |parts| > 1 ==> HasSuffix(s, [sep] + parts[|parts| - 1])
    decreases |s|
  {
    var i := FirstIndex(s, sep);
    if i < |s| {
      var rest := s[i + 1..];
      SplitLast(rest, sep);
      var tailParts := Split(rest, sep);
      var last := tailParts[|tailParts| - 1];
      assert Split(s, sep) == [s[..i]] + tailParts;
      if |tailParts| == 1 {
        assert last == rest;
        assert s[|s| - |[sep] + last|..] == [sep] + last;
      } else {
        assert rest[|rest| - |[sep] + last|..] == [sep] + last;
        assert s[|s| - |[sep] + last|..] == rest[|rest| - |[sep] + last|..];
      }
    }
  }

  /** A separator-free piece after the last separator is the last piece of the split. */
  lemma {:induction false} SplitLastOfJoin(a: string, sep: char, p: string)
    requires sep !in p
    ensures var parts := Split(a + [sep] + p, sep); parts[|parts| - 1] == p
    decreases |a|
  {
    var j := FirstIndex(a, sep);
    if j == |a| {
      SplitCons(a, sep, p);
      SplitPiece(p, sep);
      assert Split(a + [sep] + p, sep) == [a, p];
    } else {
      var a0, a1 := a[..j], a[j + 1..];
      assert a + [sep] + p == a0 + [sep] + (a1 + [sep] + p) by {
        assert a == a0 + [sep] + a1;
      }
      SplitCons(a0, sep, a1 + [sep] + p);
      SplitLastOfJoin(a1, sep, p);
      var rest := Split(a1 + [sep] + p, sep);
      assert Split(a + [sep] + p, sep) == [a0] + rest;
      assert ([a0] + rest)[|rest|] == rest[|rest| - 1];
    }
  }

  /** A separator-free suffix after the separator is the last piece of the split. */
  lemma SplitLastOfSuffix(s: string, sep: char, p: string)
    requires sep !in p
    requires HasSuffix(s, [sep] + p)
    ensures var parts := Split(s, sep); parts[|parts| - 1] == p
  {
    var n := |s| - |p| - 1;
    assert s == s[..n] + [sep] + p by { assert s[n..] == [sep] + p; }
    SplitLastOfJoin(s[..n], sep, p);
  }

  /** The last segment of a path either is the whole path or follows its last `/`. */
  lemma LastSegmentIsSuffix(s: string)
    ensures '/' !in LastSegment(s)
    ensures s == LastSegment(s) || HasSuffix(s, "/" + LastSegment(s))
  {
    SplitLast(s, '/');
  }

  lemma {:induction false} TrimTrailingSlashesNoSlash(s: string)
    requires |s| > 0 && s[|s| - 1] != '/'
    ensures TrimTrailingSlashes(s) == s
  {
  }

  /** The base name of `dir/name` is `name`, for a non-empty name without `/`. */
  lemma BaseOfJoin(dir: string, name: string)
    requires name != "" && '/' !in name
    ensures Base(dir + "/" + name) == name
  {
    var path := dir + "/" + name;
    assert path[|path| - 1] == name[|name| - 1];
    TrimTrailingSlashesNoSlash(path);
    assert path[|path| - |"/" + name|..] == "/" + name;
    SplitLastOfSuffix(path, '/', name);
  }

  /** A path joined from a directory and a separator-free name determines both. */
  lemma JoinInjective(dir1: string, name1: string, dir2: string, name2: string)
    requires name1 != "" && '/' !in name1 && name2 != "" && '/' !in name2
    ensures dir1 + "/" + name1 == dir2 + "/" + name2 ==> dir1 == dir2 && name1 == name2
  {
    BaseOfJoin(dir1, name1);
    BaseOfJoin(dir2, name2);
    if dir1 + "/" + name1 == dir2 + "/" + name2 {
      var x := dir1 + "/" + name1;
      assert x[..|dir1|] == dir1;
      assert x[..|dir2|] == dir2;
    }
  }

  lemma {:induction false} TrimLeftSpaceShape(s: string)
    ensures var r := TrimLeftSpace(s);
      HasSuffix(s, r) && (r == "" || !IsSpace(r[0]))
      && forall j :: 0 <= j < |s| - |r| ==> IsSpace(s[j])
    decreases |s|
  {
    if |s| > 0 && IsSpace(s[0]) {
      TrimLeftSpaceShape(s[1..]);
      var r := TrimLeftSpace(s);
      assert s[1..][|s| - 1 - |r|..] == s[|s| - |r|..];
    }
  }

  lemma {:induction false} TrimRightSpaceShape(s: string)
    ensures var r := TrimRightSpace(s);
      HasPrefix(s, r) && (r == "" || !IsSpace(r[|r| - 1]))
      && (r != "" && !IsSpace(r[0]) ==> !IsSpace(s[0]))
      && forall j :: |r| <= j < |s| ==> IsSpace(s[j])
    decreases |s|
  {
    if |s| > 0 && IsSpace(s[|s| - 1]) {
      TrimRightSpaceShape(s[..|s| - 1]);
      var r := TrimRightSpace(s);
      assert s[..|s| - 1][..|r|] == s[..|r|];
    }
  }

  /** `r` sits in `s` at index `i` with nothing but white space around it. */
  ghost predicate PaddedBySpace(s: string, r: string, i: int) {
    && OccursAt(s, r, i)
    && (forall j :: 0 <= j < i ==> IsSpace(s[j]))
    && (forall j :: i + |r| <= j < |s| ==> IsSpace(s[j]))
  }

  /** TrimSpace cuts a run of white space off each end and nothing else: the result
      sits inside the input with only white space around it, and neither of its ends
      is white space. */
  lemma TrimSpaceShape(s: string)
    ensures var r := TrimSpace(s);
      r == "" || (!IsSpace(r[0]) && !IsSpace(r[|r| - 1]))
    ensures exists i :: PaddedBySpace(s, TrimSpace(s), i)
  {
    var l := TrimLeftSpace(s);
    var r := TrimSpace(s);
    TrimLeftSpaceShape(s);
    TrimRightSpaceShape(l);
    var i := |s| - |l|;
    assert s[i..] == l;
    assert s[i..i + |r|] == l[..|r|];
    forall j | i + |r| <= j < |s| ensures IsSpace(s[j]) {
      assert s[j] == l[j - i];
    }
    assert PaddedBySpace(s, r, i);
  }

  /** The converse of `TrimSpaceShape`: white space around a core whose ends are not
      white space is exactly what TrimSpace removes. */
  lemma TrimSpaceOfPadded(lead: string, core: string, trail: string)
    requires forall c :: c in lead ==> IsSpace(c)
    requires forall c :: c in trail ==> IsSpace(c)
    requires core != "" && !IsSpace(core[0]) && !IsSpace(core[|core| - 1])
    ensures TrimSpace(lead + core + trail) == core
  {
    TrimLeftSpaceOfPadded(lead, core + trail);
    assert lead + core + trail == lead + (core + trail);
    TrimRightSpaceOfPadded(core, trail);
  }

  lemma {:induction false} TrimLeftSpaceOfPadded(lead: string, s: string)
    requires forall c :: c in lead ==> IsSpace(c)
    requires s != "" && !IsSpace(s[0])
    ensures TrimLeftSpace(lead + s) == s
    decreases |lead|
  {
    if lead != [] {
      assert (lead + s)[1..] == lead[1..] + s;
      TrimLeftSpaceOfPadded(lead[1..], s);
    }
  }

  lemma {:induction false} TrimRightSpaceOfPadded(s: string, trail: string)
    requires forall c :: c in trail ==> IsSpace(c)
    requires s != "" && !IsSpace(s[|s| - 1])
    ensures TrimRightSpace(s + trail) == s
    decreases |trail|
  {
    if trail != [] {
      assert (s + trail)[..|s + trail| - 1] == s + trail[..|trail| - 1];
      TrimRightSpaceOfPadded(s, trail[..|trail| - 1]);
    } else {
      assert s + trail == s;
    }
  }

  /** `q` lists every member of `s` once: how the model states the outcome of a Go
      slice filled from a map or a set, whose order is unspecified. */
  ghost predicate Enumerates(q: seq<string>, s: set<string>) {
    && (forall x :: x in q <==> x in s)
    && forall a, b :: 0 <= a < b < |q| ==> q[a] != q[b]
  }
}
