/**
 base/file_path: what the components of a path are, from its characters alone.  They are
 the fields between the separators, behind a root that depends on how many separators
 the path begins with.
 */
module FilePathComponents {
  import opened Common
  import opened FilePath

  function RunLength(s: string): (n: nat)
    ensures n <= |s|
    ensures forall i :: 0 <= i < n ==> !IsSeparator(s[i])
    ensures n < |s| ==> IsSeparator(s[n])
  {
    if s == "" || IsSeparator(s[0]) then 0 else 1 + RunLength(s[1..])
  }

  /** The fields between separators, from the left. */
  function Fields(s: string): seq<string> {
    if s == "" then []
    else if IsSeparator(s[0]) then Fields(s[1..])
    else [s[..RunLength(s)]] + Fields(s[RunLength(s)..])
  }

  function LeadingSeparators(s: string): (n: nat)
    ensures n <= |s|
    ensures forall i :: 0 <= i < n ==> IsSeparator(s[i])
    ensures n < |s| ==> !IsSeparator(s[n])
  {
    if s == "" || !IsSeparator(s[0]) then 0 else 1 + LeadingSeparators(s[1..])
  }

  /** Two separators on their own, and two or three before a name, are the alternate root. */
  function RootOf(path: string): string {
    var n := LeadingSeparators(path);
    if n == 0 then ""
    else if n == 2 || (n == 3 && n < |path|) then "//"
    else "/"
  }

  /** A leading "." is dropped, unless it is all there is before trailing separators. */
  function RootAndKept(root: string, fields: seq<string>, isCurrent: bool): seq<string> {
    if root != "" then [root] + fields
    else if fields != [] && fields[0] == CURRENT_DIRECTORY && (|fields| > 1 || isCurrent) then fields[1..]
    else fields
  }

  function RootAndFields(path: string): seq<string> {
    RootAndKept(RootOf(path), Fields(path), path == CURRENT_DIRECTORY)
  }

  lemma KeepsOneMore(root: string, fields: seq<string>, base: string, isCurrent: bool)
    requires fields != [] && (root == "" && |fields| == 1 && fields[0] == CURRENT_DIRECTORY ==> isCurrent)
    ensures RootAndKept(root, fields + [base], false) == RootAndKept(root, fields, isCurrent) + [base]
  {
  }

  // ----- fields -----

  lemma RunLengthIs(s: string, n: nat)
    requires n <= |s| && (n < |s| ==> IsSeparator(s[n])) && forall i :: 0 <= i < n ==> !IsSeparator(s[i])
    ensures RunLength(s) == n
  {
  }

  lemma LeadingIs(s: string, n: nat)
    requires n <= |s| && (n < |s| ==> !IsSeparator(s[n])) && forall i :: 0 <= i < n ==> IsSeparator(s[i])
    ensures LeadingSeparators(s) == n
  {
  }

  lemma FieldsOfRun(s: string, n: nat)
    requires 0 < n <= |s| && (n < |s| ==> IsSeparator(s[n])) && forall i :: 0 <= i < n ==> !IsSeparator(s[i])
    ensures Fields(s) == [s[..n]] + Fields(s[n..])
  {
    RunLengthIs(s, n);
  }

  lemma SplitJoined(a: string, b: string, n: nat)
    requires n <= |a|
    ensures (a + b)[n..] == a[n..] + b && (a + b)[..n] == a[..n]
  {
  }

  lemma {:induction false} FieldsJoinRun(a: string, b: string, n: nat)
    requires 0 < n <= |a| && (n < |a| ==> IsSeparator(a[n])) && forall i :: 0 <= i < n ==> !IsSeparator(a[i])
    requires n == |a| && b != "" ==> IsSeparator(b[0])
    requires Fields(a[n..] + b) == Fields(a[n..]) + Fields(b)
    ensures Fields(a + b) == Fields(a) + Fields(b)
  {
    FieldsOfRun(a, n);
    assert forall i :: 0 <= i < n ==> (a + b)[i] == a[i];
    FieldsOfRun(a + b, n);
    SplitJoined(a, b, n);
    Associative([a[..n]], Fields(a[n..]), Fields(b));
  }

  lemma {:induction false} FieldsJoinSeparator(a: string, b: string)
    requires a != "" && IsSeparator(a[0]) && Fields(a[1..] + b) == Fields(a[1..]) + Fields(b)
    ensures Fields(a + b) == Fields(a) + Fields(b)
  {
    SplitJoined(a, b, 1);
  }

  /** Fields do not reach over a separator. */
  lemma {:induction false} FieldsJoin(a: string, b: string)
    requires a == "" || IsSeparator(a[|a|-1]) || b == "" || IsSeparator(b[0])
    ensures Fields(a + b) == Fields(a) + Fields(b)
    decreases |a|
  {
    if a == "" {
      assert a + b == b;
    } else {
      var n := if IsSeparator(a[0]) then 1 else RunLength(a);
      FieldsJoin(a[n..], b);
      if IsSeparator(a[0]) {
        FieldsJoinSeparator(a, b);
      } else {
        FieldsJoinRun(a, b, n);
      }
    }
  }

  lemma {:induction false} NoFields(s: string)
    requires AreAllSeparators(s)
    ensures Fields(s) == []
  {
    if s != "" {
      NoFields(s[1..]);
    }
  }

  lemma {:induction false} OneField(c: string)
    requires IsName(c)
    ensures Fields(c) == [c] && RootOf(c) == ""
  {
    RunLengthIs(c, |c|);
    LeadingIs(c, 0);
    assert c[..|c|] == c && c[|c|..] == "";
  }

  lemma {:induction false} HasField(s: string)
    requires s != "" && !IsSeparator(s[|s|-1])
    ensures Fields(s) != []
  {
    if IsSeparator(s[0]) {
      HasField(s[1..]);
    }
  }

  /** A relative path that ends in a name is that name if there is no other field. */
  lemma {:induction false} SingleField(s: string)
    requires s != "" && !IsSeparator(s[0]) && !IsSeparator(s[|s|-1]) && |Fields(s)| == 1
    ensures Fields(s) == [s]
  {
    var n := RunLength(s);
    if n < |s| {
      HasField(s[n..]);
    } else {
      assert s[..n] == s;
    }
  }

  /** The root depends only on the separators before the first name. */
  lemma {:induction false} SameRoot(path: string, front: string)
    requires |front| <= |path| && front == path[..|front|] && !AreAllSeparators(front)
    ensures RootOf(path) == RootOf(front) && LeadingSeparators(front) < |front|
  {
    var n := LeadingSeparators(front);
    var i :| 0 <= i < |front| && !IsSeparator(front[i]);
    assert n <= i;
    assert forall i :: 0 <= i <= n ==> path[i] == front[i];
    LeadingIs(path, n);
  }

  /** Separators at the end add neither fields nor a root. */
  lemma {:induction false} FieldsOfStripped(path: string)
    requires !AreAllSeparators(path)
    ensures
      var s := Strip(path);
      && Fields(path) == Fields(s) && RootOf(path) == RootOf(s) && s != "" && !IsSeparator(s[|s|-1])
  {
    var s := Strip(path);
    TrimIs(path);
    var rest := path[|s|..];
    assert path == s + rest;
    assert AreAllSeparators(rest) by {
      assert forall i :: 0 <= i < |rest| ==> rest[i] == path[|s| + i];
    }
    FieldsJoin(s, rest);
    NoFields(rest);
    SameRoot(path, s);
  }

  // ----- the two descriptions agree -----

  lemma {:induction false} RootsAgree(path: string)
    requires IsRoot(path)
    ensures Ladder(path) == RootAndFields(path)
  {
    DirNameDescends(path);
    StripFixed(path);
    RFindIs(path, SEPARATOR, if path == "." then NPOS else |path| - 1);
    if path == "." {
      OneField(path);
    } else {
      NoFields(path);
      LeadingIs(path, |path|);
    }
  }

  lemma {:induction false} SeparatorsLadder(path: string)
    requires AreAllSeparators(path) && |path| > 2
    ensures Ladder(path) == ["/"]
  {
    assert Strip(path) == "/" by { assert path[..1] == "/"; }
    StrippedSplitsAlike(path);
    RootLadder("/");
    LadderUnfolds(path);
  }

  lemma {:induction false} SeparatorsAgree(path: string)
    requires AreAllSeparators(path) && |path| > 2
    ensures Ladder(path) == RootAndFields(path)
  {
    SeparatorsLadder(path);
    NoFields(path);
    LeadingIs(path, |path|);
  }

  function BeforeLast(front: string): string {
    if front == "" || front == "/" || front == "//" then front else front[..|front|-1]
  }

  /** A path that ends in a name: what is before it, and what DirName makes of that. */
  lemma {:induction false} LastFieldSplits(s: string) returns (front: string)
    requires s != "" && !IsSeparator(s[|s|-1])
    ensures s == front + AfterSeparator(s) && IsName(AfterSeparator(s))
    ensures front != "" ==> IsSeparator(front[|front|-1])
    ensures UpToSeparator(s) == BeforeLast(front)
  {
    var last := RFind(s, SEPARATOR);
    front := s[..last + 1];
    assert s == front + s[last + 1..];
    assert last > 0 ==> front[..|front|-1] == s[..last];
    assert last == 0 ==> front == "/";
    assert last == 1 && IsSeparator(s[0]) ==> front == "//";
    assert last == 1 && !IsSeparator(s[0]) ==> front != "//" && front != "/";
    assert last > 1 ==> |front| > 2;
  }

  lemma {:induction false} TopFields(front: string, base: string)
    requires IsName(base) && AreAllSeparators(front)
    ensures Fields(front + base) == [base]
    ensures RootOf(front + base)
            == if front == "" then "" else if |front| == 2 || |front| == 3 then "//" else "/"
  {
    FieldsJoin(front, base);
    NoFields(front);
    OneField(base);
    var s := front + base;
    assert s[|front|] == base[0] && forall i :: 0 <= i < |front| ==> s[i] == front[i];
    LeadingIs(s, |front|);
  }

  lemma {:induction false} DirOfSeparators(front: string)
    requires front != "" && AreAllSeparators(front)
    ensures
      Strip(BeforeLast(front)) == if |front| == 2 || |front| == 3 then "//" else "/"
  {
    if |front| == 1 {
      assert front == "/";
    } else if |front| == 2 {
      assert front == "//";
    } else if |front| == 3 {
      assert front[..2] == "//";
    } else {
      var up := front[..|front|-1];
      assert AreAllSeparators(up) && up[..1] == "/";
    }
  }

  lemma TopKept(root: string, base: string, isCurrent: bool)
    requires !isCurrent
    ensures RootAndKept(root, [base], isCurrent) == (if root == "" then [] else [root]) + [base]
  {
  }

  /** A name directly below the root, or on its own. */
  lemma {:induction false} TopNameAgrees(path: string, front: string, base: string)
    requires DirName(path) == (if front == "" then "." else if |front| == 2 || |front| == 3 then "//" else "/")
    requires BaseName(path) == base && IsName(base) && AreAllSeparators(front) && !IsRoot(path)
    requires Fields(path) == Fields(front + base) && RootOf(path) == RootOf(front + base)
    ensures Ladder(path) == RootAndFields(path)
  {
    LadderUnfolds(path);
    RootLadder(DirName(path));
    NameIsPushed(base);
    TopFields(front, base);
    TopKept(RootOf(path), base, path == CURRENT_DIRECTORY);
  }

  lemma {:induction false} LoneCurrent(dir: string)
    requires dir != "" && !IsSeparator(dir[|dir|-1])
    ensures RootOf(dir) == "" && |Fields(dir)| == 1 ==> Fields(dir) == [dir]
  {
    if RootOf(dir) == "" && |Fields(dir)| == 1 {
      SingleField(dir);
    }
  }

  /** A name below another one. */
  lemma {:induction false} LowerNameAgrees(path: string, dir: string, base: string)
    requires DirName(path) == dir && BaseName(path) == base && IsName(base) && !IsRoot(path)
    requires dir != "" && !IsSeparator(dir[|dir|-1]) && Ladder(dir) == RootAndFields(dir)
    requires Fields(path) == Fields(dir) + [base] && RootOf(path) == RootOf(dir)
    ensures Ladder(path) == RootAndFields(path)
  {
    LadderUnfolds(path);
    NameIsPushed(base);
    HasField(dir);
    LoneCurrent(dir);
    KeepsOneMore(RootOf(dir), Fields(dir), base, dir == CURRENT_DIRECTORY);
  }

  lemma {:induction false} FieldsBehind(up: string, base: string)
    requires IsName(base)
    ensures Fields((up + [SEPARATOR]) + base) == Fields(up) + [base]
  {
    FieldsJoin(up + [SEPARATOR], base);
    FieldsJoin(up, [SEPARATOR]);
    NoFields([SEPARATOR]);
    OneField(base);
    assert Fields(up) + [] == Fields(up);
  }

  lemma {:induction false} RootBehind(up: string, base: string)
    requires !AreAllSeparators(up)
    ensures RootOf((up + [SEPARATOR]) + base) == RootOf(up)
  {
    var path := (up + [SEPARATOR]) + base;
    assert path[..|up|] == up;
    SameRoot(path, up);
  }

  lemma SomethingBehind(front: string) returns (up: string)
    requires front != "" && IsSeparator(front[|front|-1]) && !AreAllSeparators(front)
    ensures front == up + [SEPARATOR] && BeforeLast(front) == up && !AreAllSeparators(up)
  {
    up := front[..|front|-1];
    var i :| 0 <= i < |front| && !IsSeparator(front[i]);
    assert up[i] == front[i];
    assert front != "/" && front != "//";
  }

  /** What is before the last separator has the fields and the root of the DirName. */
  lemma {:induction false} DirHasFields(front: string, base: string)
    requires front != "" && IsSeparator(front[|front|-1]) && !AreAllSeparators(front) && IsName(base)
    ensures
      var dir := Strip(BeforeLast(front));
      && dir != "" && !IsSeparator(dir[|dir|-1])
      && Fields(front + base) == Fields(dir) + [base] && RootOf(front + base) == RootOf(dir)
  {
    var up := SomethingBehind(front);
    FieldsOfStripped(up);
    FieldsBehind(up, base);
    RootBehind(up, base);
  }

  lemma {:induction false} DirNameIs(path: string)
    ensures
      var dir := Strip(UpToSeparator(Strip(path)));
      DirName(path) == if dir == "" then "." else dir
  {
  }

  lemma {:induction false} TopDirName(path: string, front: string)
    requires UpToSeparator(Strip(path)) == BeforeLast(front) && AreAllSeparators(front)
    ensures DirName(path) == if front == "" then "." else if |front| == 2 || |front| == 3 then "//" else "/"
  {
    DirNameIs(path);
    if front == "" {
      StripIs(front);
    } else {
      DirOfSeparators(front);
    }
  }

  lemma {:induction false} LowerDirName(path: string, front: string, base: string)
    requires UpToSeparator(Strip(path)) == BeforeLast(front) && !AreAllSeparators(front) && IsName(base)
    requires front != "" && IsSeparator(front[|front|-1])
    ensures
      var dir := DirName(path);
      && dir != "" && !IsSeparator(dir[|dir|-1])
      && Fields(front + base) == Fields(dir) + [base] && RootOf(front + base) == RootOf(dir)
  {
    DirNameIs(path);
    DirHasFields(front, base);
  }

  lemma {:induction false} NameBehindAgrees(path: string, front: string, base: string)
    requires BaseName(path) == base && IsName(base) && !IsRoot(path)
    requires front != "" ==> IsSeparator(front[|front|-1])
    requires Fields(path) == Fields(front + base) && RootOf(path) == RootOf(front + base)
    requires UpToSeparator(Strip(path)) == BeforeLast(front)
    requires Ladder(DirName(path)) == RootAndFields(DirName(path))
    ensures Ladder(path) == RootAndFields(path)
  {
    if AreAllSeparators(front) {
      TopDirName(path, front);
      TopNameAgrees(path, front, base);
    } else {
      LowerDirName(path, front, base);
      LowerNameAgrees(path, DirName(path), base);
    }
  }

  lemma {:induction false} LastFieldOf(path: string) returns (front: string)
    requires !AreAllSeparators(path)
    ensures IsName(BaseName(path)) && (front != "" ==> IsSeparator(front[|front|-1]))
    ensures Fields(path) == Fields(front + BaseName(path)) && RootOf(path) == RootOf(front + BaseName(path))
    ensures UpToSeparator(Strip(path)) == BeforeLast(front)
  {
    FieldsOfStripped(path);
    front := LastFieldSplits(Strip(path));
  }

  lemma {:induction false} NameAgrees(path: string)
    requires !AreAllSeparators(path) && !IsRoot(path)
    requires Ladder(DirName(path)) == RootAndFields(DirName(path))
    ensures Ladder(path) == RootAndFields(path)
  {
    var front := LastFieldOf(path);
    NameBehindAgrees(path, front, BaseName(path));
  }

  lemma DirNameNotEmpty(path: string)
    ensures DirName(path) != ""
  {
  }

  /** The components, which the code finds by taking BaseName and DirName in turn, are
      the root and the fields of the path. */
  lemma {:induction false} LadderIsRootAndFields(path: string)
    requires path != ""
    ensures Ladder(path) == RootAndFields(path)
    decreases Height(path)
  {
    DirNameDescends(path);
    if IsRoot(path) {
      RootsAgree(path);
    } else if AreAllSeparators(path) {
      SeparatorsAgree(path);
    } else {
      DirNameNotEmpty(path);
      LadderIsRootAndFields(DirName(path));
      NameAgrees(path);
    }
  }

  lemma ComponentsAreRootAndFields(path: string)
    ensures Components(path) == RootAndFields(path)
  {
    if path != "" {
      LadderIsRootAndFields(path);
    }
  }

  // ----- Append on any relative path -----

  lemma {:induction false} AppendToSeparators(path: string, c: string)
    requires AreAllSeparators(path) && (c == "" || !IsSeparator(c[0]))
    ensures Fields(Strip(path) + c) == Fields(path) + Fields(c) && RootOf(Strip(path) + c) == RootOf(path)
  {
    var s := Strip(path);
    NoFields(path);
    NoFields(s);
    FieldsJoin(s, c);
    LeadingIs(path, |path|);
    assert forall i :: 0 <= i < |s| ==> (s + c)[i] == s[i];
    LeadingIs(s + c, |s|);
  }

  lemma {:induction false} AppendBehindName(s: string, c: string)
    requires s != "" && !IsSeparator(s[|s|-1])
    ensures Fields(s + [SEPARATOR] + c) == Fields(s) + Fields(c) && RootOf(s + [SEPARATOR] + c) == RootOf(s)
  {
    FieldsJoin(s + [SEPARATOR], c);
    FieldsJoin(s, [SEPARATOR]);
    NoFields([SEPARATOR]);
    assert Fields(s) + [] == Fields(s);
    assert (s + [SEPARATOR] + c)[..|s|] == s;
    SameRoot(s + [SEPARATOR] + c, s);
  }

  /** Append puts the fields of a relative path behind those of this one, with the same root
      and at most one character more; only "." is dropped. */
  lemma {:induction false} AppendAddsFields(path: string, c: string)
    requires c == "" || !IsSeparator(c[0])
    ensures path == CURRENT_DIRECTORY ==> Append(path, c) == c
    ensures path != CURRENT_DIRECTORY ==>
              Fields(Append(path, c)) == Fields(path) + Fields(c) && RootOf(Append(path, c)) == RootOf(path)
    ensures |Append(path, c)| <= |path| + 1 + |c|
  {
    var s := Strip(path);
    StripIs(path);
    if AreAllSeparators(path) {
      AppendToSeparators(path, c);
      assert s == "" || IsSeparator(s[|s|-1]);
    } else if path != CURRENT_DIRECTORY {
      FieldsOfStripped(path);
      if c == "" {
        assert s + c == s && Fields(path) + [] == Fields(path);
      } else {
        AppendBehindName(s, c);
      }
    }
  }
}
