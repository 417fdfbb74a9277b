/**
 base/file_path, POSIX configuration: '/' is the only separator and there are no
 drive letters, so `letter` is always npos and `letter + 1` is 0.
 */
module FilePath {
  import opened Common

  const SEPARATOR: char := '/'
  const CURRENT_DIRECTORY: string := "."
  const PARENT_DIRECTORY: string := ".."
  const NPOS: int := -1

  predicate IsSeparator(c: char) {
    c == SEPARATOR
  }

  predicate AreAllSeparators(s: string) {
    forall i :: 0 <= i < |s| ==> IsSeparator(s[i])
  }

  predicate SeparatorsFrom(s: string, k: int)
    requires 0 <= k
  {
    forall i :: k <= i < |s| ==> IsSeparator(s[i])
  }

  predicate NoSeparator(s: string) {
    forall i :: 0 <= i < |s| ==> !IsSeparator(s[i])
  }

  // ----- stripping -----

  /** Drops every trailing separator. */
  function Trim(s: string): string {
    if |s| > 0 && IsSeparator(s[|s|-1]) then Trim(s[..|s|-1]) else s
  }

  /** Trailing separators go, but "/" and "//" are kept, and three or more
      separators on their own become one. */
  function Strip(s: string): string {
    if !AreAllSeparators(s) then Trim(s)
    else if |s| <= 2 then s else s[..1]
  }

  lemma {:induction false} TrimIs(s: string)
    ensures |Trim(s)| <= |s| && Trim(s) == s[..|Trim(s)|]
    ensures SeparatorsFrom(s, |Trim(s)|)
    ensures Trim(s) != "" ==> !IsSeparator(Trim(s)[|Trim(s)|-1])
    ensures AreAllSeparators(s) <==> Trim(s) == ""
  {
    if |s| > 0 && IsSeparator(s[|s|-1]) {
      TrimIs(s[..|s|-1]);
      assert forall i :: 0 <= i < |s| - 1 ==> s[..|s|-1][i] == s[i];
    }
  }

  lemma StripIs(s: string)
    ensures |Strip(s)| <= |s| && Strip(s) == s[..|Strip(s)|]
    ensures SeparatorsFrom(s, |Strip(s)|)
    ensures Strip(s) != "" && IsSeparator(Strip(s)[|Strip(s)|-1]) ==> Strip(s) == "/" || Strip(s) == "//"
    ensures Strip(s) == "" <==> s == ""
  {
    TrimIs(s);
  }

  lemma StripIdempotent(s: string)
    ensures Strip(Strip(s)) == Strip(s)
  {
    StripIs(s);
    TrimIs(s);
    if !AreAllSeparators(s) {
      assert !IsSeparator(Trim(s)[|Trim(s)|-1]);
    }
  }

  lemma StrippedEnd(path: string, stripped: string)
    requires |stripped| <= |path| && stripped == path[..|stripped|] && SeparatorsFrom(path, |stripped|)
    requires |path| > 0 ==> |stripped| > 0
    requires |stripped| <= 1 || !IsSeparator(stripped[|stripped|-1]) || path == stripped == "//"
    requires |path| == 2 && |stripped| == 1 ==> path != "//"
    ensures stripped == Strip(path)
  {
    TrimIs(path);
    if i :| 0 <= i < |path| && !IsSeparator(path[i]) {
      assert i < |stripped| && i < |Trim(path)|;
      assert !IsSeparator(stripped[|stripped|-1]) && !IsSeparator(path[|Trim(path)|-1]);
    }
  }

  /** The loop, with start == 1 because there is no drive letter. */
  method StripTrailingSeparatorsInternal(path: string) returns (stripped: string)
    ensures stripped == Strip(path)
  {
    stripped := path;
    var start := 1;
    var lastStripped := NPOS;
    var pos := |path|;
    while pos > start && IsSeparator(stripped[pos-1])
      invariant 0 <= pos <= |path|
      invariant pos == |stripped| || (pos == 1 && path == stripped == "//")
      invariant stripped == path[..|stripped|] && SeparatorsFrom(path, |stripped|)
      invariant lastStripped == if |stripped| == |path| then NPOS else |stripped| + 1
      invariant |path| > 0 ==> |stripped| > 0
      invariant |path| == 2 && |stripped| == 1 ==> !IsSeparator(path[0])
      decreases pos
    {
      if pos != start + 1 || lastStripped == start + 2 || !IsSeparator(stripped[start-1]) {
        stripped := stripped[..pos-1];
        lastStripped := pos;
      }
      pos := pos - 1;
    }
    TrimIs(path);
    StrippedEnd(path, stripped);
  }

  // ----- the pieces of a path -----

  function RFind(s: string, c: char): (r: int)
    ensures -1 <= r < |s|
    ensures 0 <= r ==> s[r] == c
    ensures forall i :: r < i < |s| ==> s[i] != c
  {
    if |s| == 0 then NPOS
    else if s[|s|-1] == c then |s| - 1
    else RFind(s[..|s|-1], c)
  }

  /** A stripped path up to its last separator, which is kept when it is the root. */
  function UpToSeparator(s: string): string {
    var last := RFind(s, SEPARATOR);
    if last == NPOS then ""
    else if last == 0 then s[..1]
    else if last == 1 && IsSeparator(s[0]) then s[..2]
    else s[..last]
  }

  function AfterSeparator(s: string): string {
    var last := RFind(s, SEPARATOR);
    if last != NPOS && last < |s| - 1 then s[last + 1..] else s
  }

  function DirName(path: string): string {
    var dir := Strip(UpToSeparator(Strip(path)));
    if dir == "" then CURRENT_DIRECTORY else dir
  }

  function BaseName(path: string): string {
    AfterSeparator(Strip(path))
  }

  function Append(path: string, component: string): string {
    if path == CURRENT_DIRECTORY then component
    else
      var s := Strip(path);
      if component != "" && s != "" && !IsSeparator(s[|s|-1])
      then s + [SEPARATOR] + component
      else s + component
  }

  predicate IsRoot(path: string) {
    path == "." || path == "/" || path == "//"
  }

  /** Names are what a directory can list: non-empty and free of separators. */
  predicate IsName(c: string) {
    c != "" && NoSeparator(c)
  }

  lemma StripFixed(s: string)
    requires s != "" && (!IsSeparator(s[|s|-1]) || s == "/" || s == "//")
    ensures Strip(s) == s
  {
  }

  /** Everything but the root directories lies strictly below its DirName. */
  function Height(path: string): nat {
    if path == CURRENT_DIRECTORY then 0 else 1 + |path|
  }

  lemma DirNameDescends(path: string)
    ensures IsRoot(path) <==> DirName(path) == path
    ensures !IsRoot(path) ==> Height(DirName(path)) < Height(path)
  {
    var s := Strip(path);
    var cut := UpToSeparator(s);
    StripIs(path);
    StripIs(cut);
    assert |cut| < |s| || cut == "" || s == "/" || s == "//";
    StripFixed(".");
    StripFixed("/");
    StripFixed("//");
  }

  function DirNames(path: string, k: nat): string
    decreases k
  {
    if k == 0 then path else DirNames(DirName(path), k - 1)
  }

  /** Iterating DirName ends in a root directory, from any path at all. */
  lemma {:induction false} DirNameReachesRoot(path: string) returns (k: nat)
    ensures IsRoot(DirNames(path, k))
    ensures forall i :: 0 <= i < k ==> !IsRoot(DirNames(path, i))
    decreases Height(path)
  {
    k := 0;
    if !IsRoot(path) {
      DirNameDescends(path);
      var below := DirNameReachesRoot(DirName(path));
      k := below + 1;
      assert forall i :: 0 < i <= k ==> DirNames(path, i) == DirNames(DirName(path), i - 1);
    }
  }

  lemma RFindIs(s: string, c: char, at: int)
    requires -1 <= at < |s| && (0 <= at ==> s[at] == c)
    requires forall i :: at < i < |s| ==> s[i] != c
    ensures RFind(s, c) == at
  {
  }

  lemma SplitBare(c: string)
    requires IsName(c)
    ensures Strip(c) == c && BaseName(c) == c && DirName(c) == CURRENT_DIRECTORY
  {
    StripFixed(c);
    RFindIs(c, SEPARATOR, NPOS);
  }

  lemma SplitBelowRoot(root: string, c: string)
    requires (root == "/" || root == "//") && IsName(c)
    ensures Strip(root + c) == root + c && BaseName(root + c) == c && DirName(root + c) == root
  {
    var a := root + c;
    StripFixed(a);
    RFindIs(a, SEPARATOR, |root| - 1);
    assert a[|root|..] == c && a[..|root|] == root;
    StripFixed(root);
  }

  lemma SplitBelow(h: string, c: string)
    requires h != "" && !IsSeparator(h[|h|-1]) && IsName(c)
    ensures
      var a := h + [SEPARATOR] + c;
      Strip(a) == a && BaseName(a) == c && DirName(a) == h
  {
    var a := h + [SEPARATOR] + c;
    StripFixed(a);
    RFindIs(a, SEPARATOR, |h|);
    assert a[|h| + 1..] == c && a[..|h|] == h;
    StripFixed(h);
  }

  /** Append undone: on every path and name, BaseName gives the name back and
      DirName the path without its trailing separators. */
  lemma {:induction false} AppendThenSplit(path: string, c: string)
    requires path != "" && IsName(c)
    ensures BaseName(Append(path, c)) == c
    ensures DirName(Append(path, c)) == Strip(path)
    ensures Strip(Append(path, c)) == Append(path, c)
    ensures path == CURRENT_DIRECTORY || |Append(path, c)| > |c|
  {
    var s := Strip(path);
    StripIs(path);
    if path == CURRENT_DIRECTORY {
      SplitBare(c);
      StripFixed(path);
    } else if IsSeparator(s[|s|-1]) {
      SplitBelowRoot(s, c);
    } else {
      SplitBelow(s, c);
    }
  }

  // ----- components -----

  function Pushed(base: string): seq<string> {
    if AreAllSeparators(base) then [] else [base]
  }

  function RootPushed(base: string): seq<string> {
    if base != "" && base != CURRENT_DIRECTORY then [base] else []
  }

  function Ladder(path: string): seq<string>
    decreases Height(path)
  {
    DirNameDescends(path);
    if DirName(path) == path then RootPushed(BaseName(path))
    else Ladder(DirName(path)) + Pushed(BaseName(path))
  }

  function Components(path: string): seq<string> {
    if path == "" then [] else Ladder(path)
  }

  lemma ReversedAppend(s: seq<string>, x: string)
    ensures Reversed(s + [x]) == [x] + Reversed(s)
  {
  }

  /** What is still to be climbed, followed by what has been collected. */
  ghost function Collected(current: string, retVal: seq<string>): seq<string> {
    Ladder(current) + Reversed(retVal)
  }

  lemma LadderUnfolds(path: string)
    ensures IsRoot(path) <==> DirName(path) == path
    ensures !IsRoot(path) ==> Ladder(path) == Ladder(DirName(path)) + Pushed(BaseName(path))
  {
    DirNameDescends(path);
  }

  lemma StrippedSplitsAlike(path: string)
    ensures DirName(Strip(path)) == DirName(path) && BaseName(Strip(path)) == BaseName(path)
  {
    StripIdempotent(path);
  }

  lemma RootLadder(root: string)
    requires IsRoot(root)
    ensures DirName(root) == root && BaseName(root) == root
    ensures Ladder(root) == if root == "." then [] else [root]
  {
    DirNameDescends(root);
    StripFixed(root);
    RFindIs(root, SEPARATOR, if root == "." then NPOS else |root| - 1);
  }

  lemma NameIsPushed(c: string)
    requires IsName(c)
    ensures Pushed(c) == [c]
  {
    assert !IsSeparator(c[0]);
  }

  lemma CollectStep(above: seq<string>, base: string, retVal: seq<string>)
    ensures above + Reversed(retVal + Pushed(base)) == (above + Pushed(base)) + Reversed(retVal)
  {
    if Pushed(base) == [] {
      assert retVal + [] == retVal && above + [] == above;
    } else {
      ReversedAppend(retVal, base);
      Associative(above, [base], Reversed(retVal));
    }
  }

  lemma {:induction false} LadderStep(current: string, retVal: seq<string>)
    requires !IsRoot(current)
    ensures Collected(DirName(current), retVal + Pushed(BaseName(current))) == Collected(current, retVal)
  {
    LadderUnfolds(current);
    CollectStep(Ladder(DirName(current)), BaseName(current), retVal);
  }

  lemma {:induction false} LadderEnd(current: string, retVal: seq<string>)
    requires IsRoot(current)
    ensures Reversed(retVal + RootPushed(BaseName(current))) == Collected(current, retVal)
  {
    DirNameDescends(current);
    assert retVal + [] == retVal;
    ReversedAppend(retVal, BaseName(current));
  }

  method GetComponents(path: string) returns (components: seq<string>)
    ensures components == Components(path)
  {
    if path == "" {
      return [];
    }
    var retVal: seq<string> := [];
    var current := path;
    DirNameDescends(current);
    var dir := DirName(current);
    while current != dir
      invariant dir == DirName(current) && (current == dir <==> IsRoot(current))
      invariant !IsRoot(current) ==> Height(dir) < Height(current)
      invariant Collected(current, retVal) == Collected(path, [])
      decreases Height(current)
    {
      var base := BaseName(current);
      LadderStep(current, retVal);
      if !AreAllSeparators(base) {
        retVal := retVal + [base];
      } else {
        assert retVal + Pushed(base) == retVal;
      }
      current := dir;
      DirNameDescends(current);
      dir := DirName(current);
    }
    LadderEnd(current, retVal);
    var base := BaseName(current);
    if base != "" && base != CURRENT_DIRECTORY {
      retVal := retVal + [base];
    } else {
      assert retVal + RootPushed(base) == retVal;
    }
    components := Reversed(retVal);
  }
}
