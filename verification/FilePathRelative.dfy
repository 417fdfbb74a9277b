/**
 base/file_path: how Append and GetComponents fit together, and what
 AppendRelativePath and IsParent promise.
 */
module FilePathRelative {
  import opened Common
  import opened FilePath

  /** "./" and the like: stripping leaves ".", but the path is not ".". */
  predicate IsDottedCurrent(path: string) {
    path != CURRENT_DIRECTORY && Strip(path) == CURRENT_DIRECTORY
  }

  lemma RootPushes(root: string)
    requires IsRoot(root)
    ensures (if root == "." then [] else [root]) + Pushed(root) == [root]
  {
    assert !IsSeparator("."[0]);
  }

  lemma RootStripped(path: string)
    ensures IsRoot(path) ==> Strip(path) == path
  {
    StripFixed(".");
    StripFixed("/");
    StripFixed("//");
  }

  lemma {:induction false} LadderOfStripped(path: string)
    requires path != ""
    ensures !IsDottedCurrent(path) ==> Ladder(Strip(path)) == Ladder(path)
    ensures IsDottedCurrent(path) ==> Ladder(path) == [CURRENT_DIRECTORY]
  {
    var s := Strip(path);
    if s == path {
      return;
    }
    StrippedSplitsAlike(path);
    RootStripped(path);
    LadderUnfolds(path);
    if IsRoot(s) {
      RootLadder(s);
      RootPushes(s);
    } else {
      LadderUnfolds(s);
    }
  }

  lemma {:induction false} AppendToEmpty(c: string)
    ensures Append("", c) == c
  {
    StripIs("");
    assert "" + c == c;
  }

  lemma {:induction false} AppendToCurrent(path: string, c: string)
    requires path == "" || path == CURRENT_DIRECTORY
    ensures Append(path, c) == c && Components(path) == []
  {
    if path == "" {
      AppendToEmpty(c);
    } else {
      RootLadder(path);
    }
  }

  lemma {:induction false} StrippedComponents(path: string)
    requires path != "" && path != CURRENT_DIRECTORY
    ensures IsDottedCurrent(path) ==> |Components(path)| == 1 && Ladder(Strip(path)) == []
    ensures !IsDottedCurrent(path) ==> Components(path) == Ladder(Strip(path))
  {
    LadderOfStripped(path);
    RootLadder(CURRENT_DIRECTORY);
  }

  lemma {:induction false} ComponentsOfName(c: string)
    requires IsName(c)
    ensures Components(c) == if c == CURRENT_DIRECTORY then [] else [c]
  {
    RootLadder(CURRENT_DIRECTORY);
    if c != CURRENT_DIRECTORY {
      SplitBare(c);
      LadderUnfolds(c);
      NameIsPushed(c);
      assert c != "/" && c != "//" by { assert !IsSeparator(c[0]); }
    }
  }

  lemma {:induction false} LadderOfBase(a: string, dir: string, c: string)
    requires DirName(a) == dir && BaseName(a) == c && IsName(c) && |dir| < |a|
    ensures Components(a) == Ladder(dir) + [c]
  {
    LadderUnfolds(a);
    NameIsPushed(c);
  }

  lemma AppendIsLonger(path: string, c: string)
    requires path != "" && path != CURRENT_DIRECTORY && IsName(c)
    ensures |Append(path, c)| > |Strip(path)|
    ensures |Append(path, c)| > 1
  {
    StripIs(path);
  }

  lemma {:induction false} AppendAddsBase(path: string, c: string)
    requires path != "" && path != CURRENT_DIRECTORY && IsName(c)
    ensures Components(Append(path, c)) == Ladder(Strip(path)) + [c]
  {
    AppendThenSplit(path, c);
    AppendIsLonger(path, c);
    LadderOfBase(Append(path, c), Strip(path), c);
  }

  /** Appending a name adds exactly that component, if and only if the path is
      not "./" or the like and the result is not ".". */
  lemma {:induction false} AppendAddsComponent(path: string, c: string)
    requires IsName(c)
    ensures Components(Append(path, c)) == Components(path) + [c]
            <==> if path == "" || path == CURRENT_DIRECTORY then c != CURRENT_DIRECTORY
                 else !IsDottedCurrent(path)
  {
    if path == "" || path == CURRENT_DIRECTORY {
      AppendToCurrent(path, c);
      ComponentsOfName(c);
    } else {
      AppendAddsBase(path, c);
      StrippedComponents(path);
    }
  }

  // ----- relative paths -----

  function AppendFrom(path: string, names: seq<string>, k: nat): string
    requires k <= |names|
    decreases |names| - k
  {
    if k == |names| then path else AppendFrom(Append(path, names[k]), names, k + 1)
  }

  predicate IsParent(parent: string, child: string) {
    var p, c := Components(parent), Components(child);
    p != [] && |p| < |c| && p <= c
  }

  /** The tests of AppendRelativePath on the two lists of components. */
  method IsProperPrefix(parentComponents: seq<string>, childComponents: seq<string>) returns (yes: bool)
    ensures yes <==> parentComponents != [] && |parentComponents| < |childComponents|
                     && parentComponents <= childComponents
  {
    if parentComponents == [] || |parentComponents| >= |childComponents| {
      return false;
    }
    var i := 0;
    while i < |parentComponents|
      invariant 0 <= i <= |parentComponents|
      invariant parentComponents[..i] == childComponents[..i]
    {
      if parentComponents[i] != childComponents[i] {
        return false;
      }
      i := i + 1;
    }
    yes := true;
  }

  /** The second loop of AppendRelativePath. */
  method AppendRest(seed: string, components: seq<string>, start: nat) returns (path: string)
    requires start <= |components|
    ensures path == AppendFrom(seed, components, start)
  {
    path := seed;
    var i := start;
    while i < |components|
      invariant start <= i <= |components|
      invariant AppendFrom(path, components, i) == AppendFrom(seed, components, start)
    {
      path := Append(path, components[i]);
      i := i + 1;
    }
  }

  method AppendRelativePath(parent: string, child: string, seed: string)
    returns (isParent: bool, path: string)
    ensures isParent <==> IsParent(parent, child)
    ensures path == if isParent then AppendFrom(seed, Components(child), |Components(parent)|) else seed
  {
    path := seed;
    var parentComponents := GetComponents(parent);
    var childComponents := GetComponents(child);
    isParent := IsProperPrefix(parentComponents, childComponents);
    if isParent {
      path := AppendRest(seed, childComponents, |parentComponents|);
    }
  }

  lemma BaseNameIsName(path: string)
    ensures AreAllSeparators(BaseName(path)) || IsName(BaseName(path))
  {
    StripIs(path);
  }

  /** All components after the first are names. */
  lemma {:induction false} LaterComponentsAreNames(path: string)
    ensures forall i :: 0 < i < |Ladder(path)| ==> IsName(Ladder(path)[i])
    ensures |Ladder(path)| > 0 ==> IsName(Ladder(path)[0]) || IsRoot(Ladder(path)[0])
    decreases Height(path)
  {
    DirNameDescends(path);
    if IsRoot(path) {
      RootLadder(path);
    } else {
      LaterComponentsAreNames(DirName(path));
      BaseNameIsName(path);
    }
  }

  /** Paths on which Append adds a component whatever the name. */
  predicate IsPlain(path: string) {
    path != "" && path != CURRENT_DIRECTORY && !IsDottedCurrent(path)
  }

  lemma ShiftOne(s: seq<string>, names: seq<string>, k: nat)
    requires k < |names|
    ensures (s + [names[k]]) + names[k+1..] == s + names[k..]
  {
  }

  lemma {:induction false} NextIsPlain(path: string, c: string)
    requires IsPlain(path) && IsName(c)
    ensures
      var next := Append(path, c);
      && IsPlain(next)
      && Components(next) == Components(path) + [c]
  {
    AppendAddsComponent(path, c);
    AppendThenSplit(path, c);
    AppendIsLonger(path, c);
  }

  lemma {:induction false} AppendFromAddsComponents(path: string, names: seq<string>, k: nat)
    requires k <= |names| && IsPlain(path) && forall i :: k <= i < |names| ==> IsName(names[i])
    ensures Components(AppendFrom(path, names, k)) == Components(path) + names[k..]
    decreases |names| - k
  {
    if k == |names| {
      assert Components(path) + names[k..] == Components(path);
    } else {
      NextIsPlain(path, names[k]);
      AppendFromAddsComponents(Append(path, names[k]), names, k + 1);
      ShiftOne(Components(path), names, k);
    }
  }

  lemma Rejoined(p: seq<string>, c: seq<string>)
    requires p <= c
    ensures p + c[|p|..] == c
  {
  }

  lemma FirstAndRest(c: seq<string>)
    requires |c| > 1
    ensures [c[1]] + c[2..] == c[1..]
  {
  }

  lemma {:induction false} RestIsAppended(path: string, c: seq<string>)
    requires |c| > 1 && IsPlain(path) && Components(path) == [c[1]] && forall i :: 0 < i < |c| ==> IsName(c[i])
    ensures Components(AppendFrom(path, c, 2)) == c[1..]
  {
    AppendFromAddsComponents(path, c, 2);
    FirstAndRest(c);
  }

  lemma BelowCurrent(path: string, c: string)
    requires |path| > 1 && DirName(path) == CURRENT_DIRECTORY && BaseName(path) == c && IsName(c)
    ensures Components(path) == [c]
  {
    LadderUnfolds(path);
    RootLadder(CURRENT_DIRECTORY);
    assert !AreAllSeparators(c) by { assert !IsSeparator(c[0]); }
  }

  /** "./" loses its "." as soon as something is appended. */
  lemma DottedAppend(path: string, c: string)
    requires IsDottedCurrent(path) && IsName(c)
    ensures
      var next := Append(path, c);
      && IsPlain(next)
      && Components(next) == [c]
  {
    AppendThenSplit(path, c);
    StripIs(path);
    AppendIsLonger(path, c);
    BelowCurrent(Append(path, c), c);
  }

  lemma {:induction false} DottedRest(parent: string, c: seq<string>)
    requires IsDottedCurrent(parent) && |c| > 1 && forall i :: 0 < i < |c| ==> IsName(c[i])
    ensures Components(AppendFrom(parent, c, 1)) == c[1..]
  {
    DottedAppend(parent, c[1]);
    RestIsAppended(Append(parent, c[1]), c);
  }

  lemma {:induction false} RestReachesChild(parent: string, p: seq<string>, c: seq<string>)
    requires parent != "" && parent != CURRENT_DIRECTORY && p == Ladder(parent)
    requires p != [] && |p| < |c| && p <= c
    requires forall i :: 0 < i < |c| ==> IsName(c[i])
    ensures Components(AppendFrom(parent, c, |p|)) == c <==> !IsDottedCurrent(parent)
  {
    LadderOfStripped(parent);
    if !IsDottedCurrent(parent) {
      AppendFromAddsComponents(parent, c, |p|);
      Rejoined(p, c);
    } else {
      DottedRest(parent, c);
    }
  }

  /** The relative path leads from the parent to the child's own components, if
      and only if the parent is not "./" or the like. */
  lemma {:induction false} RelativePathReachesChild(parent: string, child: string)
    requires IsParent(parent, child)
    ensures Components(AppendFrom(parent, Components(child), |Components(parent)|)) == Components(child)
            <==> !IsDottedCurrent(parent)
  {
    RootLadder(CURRENT_DIRECTORY);
    LaterComponentsAreNames(child);
    RestReachesChild(parent, Components(parent), Components(child));
  }

  lemma {:induction false} StripsToDot()
    ensures IsDottedCurrent("./")
  {
    assert Trim("./") == Trim("./"[..1]) && "./"[..1] == ".";
    assert !IsSeparator("./"[0]);
  }

  /** "./" has the component ".", "./" with "a" appended does not. */
  lemma DotSlashLosesComponent()
    ensures Components("./") == ["."] && Components(Append("./", "a")) == ["a"]
  {
    StripsToDot();
    LadderOfStripped("./");
    DottedAppend("./", "a");
  }

  lemma {:induction false} DottedChild()
    ensures Components("././a") == [".", "a"]
  {
    var middle := "./.";
    SplitBelow(".", ".");
    assert "." + ['/'] + "." == middle;
    LadderUnfolds(middle);
    RootLadder(".");
    NameIsPushed(".");
    SplitBelow(middle, "a");
    assert middle + ['/'] + "a" == "././a";
    LadderUnfolds("././a");
    NameIsPushed("a");
  }

  /** "./" is the parent of "././a", but the relative path leads from it to "a", whose
      components are not the child's. */
  lemma {:induction false} DotSlashMissesChild()
    ensures Components("././a") == [".", "a"] && IsParent("./", "././a")
    ensures Components(AppendFrom("./", Components("././a"), |Components("./")|)) != Components("././a")
  {
    DotSlashLosesComponent();
    DottedChild();
    StripsToDot();
    RelativePathReachesChild("./", "././a");
  }

  /** IsParent is a strict order. */
  lemma IsParentIsStrictOrder(a: string, b: string, c: string)
    ensures !IsParent(a, a)
    ensures !(IsParent(a, b) && IsParent(b, a))
    ensures IsParent(a, b) && IsParent(b, c) ==> IsParent(a, c)
  {
  }
}
