/**
 base/file_util_posix.cc: CreateDirectory, which makes the missing directories of a path
 from the outermost inwards.
 */
module CreateDirectory {
  import opened Common
  import opened FilePath
  import opened FilePathComponents

  /** What a path leads to, whether or not something is there yet. */
  type Place = seq<string>

  /** The place around a place; the root directories are in themselves. */
  function Around(place: Place): Place {
    if place == [] || (|place| == 1 && AreAllSeparators(place[0])) then place else place[..|place|-1]
  }

  lemma {:induction false} EmptyDirName(path: string)
    requires |path| == 0
    ensures DirName(path) == CURRENT_DIRECTORY
  {
    StripIs(path);
    var up := UpToSeparator(Strip(path));
    assert |up| == 0;
    StripIs(up);
    DirNameIs(path);
  }

  lemma {:induction false} RootIsAroundItself(root: string)
    requires IsRoot(root)
    ensures Components(root) == Around(Components(root)) && DirName(root) == root
  {
    RootLadder(root);
  }

  lemma {:induction false} SeparatorsAreRoot(path: string)
    requires AreAllSeparators(path) && |path| > 2
    ensures Components(DirName(path)) == Around(Components(path))
  {
    SeparatorsLadder(path);
    StrippedSplitsAlike(path);
    assert path[..1] == "/";
    RootLadder("/");
  }

  lemma {:induction false} NameIsInDirName(path: string)
    requires !AreAllSeparators(path) && !IsRoot(path)
    ensures Components(path) == Components(DirName(path)) + [BaseName(path)] && IsName(BaseName(path))
  {
    DirNameNotEmpty(path);
    LadderUnfolds(path);
    var front := LastFieldOf(path);
    NameIsPushed(BaseName(path));
  }

  lemma AroundOne(above: Place, base: string)
    requires IsName(base)
    ensures Around(above + [base]) == above
  {
    assert !IsSeparator(base[0]);
  }

  lemma ShortSeparators(path: string)
    requires path != "" && AreAllSeparators(path)
    ensures |path| <= 2 ==> IsRoot(path)
  {
    assert |path| == 1 ==> path == "/";
    assert |path| == 2 ==> path == "//";
  }

  /** When paths lead where their components say, the DirName of a path is the directory
      that it is in. */
  lemma {:induction false} DirNameIsAround(path: string)
    ensures Components(DirName(path)) == Around(Components(path))
  {
    if path == "" {
      EmptyDirName(path);
      RootLadder(CURRENT_DIRECTORY);
    } else if IsRoot(path) {
      RootIsAroundItself(path);
    } else if AreAllSeparators(path) {
      assert |path| > 2 by { ShortSeparators(path); }
      SeparatorsAreRoot(path);
    } else {
      NameIsInDirName(path);
      AroundOne(Components(DirName(path)), BaseName(path));
    }
  }

  class Disk {
    const place: string -> Place
    /** The directory in which mkdir would make a path. */
    const above: string -> Place
    /** The places of the directories there are, and those where none can be made. */
    var existing: set<Place>
    const taken: set<Place>
    const mayFail: bool

    ghost predicate Valid()
      reads this
    {
      existing !! taken
    }

    ghost predicate Blocked(path: string) {
      place(path) in taken
    }

    ghost predicate Holds(path: string)
      reads this
    {
      place(path) in existing
    }

    constructor (place: string -> Place, above: string -> Place, existing: set<Place>, taken: set<Place>, mayFail: bool)
      requires existing !! taken
      ensures Valid() && this.existing == existing && this.taken == taken && this.mayFail == mayFail
      ensures this.place == place && this.above == above
    {
      this.place, this.above, this.existing, this.taken, this.mayFail := place, above, existing, taken, mayFail;
    }

    /** A disk on which paths lead where their components say. */
    constructor Lexical(existing: set<Place>, taken: set<Place>, mayFail: bool)
      requires existing !! taken
      ensures Valid() && this.existing == existing && this.taken == taken && this.mayFail == mayFail
      ensures forall p :: place(p) == Components(p) && above(p) == place(DirName(p))
    {
      this.place, this.above := (p: string) => Components(p), (p: string) => Around(Components(p));
      this.existing, this.taken, this.mayFail := existing, taken, mayFail;
      new;
      forall p
        ensures Components(DirName(p)) == Around(Components(p))
      {
        DirNameIsAround(p);
      }
    }

    method DirectoryExists(path: string) returns (found: bool)
      ensures found == Holds(path)
    {
      found := place(path) in existing;
    }

    /** A directory can only be made inside another one.  When calls may fail, some
        other process may also have made it first. */
    method Mkdir(path: string) returns (ok: bool)
      requires Valid()
      modifies this
      ensures Valid() && old(existing) <= existing <= old(existing) + {place(path)}
      ensures ok ==> !old(Holds(path)) && Holds(path) && above(path) in old(existing)
      ensures !mayFail ==> (ok <==> !old(Holds(path)) && above(path) in old(existing) && !Blocked(path))
      ensures !mayFail && !ok ==> existing == old(existing)
    {
      ok := place(path) !in existing && above(path) in existing && place(path) !in taken;
      var fails, madeByOther := false, false;
      if mayFail {
        fails :| true;
        madeByOther :| true;
      }
      if ok && (!fails || madeByOther) {
        existing := existing + {place(path)};
      }
      ok := ok && !fails;
    }
  }

  /** A path and everything it is in, up to the root directory. */
  function Ancestors(path: string): seq<string>
    decreases Height(path)
  {
    DirNameDescends(path);
    if IsRoot(path) then [path] else [path] + Ancestors(DirName(path))
  }

  lemma {:induction false} AncestorsClimb(path: string)
    ensures
      var all := Ancestors(path);
      && all != [] && all[0] == path && DirName(all[|all|-1]) == all[|all|-1]
      && (forall k :: 0 <= k < |all| - 1 ==> all[k+1] == DirName(all[k]))
    decreases Height(path)
  {
    DirNameDescends(path);
    if !IsRoot(path) {
      AncestorsClimb(DirName(path));
    }
  }

  /** The first loop. */
  method CollectAncestors(fullPath: string) returns (subpaths: seq<string>)
    ensures subpaths == Ancestors(fullPath)
  {
    var lastPath := fullPath;
    subpaths := [fullPath];
    var path := DirName(fullPath);
    DirNameDescends(lastPath);
    while path != lastPath
      invariant path == DirName(lastPath) && (path == lastPath <==> IsRoot(lastPath))
      invariant path == lastPath ==> subpaths == Ancestors(fullPath)
      invariant path != lastPath ==> subpaths + Ancestors(path) == Ancestors(fullPath)
      decreases Height(lastPath)
    {
      DirNameDescends(lastPath);
      DirNameDescends(path);
      if !IsRoot(path) {
        Associative(subpaths, [path], Ancestors(DirName(path)));
      }
      subpaths := subpaths + [path];
      lastPath := path;
      path := DirName(path);
    }
  }

  /** The body of the second loop. */
  method EnsureExists(fs: Disk, path: string) returns (ok: bool)
    requires fs.Valid()
    modifies fs
    ensures fs.Valid() && old(fs.existing) <= fs.existing <= old(fs.existing) + {fs.place(path)}
    ensures ok <==> fs.Holds(path)
    ensures !fs.mayFail ==> (ok <==> old(fs.Holds(path)) || (fs.above(path) in old(fs.existing) && !fs.Blocked(path)))
  {
    var found := fs.DirectoryExists(path);
    if found {
      return true;
    }
    ok := fs.Mkdir(path);
    if !ok {
      ok := fs.DirectoryExists(path);
    }
  }

  ghost function Places(fs: Disk, paths: seq<string>): set<Place> {
    set k | 0 <= k < |paths| :: fs.place(paths[k])
  }

  /** The root of the path exists and nothing else stands in the way. */
  ghost predicate CanCreate(fs: Disk, all: seq<string>)
    reads fs
  {
    && all != [] && fs.Holds(all[|all|-1])
    && forall k :: 0 <= k < |all| ==> !fs.Blocked(all[k])
  }

  /** The second loop, over the collected paths from the last to the first. */
  method CreateAll(fs: Disk, subpaths: seq<string>) returns (ok: bool)
    requires fs.Valid() && subpaths != []
    requires fs.above(subpaths[|subpaths|-1]) == fs.place(subpaths[|subpaths|-1])
    requires forall k :: 0 <= k < |subpaths| - 1 ==> fs.above(subpaths[k]) == fs.place(subpaths[k+1])
    modifies fs
    ensures fs.Valid() && old(fs.existing) <= fs.existing <= old(fs.existing) + Places(fs, subpaths)
    ensures ok <==> forall k :: 0 <= k < |subpaths| ==> fs.Holds(subpaths[k])
    ensures !fs.mayFail ==> (ok <==> old(CanCreate(fs, subpaths)))
  {
    var i := |subpaths|;
    while i > 0
      invariant 0 <= i <= |subpaths|
      invariant fs.Valid() && old(fs.existing) <= fs.existing <= old(fs.existing) + Places(fs, subpaths)
      invariant forall k :: i <= k < |subpaths| ==> fs.Holds(subpaths[k])
      invariant i == |subpaths| ==> fs.existing == old(fs.existing)
      invariant !fs.mayFail && i < |subpaths| ==> old(fs.Holds(subpaths[|subpaths|-1]))
      decreases i
    {
      i := i - 1;
      assert i < |subpaths| - 1 ==> fs.above(subpaths[i]) == fs.place(subpaths[i+1]) && fs.Holds(subpaths[i+1]);
      var made := EnsureExists(fs, subpaths[i]);
      if !made {
        if i < |subpaths| - 1 {
          assert !fs.mayFail ==> fs.Blocked(subpaths[i]);
        } else {
          assert !fs.mayFail ==> !old(fs.Holds(subpaths[i]));
        }
        return false;
      }
    }
    ok := true;
  }

  /** Whether it succeeds, and then every directory on the path exists; nothing else is
      made, and nothing goes.  This rests on DirName being the directory of a path. */
  method CreateDirectory(fs: Disk, fullPath: string) returns (ok: bool)
    requires fs.Valid() && forall p :: fs.above(p) == fs.place(DirName(p))
    modifies fs
    ensures fs.Valid() && old(fs.existing) <= fs.existing <= old(fs.existing) + Places(fs, Ancestors(fullPath))
    ensures ok <==> forall k :: 0 <= k < |Ancestors(fullPath)| ==> fs.Holds(Ancestors(fullPath)[k])
    ensures !fs.mayFail ==> (ok <==> old(CanCreate(fs, Ancestors(fullPath))))
  {
    var subpaths := CollectAncestors(fullPath);
    AncestorsClimb(fullPath);
    ok := CreateAll(fs, subpaths);
  }
}
