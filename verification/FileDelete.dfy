/**
 base/file_util_posix.cc: FileEnumerator, as recursive Delete configures it, and Delete.
 */
module FileDelete {
  import opened Common
  import opened FileTree

  lemma PoppedIs(nodes: Nodes, mayFail: bool, root: Path, entries: seq<Entry>, from: nat, pending: seq<Path>, p: Path)
    requires Sound(nodes, mayFail, root, entries, from, pending + [p])
    ensures p in nodes && nodes[p] == Directory && forall k :: 0 <= k < |pending| ==> !(pending[k] <= p)
  {
    var was := pending + [p];
    assert IsPending(nodes, root, entries, from, was[|pending|]);
    forall k | 0 <= k < |pending|
      ensures !(pending[k] <= p)
    {
      assert !(was[k] <= was[|pending|]);
    }
  }

  /** A directory that cannot be read is skipped with everything in it. */
  lemma UnreadKeepsSound(nodes: Nodes, mayFail: bool, root: Path, entries: seq<Entry>, from: nat,
                         pending: seq<Path>, p: Path)
    requires Sound(nodes, mayFail, root, entries, from, pending + [p]) && from >= |entries|
    ensures Sound(nodes, mayFail, p, entries, from, pending)
    ensures Todo(nodes, p, entries, from, pending) <= Todo(nodes, root, entries, from, pending + [p])
  {
    var was := pending + [p];
    assert forall k :: 0 <= k < |pending| ==> was[k] == pending[k];
    forall k | 0 <= k < |pending|
      ensures IsPending(nodes, p, entries, from, pending[k])
    {
      assert IsPending(nodes, root, entries, from, was[k]);
    }
    forall k, l | 0 <= k < |pending| && 0 <= l < |pending| && k != l
      ensures !(pending[k] <= pending[l])
    {
      assert !(was[k] <= was[l]);
    }
  }

  lemma UnreadIsStep(nodes: Nodes, mayFail: bool, root: Path, entries: seq<Entry>, from: nat,
                     pending: seq<Path>, p: Path)
    requires Sound(nodes, mayFail, root, entries, from, pending + [p]) && from >= |entries|
    ensures Sound(nodes, mayFail, p, entries, from, pending)
    ensures Todo(nodes, p, entries, from, pending) <= Todo(nodes, root, entries, from, pending + [p])
    ensures Scope(nodes, pending) < Scope(nodes, pending + [p])
  {
    PoppedIs(nodes, mayFail, root, entries, from, pending, p);
    UnreadKeepsSound(nodes, mayFail, root, entries, from, pending, p);
    ScopeShrinks(nodes, pending, p, []);
    assert pending + [] == pending;
  }

  lemma ReadIsStep(nodes: Nodes, mayFail: bool, root: Path, entries: seq<Entry>, from: nat,
                   pending: seq<Path>, p: Path, listing: seq<Entry>)
    requires Sound(nodes, mayFail, root, entries, from, pending + [p]) && from >= |entries|
    requires IsListing(nodes, p, mayFail, listing)
    ensures
      var before := Todo(nodes, root, entries, from, pending + [p]);
      var now := Todo(nodes, p, Kept(listing), 0, pending + Subdirectories(p, listing));
      && Sound(nodes, mayFail, p, Kept(listing), 0, pending + Subdirectories(p, listing))
      && now <= before && (!mayFail ==> now == before)
    ensures Scope(nodes, pending + Subdirectories(p, listing)) < Scope(nodes, pending + [p])
  {
    var before := Todo(nodes, root, entries, from, pending + [p]);
    var now := Todo(nodes, p, Kept(listing), 0, pending + Subdirectories(p, listing));
    ReadKeepsSound(nodes, mayFail, root, entries, from, pending, p, listing);
    forall q | q in now
      ensures q in before
    {
      ReadGainsNothing(nodes, mayFail, pending, p, listing, q);
    }
    if !mayFail {
      forall q | q in before
        ensures q in now
      {
        ReadLosesNothing(nodes, root, entries, from, pending, p, listing, q);
      }
    }
    PoppedIs(nodes, mayFail, root, entries, from, pending, p);
    SubdirectoriesAre(p, listing);
    forall r | r in Subdirectories(p, listing)
      ensures |r| == |p| + 1 && p < r
    {
      assert IsSubdirectory(p, listing, r);
    }
    ScopeShrinks(nodes, pending, p, Subdirectories(p, listing));
  }

  /** recursive_, with FILES, DIRECTORIES and SHOW_SYM_LINKS and no pattern. */
  class FileEnumerator {
    const fs: FileSystem
    const route: Route
    var directoryEntries: seq<Entry>
    var currentDirectoryEntry: nat
    var rootPath: Path
    var pendingPaths: seq<Path>

    ghost predicate Valid()
      reads this, fs
    {
      Sound(fs.nodes, fs.mayFail, rootPath, directoryEntries, currentDirectoryEntry + 1, pendingPaths)
    }

    /** No call can fail. */
    ghost predicate Reliable()
      reads fs
    {
      !fs.mayFail && IsOpen(fs.nodes, route)
    }

    /** What Next has still to yield. */
    ghost function Remaining(): set<Path>
      reads this, fs
    {
      Todo(fs.nodes, rootPath, directoryEntries, currentDirectoryEntry + 1, pendingPaths)
    }

    constructor (fs: FileSystem, root: Path, route: Route)
      requires IsTree(fs.nodes) && root in fs.nodes && fs.nodes[root] == Directory
      ensures Valid() && this.fs == fs && this.route == route && fresh(this)
      ensures Remaining() == set q | q in fs.nodes && root < q
    {
      this.fs, this.route, rootPath := fs, route, root;
      directoryEntries, currentDirectoryEntry, pendingPaths := [], 0, [root];
      new;
      StartIsSound(fs.nodes, fs.mayFail, root);
    }

    /** The entry that Next has just yielded. */
    ghost predicate Yields(path: Path)
      reads this, fs
    {
      && currentDirectoryEntry < |directoryEntries|
      && path == rootPath + [directoryEntries[currentDirectoryEntry].name]
      && path in fs.nodes && (forall a :: a in Remaining() ==> !(a <= path))
      && (directoryEntries[currentDirectoryEntry].isDirectory ==> fs.nodes[path] == Directory)
      && (!directoryEntries[currentDirectoryEntry].isDirectory && !fs.mayFail ==> fs.nodes[path] != Directory)
    }

    /** What is still to be yielded when the current entry has not been. */
    ghost function FromCurrent(): set<Path>
      reads this, fs
    {
      Todo(fs.nodes, rootPath, directoryEntries, currentDirectoryEntry, pendingPaths)
    }

    ghost predicate ValidFromCurrent()
      reads this, fs
    {
      Sound(fs.nodes, fs.mayFail, rootPath, directoryEntries, currentDirectoryEntry, pendingPaths)
    }

    method Current() returns (path: Path)
      requires ValidFromCurrent() && currentDirectoryEntry < |directoryEntries|
      ensures Valid() && Yields(path) && path in FromCurrent() && Remaining() == FromCurrent() - {path}
      ensures forall a :: a in FromCurrent() ==> !(a < path)
    {
      YieldStep(fs.nodes, fs.mayFail, rootPath, directoryEntries, currentDirectoryEntry, pendingPaths);
      assert EntryIsTrue(fs.nodes, rootPath, fs.mayFail, directoryEntries[currentDirectoryEntry]);
      path := rootPath + [directoryEntries[currentDirectoryEntry].name];
    }

    /** Takes in a listing, without the dot entries. */
    method PushEntries(listing: seq<Entry>)
      modifies this
      ensures directoryEntries == Kept(listing) && currentDirectoryEntry == 0 && rootPath == old(rootPath)
      ensures pendingPaths == old(pendingPaths) + Subdirectories(rootPath, listing)
    {
      directoryEntries, currentDirectoryEntry := [], 0;
      var i := 0;
      while i < |listing|
        invariant 0 <= i <= |listing|
        invariant directoryEntries == Kept(listing[..i])
        invariant pendingPaths == old(pendingPaths) + Subdirectories(rootPath, listing[..i])
        invariant rootPath == old(rootPath) && currentDirectoryEntry == 0
      {
        assert listing[..i+1][..i] == listing[..i];
        var entry := listing[i];
        if !IsDots(entry.name) {
          if entry.isDirectory {
            pendingPaths := pendingPaths + [rootPath + [entry.name]];
          }
          directoryEntries := directoryEntries + [entry];
        }
        i := i + 1;
      }
      assert listing[..i] == listing;
    }

    /** The body of the loop in Next: pop a directory and list it. */
    method ReadPending()
      requires pendingPaths != [] && currentDirectoryEntry >= |directoryEntries|
      requires ValidFromCurrent()
      modifies this
      ensures ValidFromCurrent() && FromCurrent() <= old(FromCurrent())
      ensures Reliable() ==> FromCurrent() == old(FromCurrent())
      ensures Scope(fs.nodes, pendingPaths) < old(Scope(fs.nodes, pendingPaths))
    {
      ghost var nodes, was, entries, from := fs.nodes, rootPath, directoryEntries, currentDirectoryEntry;
      ghost var pending, p := pendingPaths[..|pendingPaths|-1], pendingPaths[|pendingPaths|-1];
      assert pendingPaths == pending + [p];
      PoppedIs(nodes, fs.mayFail, was, entries, from, pending, p);
      rootPath := pendingPaths[|pendingPaths|-1];
      pendingPaths := pendingPaths[..|pendingPaths|-1];
      var ok, listing := fs.ReadDirectory(rootPath, route);
      if !ok {
        UnreadIsStep(nodes, fs.mayFail, was, entries, from, pending, p);
        return;
      }
      ReadIsStep(nodes, fs.mayFail, was, entries, from, pending, p, listing);
      PushEntries(listing);
    }

    /** The loop of Next. */
    method FindEntry() returns (path: Option<Path>)
      requires ValidFromCurrent()
      modifies this
      ensures Valid() && Remaining() <= old(FromCurrent())
      ensures path.Some? ==> Yields(path.value) && path.value in old(FromCurrent())
      ensures Reliable() && path.Some? ==>
                && Remaining() == old(FromCurrent()) - {path.value}
                && forall a :: a in old(FromCurrent()) ==> !(a < path.value)
      ensures Reliable() && path.None? ==> old(FromCurrent()) == {}
    {
      while currentDirectoryEntry >= |directoryEntries|
        invariant ValidFromCurrent() && FromCurrent() <= old(FromCurrent())
        invariant Reliable() ==> FromCurrent() == old(FromCurrent())
        decreases Scope(fs.nodes, pendingPaths)
      {
        if pendingPaths == [] {
          ExhaustedIsSound(fs.nodes, fs.mayFail, rootPath, directoryEntries, currentDirectoryEntry);
          return None;
        }
        ReadPending();
      }
      var current := Current();
      path := Some(current);
    }

    method Next() returns (path: Option<Path>)
      requires Valid()
      modifies this
      ensures Valid()
      ensures path.Some? ==> Yields(path.value) && path.value in old(Remaining())
      ensures Remaining() <= old(Remaining())
      ensures Reliable() && path.Some? ==>
                && Remaining() == old(Remaining()) - {path.value}
                && forall a :: a in old(Remaining()) ==> !(a < path.value)
      ensures Reliable() && path.None? ==> old(Remaining()) == {}
    {
      currentDirectoryEntry := currentDirectoryEntry + 1;
      path := FindEntry();
    }
  }

  function Ahead(current: Option<Path>): set<Path> {
    if current.Some? then {current.value} else {}
  }

  /** Next, and what then remains together with the entry yielded. */
  method Advance(traversal: FileEnumerator) returns (current: Option<Path>, ghost ahead: set<Path>)
    requires traversal.Valid()
    modifies traversal
    ensures traversal.Valid() && ahead == traversal.Remaining() + Ahead(current) && ahead <= old(traversal.Remaining())
    ensures current.Some? ==> traversal.Yields(current.value)
    ensures traversal.Reliable() ==> ahead == old(traversal.Remaining()) && (current.None? ==> ahead == {})
  {
    current := traversal.Next();
    ahead := traversal.Remaining() + Ahead(current);
  }

  ghost predicate ParentsFirst(yielded: seq<Path>, ahead: set<Path>) {
    && (forall i, j :: 0 <= i < j < |yielded| ==> !(yielded[j] <= yielded[i]))
    && (forall i, a :: 0 <= i < |yielded| && a in ahead ==> !(a <= yielded[i]))
  }

  /** What has been yielded and what may come are under the root, and if no call fails
      that is everything. */
  ghost predicate Collects(below: set<Path>, yielded: seq<Path>, ahead: set<Path>, reliable: bool) {
    && ParentsFirst(yielded, ahead) && ahead <= below && (forall q :: q in yielded ==> q in below)
    && (reliable ==> forall q :: q in below ==> q in yielded || q in ahead)
  }

  lemma YieldKeepsOrder(below: set<Path>, yielded: seq<Path>, remaining: set<Path>, c: Path, reliable: bool)
    requires Collects(below, yielded, remaining + {c}, reliable) && forall a :: a in remaining ==> !(a <= c)
    ensures Collects(below, yielded + [c], remaining, reliable)
  {
    var more, ahead := yielded + [c], remaining + {c};
    assert c in ahead;
    assert forall i :: 0 <= i < |yielded| ==> more[i] == yielded[i];
    assert forall q :: q in yielded ==> q in more;
  }

  lemma FewerCollect(below: set<Path>, yielded: seq<Path>, before: set<Path>, ahead: set<Path>, reliable: bool)
    requires Collects(below, yielded, before, reliable) && ahead <= before && (reliable ==> before == ahead)
    ensures Collects(below, yielded, ahead, reliable)
  {
  }

  /** The order that Delete relies on: whatever a whole traversal yields is under the
      root, and comes once and not before a directory that it is in.  If no call fails
      the traversal yields everything. */
  method Enumerate(fs: FileSystem, root: Path, route: Route) returns (yielded: seq<Path>)
    requires IsTree(fs.nodes) && root in fs.nodes && fs.nodes[root] == Directory
    ensures forall q :: q in yielded ==> q in fs.nodes && root < q
    ensures forall i, j :: 0 <= i < j < |yielded| ==> !(yielded[j] <= yielded[i])
    ensures !fs.mayFail && IsOpen(fs.nodes, route) ==> forall q :: q in fs.nodes && root < q ==> q in yielded
  {
    yielded := [];
    var traversal := new FileEnumerator(fs, root, route);
    ghost var below := traversal.Remaining();
    var current, ahead := Advance(traversal);
    while current.Some?
      invariant traversal.fs == fs && traversal.route == route && fresh(traversal) && traversal.Valid()
      invariant ahead == traversal.Remaining() + Ahead(current)
      invariant current.Some? ==> traversal.Yields(current.value)
      invariant Collects(below, yielded, ahead, traversal.Reliable())
      invariant traversal.Reliable() && current.None? ==> ahead == {}
      decreases ahead
    {
      ghost var remaining := traversal.Remaining();
      YieldKeepsOrder(below, yielded, remaining, current.value, traversal.Reliable());
      yielded := yielded + [current.value];
      current, ahead := Advance(traversal);
      FewerCollect(below, yielded, remaining, ahead, traversal.Reliable());
    }
  }

  // ----- Delete -----

  function Without(nodes: Nodes, path: Path): Nodes {
    map q | q in nodes && !(path <= q) :: nodes[q]
  }

  /** Nothing has been added or changed, and nothing outside `path` removed. */
  ghost predicate OnlyRemovesUnder(was: Nodes, now: Nodes, path: Path) {
    && (forall q :: q in now ==> q in was && now[q] == was[q])
    && (forall q :: q in was && !(path <= q) ==> q in now)
  }

  predicate IsDirectory(nodes: Nodes, d: Path) {
    d in nodes && nodes[d] == Directory
  }

  /** The stack of directories to be removed: each comes after everything it is in,
      and nothing still ahead in the traversal contains any of them. */
  ghost predicate Stacked(nodes: Nodes, path: Path, directories: seq<Path>, ahead: set<Path>) {
    && |directories| > 0 && directories[0] == path
    && (forall i :: 0 <= i < |directories| ==> path <= directories[i] && IsDirectory(nodes, directories[i]))
    && (forall i, a :: 0 <= i < |directories| && a in ahead ==> !(a <= directories[i]))
    && (forall i, j :: 0 <= i < j < |directories| ==> !(directories[j] <= directories[i]))
  }

  /** Everything left under `path` is on the stack or ahead. */
  ghost predicate Covered(nodes: Nodes, path: Path, directories: seq<Path>, ahead: set<Path>) {
    forall q :: q in nodes && path <= q ==> q in directories || q in ahead
  }

  lemma PushKeepsStacked(nodes: Nodes, path: Path, directories: seq<Path>, ahead: set<Path>, c: Path)
    requires Stacked(nodes, path, directories, ahead + {c}) && path <= c && IsDirectory(nodes, c)
    requires forall a :: a in ahead ==> !(a <= c)
    ensures Stacked(nodes, path, directories + [c], ahead)
  {
    var more, was := directories + [c], ahead + {c};
    assert c in was;
    assert forall i :: 0 <= i < |directories| ==> more[i] == directories[i];
  }

  lemma UnlinkKeepsStacked(nodes: Nodes, path: Path, directories: seq<Path>, ahead: set<Path>, c: Path)
    requires Stacked(nodes, path, directories, ahead + {c})
    ensures Stacked(nodes - {c}, path, directories, ahead)
  {
    var was := ahead + {c};
    assert c in was;
  }

  lemma RemoveOneMore(was: Nodes, now: Nodes, path: Path, c: Path)
    requires OnlyRemovesUnder(was, now, path) && path <= c
    ensures OnlyRemovesUnder(was, now - {c}, path)
  {
  }

  lemma PathIsAncestor(nodes: Nodes, path: Path, q: Path)
    requires IsTree(nodes) && q in nodes && path <= q
    ensures path in nodes
  {
    AncestorInTree(nodes, q, |path|);
    assert q[..|path|] == path;
  }

  lemma RootGone(was: Nodes, now: Nodes, path: Path)
    requires IsTree(now) && OnlyRemovesUnder(was, now, path) && path !in now
    ensures now == Without(was, path)
  {
    forall q | q in now
      ensures !(path <= q)
    {
      if path <= q {
        PathIsAncestor(now, path, q);
        assert false;
      }
    }
  }

  /** Calls on names through the link keep working while things under `path` go. */
  ghost predicate Steady(nodes: Nodes, path: Path, route: Route) {
    IsOpen(nodes, route) && (route.Through? ==> !(path <= route.link))
  }

  lemma SteadyStays(was: Nodes, now: Nodes, path: Path, route: Route)
    requires Steady(was, path, route) && OnlyRemovesUnder(was, now, path)
    ensures IsOpen(now, route)
  {
  }

  /** How far the first loop has come. */
  ghost predicate Deleting(was: Nodes, now: Nodes, path: Path, directories: seq<Path>, ahead: set<Path>,
                           success: bool, mayFail: bool)
  {
    && IsTree(now) && OnlyRemovesUnder(was, now, path)
    && (forall q :: q in ahead ==> path < q)
    && (success ==> Stacked(now, path, directories, ahead))
    && (!mayFail ==> success && Covered(now, path, directories, ahead))
  }

  /** c has been pushed, or unlinked, or failed to be unlinked. */
  ghost predicate Visited(nodes: Nodes, now: Nodes, directories: seq<Path>, directories': seq<Path>,
                          c: Path, success: bool)
  {
    && c in nodes
    && now == (if success && nodes[c] != Directory then nodes - {c} else nodes)
    && directories' == (if success && nodes[c] == Directory then directories + [c] else directories)
  }

  lemma VisitKeepsStacked(nodes: Nodes, now: Nodes, path: Path, directories: seq<Path>, directories': seq<Path>,
                          ahead: set<Path>, c: Path, success: bool)
    requires IsTree(nodes) && Visited(nodes, now, directories, directories', c, success)
    requires Stacked(nodes, path, directories, ahead + {c})
    requires path < c && forall a :: a in ahead ==> !(a <= c)
    ensures IsTree(now)
    ensures success ==> Stacked(now, path, directories', ahead)
  {
    if success && nodes[c] == Directory {
      PushKeepsStacked(nodes, path, directories, ahead, c);
    } else if success {
      RemoveKeepsTree(nodes, c);
      UnlinkKeepsStacked(nodes, path, directories, ahead, c);
    }
  }

  lemma VisitKeepsCovered(nodes: Nodes, now: Nodes, path: Path, directories: seq<Path>, directories': seq<Path>,
                          ahead: set<Path>, c: Path)
    requires Visited(nodes, now, directories, directories', c, true)
    requires Covered(nodes, path, directories, ahead + {c})
    ensures Covered(now, path, directories', ahead)
  {
    forall q | q in now && path <= q
      ensures q in directories' || q in ahead
    {
      assert q in directories || q in ahead + {c};
    }
  }

  lemma VisitKeepsDeleting(was: Nodes, nodes: Nodes, now: Nodes, path: Path, directories: seq<Path>,
                           directories': seq<Path>, ahead: set<Path>, c: Path, success: bool, mayFail: bool)
    requires Deleting(was, nodes, path, directories, ahead + {c}, true, mayFail)
    requires Visited(nodes, now, directories, directories', c, success)
    requires (forall a :: a in ahead ==> !(a <= c)) && (!mayFail ==> success)
    ensures Deleting(was, now, path, directories', ahead, success, mayFail)
  {
    assert c in ahead + {c};
    VisitKeepsStacked(nodes, now, path, directories, directories', ahead, c, success);
    RemoveOneMore(was, nodes, path, c);
    if !mayFail {
      VisitKeepsCovered(nodes, now, path, directories, directories', ahead, c);
    }
  }

  lemma FewerAhead(was: Nodes, now: Nodes, path: Path, directories: seq<Path>, before: set<Path>, ahead: set<Path>,
                   success: bool, mayFail: bool)
    requires Deleting(was, now, path, directories, before, success, mayFail)
    requires ahead <= before && (!mayFail ==> before == ahead)
    ensures Deleting(was, now, path, directories, ahead, success, mayFail)
  {
  }

  lemma StackStarts(nodes: Nodes, path: Path, ahead: set<Path>)
    requires path in nodes && nodes[path] == Directory && ahead == set q | q in nodes && path < q
    ensures Stacked(nodes, path, [path], ahead) && Covered(nodes, path, [path], ahead)
  {
    forall q | q in nodes && path <= q && q !in ahead
      ensures q in [path]
    {
      assert q == path;
    }
  }

  ghost predicate DirectoriesStay(was: Nodes, now: Nodes) {
    forall q :: q in was && was[q] == Directory ==> q in now
  }

  /** The link of the route is inside the directory that it leads to, and no call can fail
      while it is there. */
  ghost predicate CutsItself(nodes: Nodes, path: Path, route: Route, mayFail: bool) {
    !mayFail && route.Through? && IsOpen(nodes, route) && path < route.link
  }

  /** The first loop takes no directory, and while such a link is there, it is ahead. */
  ghost predicate Cutting(was: Nodes, now: Nodes, path: Path, route: Route, mayFail: bool, ahead: set<Path>,
                          going: bool)
  {
    && DirectoriesStay(was, now)
    && (CutsItself(was, path, route, mayFail) && route.link in now ==> going && route.link in ahead)
  }

  /** The body of the first loop. */
  method Visit(fs: FileSystem, traversal: FileEnumerator, c: Path, directories: seq<Path>)
    returns (success: bool, directories': seq<Path>)
    requires traversal.fs == fs && traversal.Valid() && traversal.Yields(c)
    requires !fs.refused
    modifies fs`nodes, fs`refused
    ensures fs.refused == !success
    ensures traversal.Valid() && traversal.Remaining() == old(traversal.Remaining())
    ensures DirectoriesStay(old(fs.nodes), fs.nodes)
    ensures old(traversal.Reliable() && fs.nodes[c] != Directory) ==> c !in fs.nodes
    ensures Visited(old(fs.nodes), fs.nodes, directories, directories', c, success)
    ensures old(traversal.Reliable()) ==> success
  {
    success, directories' := true, directories;
    if traversal.directoryEntries[traversal.currentDirectoryEntry].isDirectory {
      directories' := directories + [c];
    } else {
      ghost var nodes := fs.nodes;
      assert !(c in traversal.Remaining()) by { assert c <= c; }
      success := fs.Unlink(c, traversal.route);
      if success {
        UnlinkKeepsSound(nodes, fs.mayFail, traversal.rootPath, traversal.directoryEntries,
                         traversal.currentDirectoryEntry + 1, traversal.pendingPaths, c);
      }
    }
  }

  /** One iteration of the first loop, with the call of Next that ends it. */
  method VisitNext(fs: FileSystem, path: Path, traversal: FileEnumerator, c: Path, directories: seq<Path>,
                   ghost was: Nodes, ghost unsure: bool)
    returns (success: bool, directories': seq<Path>, current: Option<Path>, ghost ahead: set<Path>)
    requires traversal.fs == fs && traversal.Valid() && traversal.Yields(c)
    requires Deleting(was, fs.nodes, path, directories, traversal.Remaining() + {c}, true, unsure)
    requires !unsure ==> traversal.Reliable() && Steady(was, path, traversal.route)
    requires Cutting(was, fs.nodes, path, traversal.route, fs.mayFail, traversal.Remaining() + {c}, true)
    requires !fs.refused
    modifies fs`nodes, fs`refused, traversal
    ensures fs.refused == !success
    ensures traversal.Valid() && ahead == traversal.Remaining() + Ahead(current) && ahead <= old(traversal.Remaining())
    ensures current.Some? ==> traversal.Yields(current.value)
    ensures Deleting(was, fs.nodes, path, directories', ahead, success, unsure)
    ensures path in old(fs.nodes) && old(fs.nodes)[path] == Directory ==> path in fs.nodes
    ensures !unsure ==> traversal.Reliable() && (current.None? ==> ahead == {})
    ensures Cutting(was, fs.nodes, path, traversal.route, fs.mayFail, ahead, success && current.Some?)
  {
    ghost var remaining, nodes := traversal.Remaining(), fs.nodes;
    success, directories' := Visit(fs, traversal, c, directories);
    VisitKeepsDeleting(was, nodes, fs.nodes, path, directories, directories', remaining, c, success, unsure);
    if !unsure {
      SteadyStays(was, fs.nodes, path, traversal.route);
    }
    current, ahead := Advance(traversal);
    FewerAhead(was, fs.nodes, path, directories', remaining, ahead, success, unsure);
  }

  /** The first loop: unlink what is no directory, stack what is. */
  method UnlinkAll(fs: FileSystem, path: Path, route: Route) returns (success: bool, directories: seq<Path>)
    requires IsTree(fs.nodes) && path in fs.nodes && fs.nodes[path] == Directory
    requires !fs.refused
    modifies fs`nodes, fs`refused
    ensures fs.refused == !success
    ensures IsTree(fs.nodes) && OnlyRemovesUnder(old(fs.nodes), fs.nodes, path)
    ensures success ==> Stacked(fs.nodes, path, directories, {})
    ensures path in fs.nodes && DirectoriesStay(old(fs.nodes), fs.nodes)
    ensures !fs.mayFail && old(Steady(fs.nodes, path, route)) ==> success && Covered(fs.nodes, path, directories, {})
    ensures CutsItself(old(fs.nodes), path, route, fs.mayFail) ==> route.link !in fs.nodes
  {
    success := true;
    directories := [path];
    ghost var unsure, was := fs.mayFail || !Steady(fs.nodes, path, route), fs.nodes;
    var traversal := new FileEnumerator(fs, path, route);
    ghost var below := traversal.Remaining();
    StackStarts(fs.nodes, path, below);
    var current, ahead := Advance(traversal);
    FewerAhead(was, fs.nodes, path, directories, below, ahead, success, unsure);
    while success && current.Some?
      invariant traversal.fs == fs && traversal.route == route && fresh(traversal) && traversal.Valid()
      invariant ahead == traversal.Remaining() + Ahead(current)
      invariant success && current.Some? ==> traversal.Yields(current.value)
      invariant Deleting(was, fs.nodes, path, directories, ahead, success, unsure)
      invariant path in fs.nodes && fs.nodes[path] == Directory && fs.refused == !success
      invariant Cutting(was, fs.nodes, path, route, fs.mayFail, ahead, success && current.Some?)
      invariant !unsure ==> traversal.Reliable() && (current.None? ==> ahead == {})
      decreases ahead, success
    {
      success, directories, current, ahead :=
        VisitNext(fs, path, traversal, current.value, directories, was, unsure);
    }
    if success {
      FewerAhead(was, fs.nodes, path, directories, ahead, {}, success, unsure);
    }
  }

  ghost predicate Unstacking(nodes: Nodes, path: Path, stack: seq<Path>) {
    if stack == [] then path !in nodes else Stacked(nodes, path, stack, {})
  }

  lemma NotTheParent(nodes: Nodes, path: Path, stack: seq<Path>, q: Path)
    requires Stacked(nodes, path, stack, {}) && q in stack && q != []
    ensures Parent(q) != stack[|stack|-1]
  {
    var i :| 0 <= i < |stack| && stack[i] == q;
    assert i < |stack| - 1 ==> !(stack[|stack|-1] <= q);
  }

  /** A child of the top of the stack would have to be on the stack above it. */
  lemma TopIsEmpty(nodes: Nodes, path: Path, stack: seq<Path>)
    requires Stacked(nodes, path, stack, {})
    ensures path <= stack[|stack|-1] && IsDirectory(nodes, stack[|stack|-1])
    ensures Covered(nodes, path, stack, {}) ==> !HasChild(nodes, stack[|stack|-1])
  {
    if Covered(nodes, path, stack, {}) {
      forall q | q in nodes && q != []
        ensures Parent(q) != stack[|stack|-1]
      {
        if path <= q {
          NotTheParent(nodes, path, stack, q);
        }
      }
    }
  }

  lemma PopKeepsStacked(nodes: Nodes, path: Path, stack: seq<Path>)
    requires Stacked(nodes, path, stack, {})
    ensures
      var rest, top := stack[..|stack|-1], stack[|stack|-1];
      && Unstacking(nodes - {top}, path, rest)
      && (Covered(nodes, path, stack, {}) ==> Covered(nodes - {top}, path, rest, {}))
  {
    var rest, top := stack[..|stack|-1], stack[|stack|-1];
    assert forall i :: 0 <= i < |rest| ==> rest[i] == stack[i];
    assert forall q :: q in stack ==> q in rest || q == top;
  }

  /** The root alone is left of everything under it. */
  ghost predicate Emptied(nodes: Nodes, path: Path) {
    path in nodes && forall q :: q in nodes && path <= q ==> q == path
  }

  /** How far the second loop has come when no call can fail: it stops only at the link. */
  ghost predicate Removing(nodes: Nodes, path: Path, route: Route, stack: seq<Path>, success: bool) {
    if success then Covered(nodes, path, stack, {}) else IsLinkItself(route, path) && Emptied(nodes, path)
  }

  /** What is left when the bottom of the stack cannot be removed. */
  lemma LinkStopsRemoval(nodes: Nodes, path: Path, route: Route, stack: seq<Path>)
    requires Stacked(nodes, path, stack, {}) && Covered(nodes, path, stack, {})
    requires IsLinkItself(route, path) && stack[|stack|-1] == path
    ensures Emptied(nodes, path)
  {
    assert |stack| == 1;
  }

  /** The body of the second loop. */
  method RemoveTop(fs: FileSystem, path: Path, route: Route, stack: seq<Path>)
    returns (success: bool, rest: seq<Path>)
    requires IsTree(fs.nodes) && Stacked(fs.nodes, path, stack, {})
    requires route.Through? ==> route.target == path
    requires !fs.refused
    modifies fs`nodes, fs`refused
    ensures fs.refused == !success
    ensures rest == stack[..|stack|-1] && IsTree(fs.nodes)
    ensures fs.nodes == if success then old(fs.nodes) - {stack[|stack|-1]} else old(fs.nodes)
    ensures path <= stack[|stack|-1]
    ensures success ==> Unstacking(fs.nodes, path, rest) && (rest == [] ==> route.Direct?)
    ensures success ==> IsOpen(old(fs.nodes), route)
    ensures !fs.mayFail && IsOpen(old(fs.nodes), route) && Covered(old(fs.nodes), path, stack, {}) ==>
              Removing(fs.nodes, path, route, rest, success)
  {
    ghost var nodes := fs.nodes;
    TopIsEmpty(nodes, path, stack);
    PopKeepsStacked(nodes, path, stack);
    var dir := stack[|stack|-1];
    rest := stack[..|stack|-1];
    success := fs.Rmdir(dir, route);
    if success {
      RemoveKeepsTree(nodes, dir);
      assert rest == [] ==> dir == path;
    } else if Covered(nodes, path, stack, {}) && IsLinkItself(route, dir) {
      LinkStopsRemoval(nodes, path, route, stack);
    }
  }

  /** The second loop: remove the directories, last found first. */
  method RemoveDirectories(fs: FileSystem, path: Path, route: Route, directories: seq<Path>, ghost was: Nodes)
    returns (success: bool)
    requires IsTree(fs.nodes) && OnlyRemovesUnder(was, fs.nodes, path) && Stacked(fs.nodes, path, directories, {})
    requires route.Through? ==> route.target == path
    requires !fs.refused
    modifies fs`nodes, fs`refused
    ensures fs.refused == !success
    ensures IsTree(fs.nodes) && OnlyRemovesUnder(was, fs.nodes, path)
    ensures success ==> path !in fs.nodes
    ensures route.Through? ==> !success && path in fs.nodes
    ensures !IsOpen(old(fs.nodes), route) ==> fs.nodes == old(fs.nodes)
    ensures !fs.mayFail && Steady(was, path, route) && Covered(old(fs.nodes), path, directories, {}) ==>
              if route.Direct? then success else Emptied(fs.nodes, path)
  {
    success := true;
    var stack := directories;
    ghost var sure := !fs.mayFail && Steady(was, path, route) && Covered(fs.nodes, path, directories, {});
    while success && stack != []
      invariant IsTree(fs.nodes) && OnlyRemovesUnder(was, fs.nodes, path) && fs.refused == !success
      invariant success ==> Unstacking(fs.nodes, path, stack)
      invariant route.Through? ==> path in fs.nodes && (success ==> stack != [])
      invariant sure ==> Removing(fs.nodes, path, route, stack, success)
      invariant !IsOpen(old(fs.nodes), route) ==> fs.nodes == old(fs.nodes)
      decreases |stack|, success
    {
      RemoveOneMore(was, fs.nodes, path, stack[|stack|-1]);
      if sure {
        SteadyStays(was, fs.nodes, path, route);
      }
      success, stack := RemoveTop(fs, path, route, stack);
    }
  }

  /** What may go: the node itself and, through a link, what is inside its target. */
  ghost predicate OnlyRemovesBehind(was: Nodes, now: Nodes, path: Path) {
    && (forall q :: q in now ==> q in was && now[q] == was[q])
    && (forall q :: q in was && !(path <= q) && !(Follow(was, path) < q) ==> q in now)
  }

  lemma BehindIs(was: Nodes, now: Nodes, path: Path)
    requires OnlyRemovesUnder(was, now, Follow(was, path)) && (Follow(was, path) in now || Follow(was, path) == path)
    ensures OnlyRemovesBehind(was, now, path)
  {
    var target := Follow(was, path);
    forall q | q in was && !(path <= q) && !(target < q)
      ensures q in now
    {
      assert target <= q ==> q == target;
    }
  }

  /** A link is removed where it leads to no directory, and is taken for removed where it
      leads nowhere; a directory that it leads to is emptied and stays.  A link that is
      inside that directory goes itself, and from then on nothing else can go: all
      directories stay, with whatever comes after the link in the traversal. */
  ghost predicate DeletesLink(was: Nodes, now: Nodes, path: Path, recursive: bool, mayFail: bool, ok: bool)
    requires path in was && was[path].Link?
  {
    var target := was[path].target;
    if target !in was then now == was && (!mayFail ==> ok)
    else if was[target] != Directory then now == (if ok then was - {path} else was) && (!mayFail ==> ok)
    else
      && !ok && target in now && (!recursive ==> now == was)
      && (recursive && !mayFail && !(target <= path) ==> now == map q | q in was && !(target < q) :: was[q])
      && (recursive && !mayFail && target <= path ==> path !in now && DirectoriesStay(was, now))
  }

  lemma EmptiedIs(was: Nodes, now: Nodes, target: Path)
    requires OnlyRemovesUnder(was, now, target) && Emptied(now, target)
    ensures now == map q | q in was && !(target < q) :: was[q]
  {
    forall q | q in was && !(target < q)
      ensures q in now
    {
      assert target <= q ==> q == target;
    }
  }

  /** The part of Delete that takes one call. */
  method DeleteOne(fs: FileSystem, path: Path, isDirectory: bool) returns (ok: bool)
    requires IsTree(fs.nodes) && LinksResolved(fs.nodes) && Follow(fs.nodes, path) in fs.nodes
    requires path in fs.nodes && isDirectory == (fs.nodes[Follow(fs.nodes, path)] == Directory)
    requires !fs.refused
    modifies fs`nodes, fs`refused
    ensures fs.refused == !ok
    ensures IsTree(fs.nodes)
    ensures ok ==> fs.nodes == old(fs.nodes) - {path} == Without(old(fs.nodes), path)
    ensures ok ==> old(fs.nodes)[path].Link? ==> !isDirectory
    ensures !ok ==> fs.nodes == old(fs.nodes)
    ensures !fs.mayFail ==>
              (ok <==> old(fs.nodes)[path] == Leaf || (old(fs.nodes)[path].Link? && !isDirectory)
                       || (old(fs.nodes)[path] == Directory && !HasChild(old(fs.nodes), path)))
  {
    ghost var nodes := fs.nodes;
    if !isDirectory {
      ok := fs.Unlink(path, Direct);
    } else {
      ok := fs.Rmdir(path, Direct);
    }
    if ok {
      RemoveKeepsTree(nodes, path);
      RootGone(nodes, fs.nodes, path);
    }
  }

  /** The part of Delete that takes the two loops. */
  method DeleteAll(fs: FileSystem, path: Path) returns (ok: bool)
    requires IsTree(fs.nodes) && LinksResolved(fs.nodes) && !fs.refused
    requires path in fs.nodes && Follow(fs.nodes, path) in fs.nodes && fs.nodes[Follow(fs.nodes, path)] == Directory
    modifies fs`nodes, fs`refused
    ensures fs.refused == !ok
    ensures IsTree(fs.nodes) && OnlyRemovesBehind(old(fs.nodes), fs.nodes, path)
    ensures old(fs.nodes)[path].Link? ==> DeletesLink(old(fs.nodes), fs.nodes, path, true, fs.mayFail, ok)
    ensures !old(fs.nodes)[path].Link? ==>
              (ok ==> fs.nodes == Without(old(fs.nodes), path)) && (!fs.mayFail ==> ok)
  {
    ghost var nodes := fs.nodes;
    var target := Follow(fs.nodes, path);
    var route := if fs.nodes[path].Link? then Through(path, target) else Direct;
    var directories;
    ok, directories := UnlinkAll(fs, target, route);
    if ok {
      ok := RemoveDirectories(fs, target, route, directories, nodes);
    }
    BehindIs(nodes, fs.nodes, path);
    if ok {
      RootGone(nodes, fs.nodes, path);
    }
    if route.Through? && Emptied(fs.nodes, target) {
      EmptiedIs(nodes, fs.nodes, target);
    }
  }

  method Delete(fs: FileSystem, path: Path, recursive: bool) returns (ok: bool)
    requires IsTree(fs.nodes) && LinksResolved(fs.nodes)
    modifies fs`nodes, fs`refused
    ensures (fs.refused ==> !ok) && (!ok && !recursive ==> fs.nodes == old(fs.nodes))
    ensures IsTree(fs.nodes) && OnlyRemovesBehind(old(fs.nodes), fs.nodes, path)
    ensures path in old(fs.nodes) && old(fs.nodes)[path].Link? ==>
              DeletesLink(old(fs.nodes), fs.nodes, path, recursive, fs.mayFail, ok)
    ensures !(path in old(fs.nodes) && old(fs.nodes)[path].Link?) && ok ==>
              fs.nodes == Without(old(fs.nodes), path)
    ensures !(path in old(fs.nodes) && old(fs.nodes)[path].Link?) && !fs.mayFail ==>
              (ok <==> recursive || path !in old(fs.nodes) || old(fs.nodes)[path] == Leaf
                       || !HasChild(old(fs.nodes), path))
  {
    ghost var nodes := fs.nodes;
    fs.refused := false;
    var found, missing, isDirectory := fs.Stat(path);
    if !found {
      if missing && path !in nodes {
        RootGone(nodes, fs.nodes, path);
      }
      return missing;
    }
    if !isDirectory || !recursive {
      ok := DeleteOne(fs, path, isDirectory);
      return;
    }
    ok := DeleteAll(fs, path);
  }
}
