/**
 A file system as a finite tree, and the state of a traversal over it as values.  A
 path is the sequence of names that leads to a node; everything that is not a
 directory, symbolic links included, is a leaf of the tree.
 */
module FileTree {
  import opened Common

  type Path = seq<string>

  /** A link leads to another path, where something may or may not be. */
  datatype Kind = Directory | Leaf | Link(target: Path)

  type Nodes = map<Path, Kind>

  datatype Entry = Entry(name: string, isDirectory: bool)

  /** How a name leads to its node: as it is, or through a link at its beginning. */
  datatype Route = Direct | Through(link: Path, target: Path)

  predicate IsOpen(nodes: Nodes, route: Route) {
    route.Through? ==> route.link in nodes && nodes[route.link] == Link(route.target)
  }

  predicate IsLinkItself(route: Route, p: Path) {
    route.Through? && p == route.target
  }

  /** Where stat ends up: links have been resolved as far as they go. */
  function Follow(nodes: Nodes, p: Path): Path {
    if p in nodes && nodes[p].Link? then nodes[p].target else p
  }

  ghost predicate LinksResolved(nodes: Nodes) {
    forall p :: p in nodes && nodes[p].Link? && nodes[p].target in nodes ==> !nodes[nodes[p].target].Link?
  }

  predicate IsDots(name: string) {
    name == "." || name == ".."
  }

  function Parent(p: Path): Path {
    if p == [] then [] else p[..|p|-1]
  }

  /** Every node but the root of the tree is inside a directory. */
  ghost predicate IsTree(nodes: Nodes) {
    forall p {:trigger Parent(p)} :: p in nodes && p != [] ==>
      Parent(p) in nodes && nodes[Parent(p)] == Directory && p[|p|-1] != "." && p[|p|-1] != ".."
  }

  function Children(nodes: Nodes, p: Path): set<string> {
    set q | q in nodes && |q| == |p| + 1 && p < q :: q[|p|]
  }

  predicate HasChild(nodes: Nodes, p: Path) {
    exists q {:trigger Parent(q)} :: q in nodes && q != [] && Parent(q) == p
  }

  ghost predicate Lists(entries: seq<Entry>, name: string) {
    exists i :: 0 <= i < |entries| && entries[i].name == name
  }

  lemma ListsMore(entries: seq<Entry>, e: Entry, name: string)
    ensures Lists(entries + [e], name) <==> Lists(entries, name) || e.name == name
  {
    var more := entries + [e];
    assert more[|entries|] == e;
    assert forall i :: 0 <= i < |entries| ==> more[i] == entries[i];
  }

  ghost predicate DistinctNames(entries: seq<Entry>) {
    forall i, j :: 0 <= i < j < |entries| ==> entries[i].name != entries[j].name
  }

  /** What lstat says of one entry of directory p; a failing lstat makes a directory
      look like a leaf. */
  ghost predicate EntryIsTrue(nodes: Nodes, p: Path, mayFail: bool, e: Entry) {
    !IsDots(e.name) ==>
      && p + [e.name] in nodes
      && (e.isDirectory ==> nodes[p + [e.name]] == Directory)
      && (!e.isDirectory && !mayFail ==> nodes[p + [e.name]] != Directory)
  }

  /** What reading directory p may give: each child once, in any order, and the two
      dot entries.  Reading that fails halfway looks like the end of the directory. */
  ghost predicate IsListing(nodes: Nodes, p: Path, mayFail: bool, entries: seq<Entry>) {
    && DistinctNames(entries)
    && (forall e :: e in entries ==> EntryIsTrue(nodes, p, mayFail, e))
    && (forall q {:trigger Parent(q)} :: !mayFail && q in nodes && q != [] && Parent(q) == p
          ==> Lists(entries, q[|q|-1]))
  }

  lemma ChildIs(nodes: Nodes, p: Path, n: string)
    requires IsTree(nodes) && n in Children(nodes, p)
    ensures p + [n] in nodes && !IsDots(n)
  {
    var q :| q in nodes && |q| == |p| + 1 && p < q && q[|p|] == n;
    assert q == p + [n] && Parent(q) == p;
  }

  class FileSystem {
    var nodes: Nodes
    const mayFail: bool
    /** An unlink or rmdir has failed, and nothing is to be removed any more. */
    ghost var refused: bool

    constructor (nodes: Nodes, mayFail: bool)
      ensures this.nodes == nodes && this.mayFail == mayFail && !refused
    {
      this.nodes := nodes;
      this.mayFail := mayFail;
      refused := false;
    }

    method Fails() returns (fails: bool)
      ensures !mayFail ==> !fails
    {
      fails := false;
      if mayFail {
        fails :| true;
      }
    }

    /** stat follows links; a missing node is told apart from other failures. */
    method Stat(p: Path) returns (found: bool, missing: bool, isDirectory: bool)
      ensures found ==> Follow(nodes, p) in nodes && isDirectory == (nodes[Follow(nodes, p)] == Directory)
      ensures missing ==> !found && Follow(nodes, p) !in nodes
      ensures !found && !missing ==> mayFail
    {
      var fails := Fails();
      found := !fails && Follow(nodes, p) in nodes;
      missing := !fails && Follow(nodes, p) !in nodes;
      isDirectory := found && nodes[Follow(nodes, p)] == Directory;
    }

    /** Takes links as what they are. */
    method Unlink(p: Path, route: Route) returns (ok: bool)
      requires !refused
      modifies `nodes, `refused
      ensures refused == !ok
      ensures ok ==> p in old(nodes) && old(nodes)[p] != Directory && nodes == old(nodes) - {p}
      ensures ok ==> IsOpen(old(nodes), route)
      ensures !ok ==> nodes == old(nodes)
                      && (mayFail || p !in nodes || nodes[p] == Directory || !IsOpen(nodes, route))
    {
      var fails := Fails();
      ok := !fails && p in nodes && nodes[p] != Directory && IsOpen(nodes, route);
      refused := !ok;
      if ok {
        nodes := nodes - {p};
      }
    }

    /** Only empty directories can be removed, and no links: the name that is the link of
        the route does not stand for what the link leads to. */
    method Rmdir(p: Path, route: Route) returns (ok: bool)
      requires !refused
      modifies `nodes, `refused
      ensures refused == !ok
      ensures ok ==> p in old(nodes) && old(nodes)[p] == Directory && !HasChild(old(nodes), p)
      ensures ok ==> nodes == old(nodes) - {p} && IsOpen(old(nodes), route) && !IsLinkItself(route, p)
      ensures !ok ==> nodes == old(nodes)
      ensures !ok ==> mayFail || p !in nodes || nodes[p] != Directory || HasChild(nodes, p)
                      || !IsOpen(nodes, route) || IsLinkItself(route, p)
    {
      var fails := Fails();
      ok := !fails && p in nodes && nodes[p] == Directory && !HasChild(nodes, p);
      ok := ok && IsOpen(nodes, route) && !IsLinkItself(route, p);
      refused := !ok;
      if ok {
        nodes := nodes - {p};
      }
    }

    method Pushed(entries: seq<Entry>, e: Entry, ghost p: Path) returns (more: seq<Entry>)
      requires DistinctNames(entries) && !Lists(entries, e.name)
      requires forall x :: x in entries + [e] ==> EntryIsTrue(nodes, p, mayFail, x)
      ensures DistinctNames(more) && forall x :: x in more ==> EntryIsTrue(nodes, p, mayFail, x)
      ensures forall n :: Lists(more, n) <==> Lists(entries, n) || e.name == n
    {
      more := entries + [e];
      forall n
        ensures Lists(more, n) <==> Lists(entries, n) || e.name == n
      {
        ListsMore(entries, e, n);
      }
    }

    method ReadDirectory(p: Path, route: Route) returns (ok: bool, entries: seq<Entry>)
      requires IsTree(nodes)
      ensures ok ==> p in nodes && nodes[p] == Directory && IsListing(nodes, p, mayFail, entries)
      ensures !ok ==> mayFail || p !in nodes || nodes[p] != Directory || !IsOpen(nodes, route)
    {
      var fails := Fails();
      ok := !fails && p in nodes && nodes[p] == Directory && IsOpen(nodes, route);
      entries := [Entry(".", true), Entry("..", true)];
      var todo := Children(nodes, p);
      if ok {
        forall n | n in todo
          ensures !IsDots(n)
        {
          ChildIs(nodes, p, n);
        }
      }
      while ok
        invariant todo <= Children(nodes, p)
        invariant ok ==> p in nodes && nodes[p] == Directory
        invariant DistinctNames(entries) && forall e :: e in entries ==> EntryIsTrue(nodes, p, mayFail, e)
        invariant ok ==> forall n :: n in todo ==> !Lists(entries, n)
        invariant forall n :: n in Children(nodes, p) ==> n in todo || Lists(entries, n)
        decreases todo
      {
        var stops := Fails();
        if stops {
          break;
        }
        if n :| n in todo {
          ChildIs(nodes, p, n);
          var lstatFails := Fails();
          var e := Entry(n, nodes[p + [n]] == Directory && !lstatFails);
          entries := Pushed(entries, e, p);
          todo := todo - {n};
        } else {
          break;
        }
      }
      forall q | q in nodes && q != [] && Parent(q) == p
        ensures ok && !mayFail ==> Lists(entries, q[|q|-1])
      {
        assert q[|p|] in Children(nodes, p);
      }
    }
  }

  // ----- the traversal on values -----

  /** q is entry `from` or later of the directory being listed. */
  ghost predicate Waiting(root: Path, entries: seq<Entry>, from: nat, q: Path) {
    exists i :: from <= i < |entries| && q == root + [entries[i].name]
  }

  ghost predicate BelowPending(pending: seq<Path>, q: Path) {
    exists k :: 0 <= k < |pending| && pending[k] < q
  }

  /** The nodes that the traversal has still to yield. */
  ghost function Todo(nodes: Nodes, root: Path, entries: seq<Entry>, from: nat, pending: seq<Path>): set<Path> {
    set q | q in nodes && (Waiting(root, entries, from, q) || BelowPending(pending, q))
  }

  ghost predicate IsPending(nodes: Nodes, root: Path, entries: seq<Entry>, from: nat, p: Path) {
    && p in nodes && nodes[p] == Directory
    && (forall i :: from <= i < |entries| ==> !(p < root + [entries[i].name]))
  }

  /** The subtrees still to be listed are apart from each other and from the entries
      still to be yielded. */
  ghost predicate Sound(nodes: Nodes, mayFail: bool, root: Path, entries: seq<Entry>, from: nat, pending: seq<Path>) {
    && IsTree(nodes) && DistinctNames(entries)
    && (forall i :: from <= i < |entries| ==> !IsDots(entries[i].name) && EntryIsTrue(nodes, root, mayFail, entries[i]))
    && (forall k :: 0 <= k < |pending| ==> IsPending(nodes, root, entries, from, pending[k]))
    && (forall k, l :: 0 <= k < |pending| && 0 <= l < |pending| && k != l ==> !(pending[k] <= pending[l]))
  }

  lemma WaitingMore(root: Path, entries: seq<Entry>, from: nat, q: Path)
    requires DistinctNames(entries) && from < |entries|
    ensures Waiting(root, entries, from + 1, q)
            <==> Waiting(root, entries, from, q) && q != root + [entries[from].name]
  {
    if i :| from < i < |entries| && q == root + [entries[i].name] {
      assert q[|root|] == entries[i].name != entries[from].name;
    }
  }

  lemma YieldStep(nodes: Nodes, mayFail: bool, root: Path, entries: seq<Entry>, from: nat, pending: seq<Path>)
    requires Sound(nodes, mayFail, root, entries, from, pending) && from < |entries|
    ensures
      var e, todo := root + [entries[from].name], Todo(nodes, root, entries, from, pending);
      && Sound(nodes, mayFail, root, entries, from + 1, pending)
      && e in todo && Todo(nodes, root, entries, from + 1, pending) == todo - {e}
      && (forall a :: a in todo ==> !(a < e))
  {
    var e, todo := root + [entries[from].name], Todo(nodes, root, entries, from, pending);
    assert Waiting(root, entries, from, e);
    forall k | 0 <= k < |pending|
      ensures IsPending(nodes, root, entries, from + 1, pending[k]) && !(pending[k] < e)
    {
      assert IsPending(nodes, root, entries, from, pending[k]);
    }
    forall q
      ensures Waiting(root, entries, from + 1, q) <==> Waiting(root, entries, from, q) && q != e
    {
      WaitingMore(root, entries, from, q);
    }
  }

  // ----- listing one directory -----

  function Kept(listing: seq<Entry>): seq<Entry> {
    if listing == [] then []
    else
      var init, e := Kept(listing[..|listing|-1]), listing[|listing|-1];
      if IsDots(e.name) then init else init + [e]
  }

  function Subdirectories(p: Path, listing: seq<Entry>): seq<Path> {
    if listing == [] then []
    else
      var init, e := Subdirectories(p, listing[..|listing|-1]), listing[|listing|-1];
      if IsDots(e.name) || !e.isDirectory then init else init + [p + [e.name]]
  }

  ghost predicate IsSubdirectory(p: Path, listing: seq<Entry>, q: Path) {
    && |q| == |p| + 1 && p < q
    && exists e :: e in listing && !IsDots(e.name) && e.isDirectory && q[|p|] == e.name
  }

  lemma {:induction false} KeptAre(listing: seq<Entry>)
    requires DistinctNames(listing)
    ensures forall e :: e in Kept(listing) <==> e in listing && !IsDots(e.name)
    ensures DistinctNames(Kept(listing))
  {
    if listing != [] {
      var init, e := listing[..|listing|-1], listing[|listing|-1];
      assert listing == init + [e];
      KeptAre(init);
      assert forall x :: x in init ==> x.name != e.name;
    }
  }

  lemma NotYetThere(p: Path, init: seq<Entry>, e: Entry)
    requires DistinctNames(init + [e])
    ensures !IsSubdirectory(p, init, p + [e.name])
  {
    var listing := init + [e];
    assert listing[|init|] == e && forall i :: 0 <= i < |init| ==> listing[i] == init[i];
    assert forall x :: x in init ==> x.name != e.name;
    assert (p + [e.name])[|p|] == e.name;
  }

  lemma {:induction false} SubdirectoriesAre(p: Path, listing: seq<Entry>)
    requires DistinctNames(listing)
    ensures forall q :: q in Subdirectories(p, listing) ==> IsSubdirectory(p, listing, q)
    ensures forall e :: e in listing && !IsDots(e.name) && e.isDirectory ==> p + [e.name] in Subdirectories(p, listing)
    ensures Distinct(Subdirectories(p, listing))
  {
    if listing != [] {
      var init, e := listing[..|listing|-1], listing[|listing|-1];
      assert listing == init + [e];
      SubdirectoriesAre(p, init);
      NotYetThere(p, init, e);
      assert forall q :: IsSubdirectory(p, init, q) ==> IsSubdirectory(p, listing, q);
      if !IsDots(e.name) && e.isDirectory {
        assert (p + [e.name])[|p|] == e.name;
        assert IsSubdirectory(p, listing, p + [e.name]) by { assert e in listing; }
      }
    }
  }

  lemma PrefixOfChild(p: Path, c: Path, r: Path)
    requires |c| == |p| + 1 && p < c
    ensures r <= c ==> r <= p || r == c
    ensures r < c ==> r <= p
    ensures c <= r ==> p < r
  {
    assert c[..|p|] == p;
    if r <= c && |r| <= |p| {
      assert r == c[..|r|] == p[..|r|];
    }
    if c <= r {
      assert r[..|c|] == c;
      assert r[..|p|] == c[..|p|];
    }
  }

  lemma {:induction false} AncestorInTree(nodes: Nodes, q: Path, n: nat)
    requires IsTree(nodes) && q in nodes && n <= |q|
    ensures q[..n] in nodes && (n < |q| ==> nodes[q[..n]] == Directory)
    decreases |q| - n
  {
    if n == |q| {
      assert q[..n] == q;
    } else {
      AncestorInTree(nodes, q, n + 1);
      assert Parent(q[..n+1]) == q[..n];
    }
  }

  /** A node under p is a child of p or under a subdirectory of p. */
  lemma UnderDirectory(nodes: Nodes, p: Path, q: Path)
    requires IsTree(nodes) && q in nodes && p < q
    ensures
      var c := q[..|p|+1];
      c in nodes && |c| == |p| + 1 && p < c && c <= q && (c < q ==> nodes[c] == Directory)
  {
    AncestorInTree(nodes, q, |p| + 1);
    assert q[..|p|+1][..|p|] == p;
  }

  lemma PendingAfterRead(nodes: Nodes, mayFail: bool, p: Path, listing: seq<Entry>, pending: seq<Path>, r: Path)
    requires IsListing(nodes, p, mayFail, listing)
    requires r in pending ==> r in nodes && nodes[r] == Directory && !(r <= p)
    requires r in pending || r in Subdirectories(p, listing)
    ensures IsPending(nodes, p, Kept(listing), 0, r)
  {
    if r !in pending {
      SubdirectoriesAre(p, listing);
      assert IsSubdirectory(p, listing, r);
      var e :| e in listing && !IsDots(e.name) && e.isDirectory && r[|p|] == e.name;
      assert r == p + [e.name] && EntryIsTrue(nodes, p, mayFail, e);
    }
    forall i | 0 <= i < |Kept(listing)|
      ensures !(r < p + [Kept(listing)[i].name])
    {
      PrefixOfChild(p, p + [Kept(listing)[i].name], r);
    }
  }

  lemma ApartAfterRead(p: Path, listing: seq<Entry>, pending: seq<Path>, k: nat, l: nat)
    requires DistinctNames(listing)
    requires forall i :: 0 <= i < |pending| ==> !(pending[i] <= p) && !(p <= pending[i])
    requires k < |pending + Subdirectories(p, listing)| && l < |pending + Subdirectories(p, listing)|
    requires k != l && (k >= |pending| || l >= |pending|)
    ensures
      var more := pending + Subdirectories(p, listing);
      !(more[k] <= more[l])
  {
    SubdirectoriesAre(p, listing);
    var subs := Subdirectories(p, listing);
    var more := pending + subs;
    if k >= |pending| && l >= |pending| {
      assert more[k] == subs[k - |pending|] && more[l] == subs[l - |pending|];
      assert IsSubdirectory(p, listing, more[k]) && IsSubdirectory(p, listing, more[l]);
      assert |more[k]| == |more[l]| && more[k] != more[l];
    } else if k >= |pending| {
      assert more[k] == subs[k - |pending|] && IsSubdirectory(p, listing, more[k]);
      PrefixOfChild(p, more[k], more[l]);
    } else {
      assert more[l] == subs[l - |pending|] && IsSubdirectory(p, listing, more[l]);
      PrefixOfChild(p, more[l], more[k]);
    }
  }

  /** Popping p and listing it: its children wait and its subdirectories are pending, all
      still apart from each other. */
  lemma ReadKeepsSound(nodes: Nodes, mayFail: bool, root: Path, entries: seq<Entry>, from: nat,
                       pending: seq<Path>, p: Path, listing: seq<Entry>)
    requires Sound(nodes, mayFail, root, entries, from, pending + [p]) && from >= |entries|
    requires IsListing(nodes, p, mayFail, listing)
    ensures Sound(nodes, mayFail, p, Kept(listing), 0, pending + Subdirectories(p, listing))
  {
    KeptAre(listing);
    SubdirectoriesAre(p, listing);
    var kept, more := Kept(listing), pending + Subdirectories(p, listing);
    assert (pending + [p])[|pending|] == p;
    forall k | 0 <= k < |pending|
      ensures IsPending(nodes, root, entries, from, pending[k]) && !(pending[k] <= p) && !(p <= pending[k])
    {
      assert (pending + [p])[k] == pending[k];
    }
    forall k | 0 <= k < |more|
      ensures IsPending(nodes, p, kept, 0, more[k])
    {
      PendingAfterRead(nodes, mayFail, p, listing, pending, more[k]);
    }
    forall k, l | 0 <= k < |more| && 0 <= l < |more| && k != l
      ensures !(more[k] <= more[l])
    {
      if k < |pending| && l < |pending| {
        assert (pending + [p])[k] == pending[k] && (pending + [p])[l] == pending[l];
      } else {
        ApartAfterRead(p, listing, pending, k, l);
      }
    }
  }

  lemma ReadGainsNothing(nodes: Nodes, mayFail: bool, pending: seq<Path>, p: Path, listing: seq<Entry>, q: Path)
    requires IsListing(nodes, p, mayFail, listing)
    requires q in Todo(nodes, p, Kept(listing), 0, pending + Subdirectories(p, listing))
    ensures BelowPending(pending + [p], q)
  {
    SubdirectoriesAre(p, listing);
    var kept, subs, was := Kept(listing), Subdirectories(p, listing), pending + [p];
    assert was[|pending|] == p;
    if !Waiting(p, kept, 0, q) {
      var k :| 0 <= k < |pending + subs| && (pending + subs)[k] < q;
      if k < |pending| {
        assert was[k] < q;
      } else {
        var r := subs[k - |pending|];
        assert r in subs && IsSubdirectory(p, listing, r);
        PrefixOfChild(p, r, q);
      }
    }
  }

  lemma ListedChild(nodes: Nodes, p: Path, listing: seq<Entry>, c: Path) returns (e: Entry)
    requires IsTree(nodes) && IsListing(nodes, p, false, listing) && c in nodes && |c| == |p| + 1 && p < c
    ensures e in listing && !IsDots(e.name) && c == p + [e.name] && e.isDirectory == (nodes[c] == Directory)
  {
    assert Parent(c) == p && c == p + [c[|p|]];
    var i :| 0 <= i < |listing| && listing[i].name == c[|c|-1];
    e := listing[i];
    assert EntryIsTrue(nodes, p, false, e);
  }

  /** When no lstat fails, everything under p waits or is under a subdirectory. */
  lemma ListedUnder(nodes: Nodes, p: Path, listing: seq<Entry>, q: Path)
    requires IsTree(nodes) && IsListing(nodes, p, false, listing) && q in nodes && p < q
    ensures Waiting(p, Kept(listing), 0, q) || BelowPending(Subdirectories(p, listing), q)
  {
    var c := q[..|p|+1];
    UnderDirectory(nodes, p, q);
    var e := ListedChild(nodes, p, listing, c);
    if c == q {
      KeptAre(listing);
      var kept := Kept(listing);
      assert e in kept;
      var j :| 0 <= j < |kept| && kept[j] == e;
      assert q == p + [kept[j].name];
      assert Waiting(p, kept, 0, q);
    } else {
      SubdirectoriesAre(p, listing);
      var subs := Subdirectories(p, listing);
      assert c == p + [e.name] && c in subs;
      var k :| 0 <= k < |subs| && subs[k] == c;
      assert subs[k] < q;
    }
  }

  lemma ReadLosesNothing(nodes: Nodes, root: Path, entries: seq<Entry>, from: nat,
                         pending: seq<Path>, p: Path, listing: seq<Entry>, q: Path)
    requires IsTree(nodes) && from >= |entries| && IsListing(nodes, p, false, listing)
    requires q in Todo(nodes, root, entries, from, pending + [p])
    ensures q in Todo(nodes, p, Kept(listing), 0, pending + Subdirectories(p, listing))
  {
    var subs, was := Subdirectories(p, listing), pending + [p];
    var more := pending + subs;
    var k :| 0 <= k < |was| && was[k] < q;
    if k < |pending| {
      assert more[k] < q;
    } else {
      ListedUnder(nodes, p, listing, q);
      if j :| 0 <= j < |subs| && subs[j] < q {
        assert more[|pending| + j] < q;
      }
    }
  }

  lemma RemoveKeepsTree(nodes: Nodes, p: Path)
    requires IsTree(nodes) && p in nodes && (nodes[p] != Directory || !HasChild(nodes, p))
    ensures IsTree(nodes - {p})
  {
    var now := nodes - {p};
    forall q | q in now && q != []
      ensures Parent(q) in now && now[Parent(q)] == Directory && !IsDots(q[|q|-1])
    {
      assert Parent(q) in nodes && Parent(q) != p;
    }
  }

  /** Unlinking something already yielded does not disturb the traversal. */
  lemma UnlinkKeepsSound(nodes: Nodes, mayFail: bool, root: Path, entries: seq<Entry>, from: nat,
                         pending: seq<Path>, p: Path)
    requires Sound(nodes, mayFail, root, entries, from, pending)
    requires p in nodes && nodes[p] != Directory && p !in Todo(nodes, root, entries, from, pending)
    ensures Sound(nodes - {p}, mayFail, root, entries, from, pending)
    ensures Todo(nodes - {p}, root, entries, from, pending) == Todo(nodes, root, entries, from, pending)
  {
    RemoveKeepsTree(nodes, p);
    forall i | from <= i < |entries|
      ensures EntryIsTrue(nodes - {p}, root, mayFail, entries[i])
    {
      assert EntryIsTrue(nodes, root, mayFail, entries[i]);
      assert Waiting(root, entries, from, root + [entries[i].name]);
    }
    forall k | 0 <= k < |pending|
      ensures IsPending(nodes - {p}, root, entries, from, pending[k])
    {
      assert IsPending(nodes, root, entries, from, pending[k]);
    }
  }

  function Scope(nodes: Nodes, pending: seq<Path>): set<Path> {
    set q | q in nodes && exists k :: 0 <= k < |pending| && pending[k] <= q
  }

  /** Popping a directory, whether or not its subdirectories are pushed, leaves less to
      be listed. */
  lemma ScopeShrinks(nodes: Nodes, pending: seq<Path>, p: Path, subs: seq<Path>)
    requires p in nodes && forall k :: 0 <= k < |pending| ==> !(pending[k] <= p)
    requires forall r :: r in subs ==> |r| == |p| + 1 && p < r
    ensures Scope(nodes, pending + subs) < Scope(nodes, pending + [p])
  {
    var was, now := pending + [p], pending + subs;
    assert was[|pending|] == p;
    forall q | q in Scope(nodes, now)
      ensures q in Scope(nodes, was)
    {
      var k :| 0 <= k < |now| && now[k] <= q;
      if k < |pending| {
        assert was[k] <= q;
      } else {
        assert now[k] == subs[k - |pending|];
        PrefixOfChild(p, now[k], q);
      }
    }
    assert p in Scope(nodes, was);
    assert forall k :: 0 <= k < |now| ==> !(now[k] <= p);
  }

  lemma StartIsSound(nodes: Nodes, mayFail: bool, root: Path)
    requires IsTree(nodes) && root in nodes && nodes[root] == Directory
    ensures Sound(nodes, mayFail, root, [], 1, [root])
    ensures Todo(nodes, root, [], 1, [root]) == set q | q in nodes && root < q
  {
    forall q
      ensures BelowPending([root], q) <==> root < q
    {
      assert root < q ==> [root][0] < q;
    }
  }

  lemma ExhaustedIsSound(nodes: Nodes, mayFail: bool, root: Path, entries: seq<Entry>, from: nat)
    requires Sound(nodes, mayFail, root, entries, from, []) && from >= |entries|
    ensures Sound(nodes, mayFail, root, entries, from + 1, [])
    ensures Todo(nodes, root, entries, from, []) == {} == Todo(nodes, root, entries, from + 1, [])
  {
  }
}
