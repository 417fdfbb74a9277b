/**
 What the calls specified in `ShuffleSpec` achieve: the simultaneous assignment,
 exactly when it is achieved, and how often and when descriptors are closed.
 */
module ShuffleOutcome {
  import opened Common
  import opened ShuffleSpec

  ghost predicate IsDest(arcs: seq<Arc>, fd: int) {
    exists p :: 0 <= p < |arcs| && arcs[p].dest == fd
  }

  ghost predicate AsksToClose(arcs: seq<Arc>, fd: int) {
    exists p :: 0 <= p < |arcs| && arcs[p].source == fd && arcs[p].close
  }

  /** The simultaneous assignment that the arcs describe. */
  ghost predicate Achieves(arcs: seq<Arc>, init: Table, open: Table) {
    && (forall p :: 0 <= p < |arcs| ==> Get(open, arcs[p].dest) == Get(init, arcs[p].source))
    && (forall fd :: !IsDest(arcs, fd) ==> Get(open, fd) == if AsksToClose(arcs, fd) then None else Get(init, fd))
  }

  /** An identity arc is followed by an arc from the same source, and one of the
      two has its close flag set. */
  ghost predicate ClosesIdentityAt(arcs: seq<Arc>, p: int, q: int) {
    && 0 <= p < q < |arcs| && Identity(arcs[p]) && arcs[q].source == arcs[p].source
    && (arcs[p].close || arcs[q].close)
  }

  ghost predicate ClosesIdentity(arcs: seq<Arc>) {
    exists p, q :: ClosesIdentityAt(arcs, p, q)
  }

  ghost function DuplicateCount(arcs: seq<Arc>, i: nat): nat
    requires i <= |arcs|
  {
    if i == 0 then 0 else DuplicateCount(arcs, i - 1) + if NeedsDuplicate(arcs, i - 1) then 1 else 0
  }

  lemma LastSource(arcs: seq<Arc>, fd: int, p: nat) returns (q: nat)
    requires p < |arcs| && arcs[p].source == fd
    ensures p <= q < |arcs| && arcs[q].source == fd && NoSourceIn(arcs, fd, q + 1, |arcs|)
    decreases |arcs| - p
  {
    q := p;
    if r :| p < r < |arcs| && arcs[r].source == fd {
      q := LastSource(arcs, fd, r);
    }
  }

  /** A source that is no destination is closed just when some arc asks for it. */
  lemma ClosedNonDest(arcs: seq<Arc>, fd: int)
    requires !IsDest(arcs, fd)
    ensures ClosedBy(arcs, |arcs|, fd) <==> AsksToClose(arcs, fd)
  {
    if p :| 0 <= p < |arcs| && arcs[p].source == fd && arcs[p].close {
      var q := LastSource(arcs, fd, p);
      assert OwesFor(arcs, q, q, p);
      assert ClosesSource(arcs, q);
    }
  }

  /** A destination is closed just when it is kept by an identity arc and then
      given away by a later one. */
  lemma ClosedDest(arcs: seq<Arc>, p: nat)
    requires DistinctDests(arcs) && p < |arcs|
    ensures ClosedBy(arcs, |arcs|, arcs[p].dest) <==> exists q :: ClosesIdentityAt(arcs, p, q)
  {
    var fd := arcs[p].dest;
    if ClosedBy(arcs, |arcs|, fd) {
      var q :| 0 <= q < |arcs| && ClosesSource(arcs, q) && arcs[q].source == fd;
      var r: nat :| OwesFor(arcs, q, q, r);
      assert p < q && p <= r;
      assert ClosesIdentityAt(arcs, p, if r == p then q else r);
    }
    if q :| ClosesIdentityAt(arcs, p, q) {
      var last := LastSource(arcs, fd, q);
      assert OwesFor(arcs, last, last, if arcs[p].close then p else q);
      assert ClosesSource(arcs, last);
    }
  }

  lemma DistinctMore(s: seq<int>, x: int)
    requires Distinct(s) && x !in s
    ensures Distinct(s + [x])
  {
  }

  /** Duplicates that are open at the same time have different numbers. */
  lemma TempsDiffer(arcs: seq<Arc>, temps: seq<int>, init: Table, p: nat, q: nat)
    requires DistinctDests(arcs) && p < q < |arcs| && q < |temps| && FreshTemps(arcs, temps, init, q + 1)
    requires NeedsDuplicate(arcs, p) && NeedsDuplicate(arcs, q)
    ensures temps[p] != temps[q]
  {
    HoldsClosedForm(arcs, temps, init, q, temps[p]);
    assert FreshTemp(arcs, temps, init, p) && FreshTemp(arcs, temps, init, q);
  }

  lemma {:induction false} DuplicatesOf(arcs: seq<Arc>, temps: seq<int>, init: Table, i: nat)
    requires DistinctDests(arcs) && i <= |arcs| && i <= |temps| && FreshTemps(arcs, temps, init, i)
    ensures |Duplicates(arcs, temps, i)| == DuplicateCount(arcs, i)
    ensures forall fd :: fd in Duplicates(arcs, temps, i) <==> IsTemp(arcs, temps, i, fd)
    ensures Distinct(Duplicates(arcs, temps, i))
  {
    if i > 0 {
      DuplicatesOf(arcs, temps, init, i - 1);
      if NeedsDuplicate(arcs, i - 1) {
        forall p: nat | p < i - 1 && NeedsDuplicate(arcs, p)
          ensures temps[p] != temps[i-1]
        {
          TempsDiffer(arcs, temps, init, p, i - 1);
        }
        DistinctMore(Duplicates(arcs, temps, i - 1), temps[i-1]);
      }
    }
  }

  /** All duplicates fit in the fixed buffer. */
  lemma AllRemembered(arcs: seq<Arc>, temps: seq<int>, init: Table)
    requires DistinctDests(arcs) && |temps| == |arcs| && FreshTemps(arcs, temps, init, |arcs|)
    requires DuplicateCount(arcs, |arcs|) <= MAX_EXTRA_FDS
    ensures forall fd :: fd in Remembered(Duplicates(arcs, temps, |arcs|)) <==> IsTemp(arcs, temps, |arcs|, fd)
  {
    DuplicatesOf(arcs, temps, init, |arcs|);
  }

  /** A destination that is never closed never becomes a duplicate: it stays open. */
  lemma {:induction false} DestNotTemp(arcs: seq<Arc>, temps: seq<int>, init: Table, i: nat, p: nat)
    requires DistinctDests(arcs) && p < |arcs| && i <= |arcs| && i <= |temps| && FreshTemps(arcs, temps, init, i)
    requires arcs[p].source in init && !ClosedBy(arcs, |arcs|, arcs[p].dest)
    ensures !IsTemp(arcs, temps, i, arcs[p].dest)
  {
    if i > 0 {
      DestNotTemp(arcs, temps, init, i - 1, p);
      if NeedsDuplicate(arcs, i - 1) {
        assert FreshTemp(arcs, temps, init, i - 1);
        if p < i - 1 {
          HoldsClosedForm(arcs, temps, init, i - 1, arcs[p].dest);
        }
      }
    }
  }

  /** What is duplicated into was free: closed for good, or never open. */
  lemma TempWasFree(arcs: seq<Arc>, temps: seq<int>, init: Table, fd: int)
    requires DistinctDests(arcs) && |temps| == |arcs| && FreshTemps(arcs, temps, init, |arcs|)
    requires IsTemp(arcs, temps, |arcs|, fd) && !IsDest(arcs, fd)
    ensures AsksToClose(arcs, fd) || fd !in init
  {
    var p :| 0 <= p < |arcs| && NeedsDuplicate(arcs, p) && temps[p] == fd;
    assert FreshTemp(arcs, temps, init, p);
    HoldsClosedForm(arcs, temps, init, p, fd);
    assert !IsTemp(arcs, temps, p, fd);
    if ClosedBy(arcs, p, fd) {
      assert ClosedBy(arcs, |arcs|, fd);
      ClosedNonDest(arcs, fd);
    }
  }

  // ----- the simultaneous assignment -----

  lemma DestinationsHold(arcs: seq<Arc>, temps: seq<int>, init: Table, p: nat)
    requires DistinctDests(arcs) && |temps| == |arcs| && FreshTemps(arcs, temps, init, |arcs|)
    requires p < |arcs| && arcs[p].source in init
    requires !ClosesIdentity(arcs) && DuplicateCount(arcs, |arcs|) <= MAX_EXTRA_FDS
    ensures Final(arcs, temps, init, arcs[p].dest) == Get(init, arcs[p].source)
  {
    ClosedDest(arcs, p);
    DestNotTemp(arcs, temps, init, |arcs|, p);
    AllRemembered(arcs, temps, init);
    HoldsClosedForm(arcs, temps, init, |arcs|, arcs[p].dest);
  }

  lemma OthersHold(arcs: seq<Arc>, temps: seq<int>, init: Table, fd: int)
    requires DistinctDests(arcs) && |temps| == |arcs| && FreshTemps(arcs, temps, init, |arcs|)
    requires !IsDest(arcs, fd) && DuplicateCount(arcs, |arcs|) <= MAX_EXTRA_FDS
    ensures Final(arcs, temps, init, fd) == if AsksToClose(arcs, fd) then None else Get(init, fd)
  {
    AllRemembered(arcs, temps, init);
    HoldsClosedForm(arcs, temps, init, |arcs|, fd);
    ClosedNonDest(arcs, fd);
    if IsTemp(arcs, temps, |arcs|, fd) {
      TempWasFree(arcs, temps, init, fd);
    }
  }

  /** Duplicates that keep out of the way of the arcs still to come are all it takes. */
  lemma FreshAchieves(arcs: seq<Arc>, temps: seq<int>, init: Table, open: Table)
    requires DistinctDests(arcs) && |temps| == |arcs| && FreshTemps(arcs, temps, init, |arcs|)
    requires AllOpen(arcs, init)
    requires forall fd :: Get(open, fd) == Final(arcs, temps, init, fd)
    requires !ClosesIdentity(arcs) && DuplicateCount(arcs, |arcs|) <= MAX_EXTRA_FDS
    ensures Achieves(arcs, init, open)
  {
    forall p | 0 <= p < |arcs|
      ensures Get(open, arcs[p].dest) == Get(init, arcs[p].source)
    {
      DestinationsHold(arcs, temps, init, p);
    }
    forall fd | !IsDest(arcs, fd)
      ensures Get(open, fd) == if AsksToClose(arcs, fd) then None else Get(init, fd)
    {
      OthersHold(arcs, temps, init, fd);
    }
  }

  /** The header's contract of Duplicate: no duplicate has a number that an arc names. */
  ghost predicate MeetsContract(arcs: seq<Arc>, temps: seq<int>)
    requires |arcs| <= |temps|
  {
    forall p :: 0 <= p < |arcs| && NeedsDuplicate(arcs, p) ==> temps[p] !in Named(arcs)
  }

  lemma NamedIff(arcs: seq<Arc>, fd: int)
    ensures fd in Named(arcs) <==> IsDest(arcs, fd) || exists p :: 0 <= p < |arcs| && arcs[p].source == fd
  {
    forall p | 0 <= p < |arcs|
      ensures arcs[p].source in Named(arcs) && arcs[p].dest in Named(arcs)
    {
      assert arcs[p] in arcs;
    }
  }

  lemma NamedIsNoTemp(arcs: seq<Arc>, temps: seq<int>, fd: int)
    requires |temps| == |arcs| && MeetsContract(arcs, temps)
    ensures IsDest(arcs, fd) || AsksToClose(arcs, fd) ==> !IsTemp(arcs, temps, |arcs|, fd)
  {
    NamedIff(arcs, fd);
  }

  /** The duplicates that did not fit in the fixed buffer and are never closed. */
  ghost function Leaked(arcs: seq<Arc>, temps: seq<int>): seq<int>
    requires |arcs| == |temps|
  {
    var all := Duplicates(arcs, temps, |arcs|);
    all[|Remembered(all)|..]
  }

  lemma LeakedOrRemembered(arcs: seq<Arc>, temps: seq<int>, init: Table, fd: int)
    requires DistinctDests(arcs) && |temps| == |arcs| && FreshTemps(arcs, temps, init, |arcs|)
    ensures IsTemp(arcs, temps, |arcs|, fd)
            <==> fd in Leaked(arcs, temps) || fd in Remembered(Duplicates(arcs, temps, |arcs|))
    ensures !(fd in Leaked(arcs, temps) && fd in Remembered(Duplicates(arcs, temps, |arcs|)))
    ensures |Leaked(arcs, temps)| > 0 <==> DuplicateCount(arcs, |arcs|) > MAX_EXTRA_FDS
  {
    var all := Duplicates(arcs, temps, |arcs|);
    DuplicatesOf(arcs, temps, init, |arcs|);
    assert all == Remembered(all) + Leaked(arcs, temps);
  }

  /** The outcome at every descriptor for a delegate that meets the contract, without
      any hypothesis on close flags or on the number of duplicates. */
  lemma FinalTable(arcs: seq<Arc>, temps: seq<int>, init: Table, fd: int)
    requires DistinctDests(arcs) && |temps| == |arcs| && FreshTemps(arcs, temps, init, |arcs|)
    requires MeetsContract(arcs, temps)
    ensures forall p :: 0 <= p < |arcs| && arcs[p].dest == fd ==>
              Final(arcs, temps, init, fd)
              == if exists q :: ClosesIdentityAt(arcs, p, q) then None else Get(init, arcs[p].source)
    ensures !IsDest(arcs, fd) && fd !in Leaked(arcs, temps) ==>
              Final(arcs, temps, init, fd) == if AsksToClose(arcs, fd) then None else Get(init, fd)
    ensures fd in Leaked(arcs, temps) ==>
              !IsDest(arcs, fd) && fd !in init && Final(arcs, temps, init, fd).Some?
  {
    LeakedOrRemembered(arcs, temps, init, fd);
    NamedIsNoTemp(arcs, temps, fd);
    HoldsClosedForm(arcs, temps, init, |arcs|, fd);
    if p :| 0 <= p < |arcs| && arcs[p].dest == fd {
      ClosedDest(arcs, p);
    } else {
      ClosedNonDest(arcs, fd);
      if IsTemp(arcs, temps, |arcs|, fd) {
        TempWasFree(arcs, temps, init, fd);
      }
    }
  }

  /** With the header's contract, the in-place loops carry out the simultaneous
      assignment if and only if no identity arc is given away by a later one and no
      more than MAX_EXTRA_FDS duplicates are needed. */
  lemma AchievesExactly(arcs: seq<Arc>, temps: seq<int>, init: Table, open: Table)
    requires DistinctDests(arcs) && |temps| == |arcs| && FreshTemps(arcs, temps, init, |arcs|)
    requires MeetsContract(arcs, temps)
    requires AllOpen(arcs, init)
    requires forall fd :: Get(open, fd) == Final(arcs, temps, init, fd)
    ensures Achieves(arcs, init, open)
            <==> !ClosesIdentity(arcs) && DuplicateCount(arcs, |arcs|) <= MAX_EXTRA_FDS
  {
    if ClosesIdentity(arcs) {
      var p, q :| ClosesIdentityAt(arcs, p, q);
      FinalTable(arcs, temps, init, arcs[p].dest);
      assert Get(open, arcs[p].dest) == None;
    } else if DuplicateCount(arcs, |arcs|) > MAX_EXTRA_FDS {
      LeakedOrRemembered(arcs, temps, init, 0);
      var fd := Leaked(arcs, temps)[0];
      FinalTable(arcs, temps, init, fd);
      assert Get(open, fd).Some?;
    } else {
      FreshAchieves(arcs, temps, init, open);
    }
  }

  // ----- each close happens once, after the last use -----

  function Count(actions: seq<Action>, x: Action): nat {
    if actions == [] then 0 else (if actions[0] == x then 1 else 0) + Count(actions[1..], x)
  }

  lemma {:induction false} CountAppend(a: seq<Action>, b: seq<Action>, x: Action)
    ensures Count(a + b, x) == Count(a, x) + Count(b, x)
  {
    if a == [] {
      assert a + b == b;
    } else {
      assert (a + b)[1..] == a[1..] + b;
      CountAppend(a[1..], b, x);
    }
  }

  lemma StepCloses(arcs: seq<Arc>, temps: seq<int>, i: nat, fd: int)
    requires i < |arcs| && i < |temps|
    ensures Count(StepActions(arcs, temps, i), Closed(fd))
            == if ClosesSource(arcs, i) && arcs[i].source == fd then 1 else 0
  {
    var a := if NeedsDuplicate(arcs, i) then [Duplicated(temps[i], arcs[i].dest)] else [];
    var b := if Identity(arcs[i]) then [] else [Moved(Effective(arcs, temps, i, arcs[i].source), arcs[i].dest)];
    var c := if ClosesSource(arcs, i) then [Closed(arcs[i].source)] else [];
    assert StepActions(arcs, temps, i) == a + b + c;
    CountAppend(a + b, c, Closed(fd));
    CountAppend(a, b, Closed(fd));
  }

  lemma ClosedByStep(arcs: seq<Arc>, i: nat, fd: int)
    requires i < |arcs|
    ensures ClosedBy(arcs, i + 1, fd) <==> ClosedBy(arcs, i, fd) || (ClosesSource(arcs, i) && arcs[i].source == fd)
    ensures !(ClosedBy(arcs, i, fd) && arcs[i].source == fd)
  {
  }

  lemma {:induction false} StepsCloseOnce(arcs: seq<Arc>, temps: seq<int>, i: nat, fd: int)
    requires i <= |arcs| && i <= |temps|
    ensures Count(Steps(arcs, temps, i), Closed(fd)) == if ClosedBy(arcs, i, fd) then 1 else 0
  {
    if i > 0 {
      StepsCloseOnce(arcs, temps, i - 1, fd);
      StepCloses(arcs, temps, i - 1, fd);
      ClosedByStep(arcs, i - 1, fd);
      CountAppend(Steps(arcs, temps, i - 1), StepActions(arcs, temps, i - 1), Closed(fd));
    }
  }

  lemma {:induction false} CloseAllOnce(fds: seq<int>, fd: int)
    requires Distinct(fds)
    ensures Count(CloseAll(fds), Closed(fd)) == if fd in fds then 1 else 0
  {
    if |fds| > 0 {
      var last := |fds| - 1;
      assert fds == fds[..last] + [fds[last]];
      assert CloseAll(fds) == CloseAll(fds[..last]) + [Closed(fds[last])];
      CloseAllOnce(fds[..last], fd);
      CountAppend(CloseAll(fds[..last]), [Closed(fds[last])], Closed(fd));
    }
  }

  /** Over a whole successful call: a descriptor that is no destination is closed once
      if it has to go, and once more for a remembered duplicate of its number. */
  lemma ClosedExactlyOnce(arcs: seq<Arc>, temps: seq<int>, init: Table, fd: int)
    requires DistinctDests(arcs) && |temps| == |arcs| && FreshTemps(arcs, temps, init, |arcs|)
    requires !IsDest(arcs, fd)
    ensures
      var extra := Remembered(Duplicates(arcs, temps, |arcs|));
      Count(Steps(arcs, temps, |arcs|) + CloseAll(extra), Closed(fd))
      == (if AsksToClose(arcs, fd) then 1 else 0) + (if fd in extra then 1 else 0)
  {
    var steps, extra := Steps(arcs, temps, |arcs|), Remembered(Duplicates(arcs, temps, |arcs|));
    CountAppend(steps, CloseAll(extra), Closed(fd));
    DuplicatesOf(arcs, temps, init, |arcs|);
    StepsCloseOnce(arcs, temps, |arcs|, fd);
    CloseAllOnce(extra, fd);
    ClosedNonDest(arcs, fd);
  }

  function ReadBy(action: Action): Option<int> {
    match action
    case Duplicated(_, from) => Some(from)
    case Moved(src, _) => Some(src)
    case Closed(_) => None
  }

  /** The last thing that happened to `fd` was that it was closed. */
  predicate LastClosed(actions: seq<Action>, fd: int) {
    if actions == [] then false
    else
      match actions[|actions|-1]
      case Closed(x) => x == fd || LastClosed(actions[..|actions|-1], fd)
      case Duplicated(x, _) => x != fd && LastClosed(actions[..|actions|-1], fd)
      case Moved(_, x) => x != fd && LastClosed(actions[..|actions|-1], fd)
  }

  /** No Move and no Duplicate reads a descriptor that has been closed. */
  predicate NeverReadsClosed(actions: seq<Action>) {
    if actions == [] then true
    else
      var before, last := actions[..|actions|-1], actions[|actions|-1];
      NeverReadsClosed(before) && (ReadBy(last).Some? ==> !LastClosed(before, ReadBy(last).value))
  }

  lemma OneMore(actions: seq<Action>, action: Action, fd: int)
    ensures LastClosed(actions + [action], fd)
            == if action == Closed(fd) then true
               else (action.Closed? || (action.Duplicated? && action.result != fd)
                     || (action.Moved? && action.dest != fd))
                    && LastClosed(actions, fd)
    ensures NeverReadsClosed(actions + [action])
            == (NeverReadsClosed(actions) && (ReadBy(action).Some? ==> !LastClosed(actions, ReadBy(action).value)))
  {
    assert (actions + [action])[..|actions|] == actions;
  }

  /** Closed before step i and not handed out again since. */
  ghost predicate ClosedUntil(arcs: seq<Arc>, temps: seq<int>, i: nat, fd: int)
    requires i <= |arcs| && i <= |temps|
  {
    exists r :: 0 <= r < i && ClosesSource(arcs, r) && arcs[r].source == fd
                && forall p :: r < p < i && NeedsDuplicate(arcs, p) ==> temps[p] != fd
  }

  lemma ClosedUntilMore(arcs: seq<Arc>, temps: seq<int>, i: nat, fd: int)
    requires i < |arcs| && i < |temps|
    ensures ClosesSource(arcs, i) && arcs[i].source == fd ==> ClosedUntil(arcs, temps, i + 1, fd)
    ensures ClosedUntil(arcs, temps, i, fd) && !(NeedsDuplicate(arcs, i) && temps[i] == fd) ==>
              ClosedUntil(arcs, temps, i + 1, fd)
  {
  }

  /** Step i reads nothing that has been closed and not handed out again. */
  lemma StepReadsOpen(arcs: seq<Arc>, temps: seq<int>, init: Table, i: nat, fd: int)
    requires DistinctDests(arcs) && i < |arcs| && i < |temps| && FreshTemps(arcs, temps, init, i)
    requires ClosedUntil(arcs, temps, i, fd)
    ensures arcs[i].dest != fd && Effective(arcs, temps, i, arcs[i].source) != fd
  {
    EffectiveCases(arcs, temps, i, arcs[i].source);
    var r :| 0 <= r < i && ClosesSource(arcs, r) && arcs[r].source == fd
             && forall p :: r < p < i && NeedsDuplicate(arcs, p) ==> temps[p] != fd;
    if Overwritten(arcs, i, arcs[i].source) {
      var p :| 0 <= p < i && !Identity(arcs[p]) && arcs[p].dest == arcs[i].source;
      assert NeedsDuplicate(arcs, p);
      assert FreshTemp(arcs, temps, init, p);
    }
  }

  lemma ThreeParts(before: seq<Action>, a: seq<Action>, b: seq<Action>, c: seq<Action>)
    ensures before + (a + b + c) == ((before + a) + b) + c
  {
  }

  lemma MaybeOne(before: seq<Action>, more: seq<Action>, fd: int)
    requires |more| <= 1
    ensures more == [] ==> before + more == before
    ensures more != [] ==>
              && (LastClosed(before + more, fd)
                  == if more[0] == Closed(fd) then true
                     else (more[0].Closed? || (more[0].Duplicated? && more[0].result != fd)
                           || (more[0].Moved? && more[0].dest != fd))
                          && LastClosed(before, fd))
              && (NeverReadsClosed(before + more)
                  == (NeverReadsClosed(before)
                      && (ReadBy(more[0]).Some? ==> !LastClosed(before, ReadBy(more[0]).value))))
  {
    if more != [] {
      assert more == [more[0]];
      OneMore(before, more[0], fd);
    }
  }

  /** What step i does to the two properties, its at most three calls one by one. */
  lemma StepActionsMore(before: seq<Action>, arcs: seq<Arc>, temps: seq<int>, i: nat, fd: int)
    requires i < |arcs| && i < |temps|
    ensures LastClosed(before + StepActions(arcs, temps, i), fd) ==>
              || (ClosesSource(arcs, i) && arcs[i].source == fd)
              || (LastClosed(before, fd) && !(NeedsDuplicate(arcs, i) && temps[i] == fd))
    ensures NeverReadsClosed(before) && !LastClosed(before, arcs[i].dest)
            && !LastClosed(before, Effective(arcs, temps, i, arcs[i].source)) ==>
              NeverReadsClosed(before + StepActions(arcs, temps, i))
  {
    var source := Effective(arcs, temps, i, arcs[i].source);
    var a := if NeedsDuplicate(arcs, i) then [Duplicated(temps[i], arcs[i].dest)] else [];
    var b := if Identity(arcs[i]) then [] else [Moved(source, arcs[i].dest)];
    var c := if ClosesSource(arcs, i) then [Closed(arcs[i].source)] else [];
    ThreeParts(before, a, b, c);
    MaybeOne(before, a, fd);
    MaybeOne(before + a, b, fd);
    MaybeOne((before + a) + b, c, fd);
    MaybeOne(before, a, source);
  }

  lemma LastClosedBefore(arcs: seq<Arc>, temps: seq<int>, i: nat, fd: int)
    requires i < |arcs| && i < |temps| && LastClosed(Steps(arcs, temps, i + 1), fd)
    ensures || (ClosesSource(arcs, i) && arcs[i].source == fd)
            || (LastClosed(Steps(arcs, temps, i), fd) && !(NeedsDuplicate(arcs, i) && temps[i] == fd))
  {
    StepActionsMore(Steps(arcs, temps, i), arcs, temps, i, fd);
  }

  /** What was closed last in the calls made so far has not been handed out since. */
  lemma {:induction false} LastClosedIs(arcs: seq<Arc>, temps: seq<int>, i: nat, fd: int)
    requires i <= |arcs| && i <= |temps| && LastClosed(Steps(arcs, temps, i), fd)
    ensures i > 0 && ClosedUntil(arcs, temps, i, fd)
  {
    if i == 0 {
      assert false;
    } else {
      LastClosedBefore(arcs, temps, i - 1, fd);
      ClosedUntilMore(arcs, temps, i - 1, fd);
      if !(ClosesSource(arcs, i - 1) && arcs[i-1].source == fd) {
        LastClosedIs(arcs, temps, i - 1, fd);
      }
    }
  }

  lemma StepNeverReads(arcs: seq<Arc>, temps: seq<int>, init: Table, i: nat, fd: int)
    requires DistinctDests(arcs) && i < |arcs| && i < |temps| && FreshTemps(arcs, temps, init, i)
    requires fd == arcs[i].dest || fd == Effective(arcs, temps, i, arcs[i].source)
    ensures !LastClosed(Steps(arcs, temps, i), fd)
  {
    if LastClosed(Steps(arcs, temps, i), fd) {
      LastClosedIs(arcs, temps, i, fd);
      StepReadsOpen(arcs, temps, init, i, fd);
    }
  }

  /** After a source has been closed, no Move and no Duplicate reads it, unless its
      number has been handed out again as a duplicate. */
  lemma {:induction false} ClosedAfterLastUse(arcs: seq<Arc>, temps: seq<int>, init: Table, i: nat)
    requires DistinctDests(arcs) && i <= |arcs| && i <= |temps| && FreshTemps(arcs, temps, init, i)
    ensures NeverReadsClosed(Steps(arcs, temps, i))
  {
    if i > 0 {
      ClosedAfterLastUse(arcs, temps, init, i - 1);
      StepNeverReads(arcs, temps, init, i - 1, arcs[i-1].dest);
      StepNeverReads(arcs, temps, init, i - 1, Effective(arcs, temps, i - 1, arcs[i-1].source));
      StepActionsMore(Steps(arcs, temps, i - 1), arcs, temps, i - 1, 0);
    }
  }

  lemma {:induction false} ClosingReadsNothing(actions: seq<Action>, fds: seq<int>)
    requires NeverReadsClosed(actions)
    ensures NeverReadsClosed(actions + CloseAll(fds))
  {
    if fds == [] {
      assert actions + CloseAll(fds) == actions;
    } else {
      var init, last := fds[..|fds|-1], fds[|fds|-1];
      ClosingReadsNothing(actions, init);
      Associative(actions, CloseAll(init), [Closed(last)]);
      assert CloseAll(fds) == CloseAll(init) + [Closed(last)];
      OneMore(actions + CloseAll(init), Closed(last), last);
    }
  }

  /** What the calls of a whole run do to descriptors: none is read after it has been closed,
      and one that is no destination is closed once if some arc asks for it and once more if
      a remembered duplicate has its number. */
  ghost predicate ClosesInOrder(arcs: seq<Arc>, remembered: seq<int>, actions: seq<Action>) {
    && NeverReadsClosed(actions)
    && (forall fd :: !IsDest(arcs, fd) ==>
          Count(actions, Closed(fd)) == (if AsksToClose(arcs, fd) then 1 else 0) + (if fd in remembered then 1 else 0))
  }

  lemma WholeClosesInOrder(arcs: seq<Arc>, temps: seq<int>, init: Table)
    requires DistinctDests(arcs) && |temps| == |arcs| && FreshTemps(arcs, temps, init, |arcs|)
    ensures
      var extra := Remembered(Duplicates(arcs, temps, |arcs|));
      ClosesInOrder(arcs, extra, Steps(arcs, temps, |arcs|) + CloseAll(extra))
  {
    var extra := Remembered(Duplicates(arcs, temps, |arcs|));
    ClosedAfterLastUse(arcs, temps, init, |arcs|);
    ClosingReadsNothing(Steps(arcs, temps, |arcs|), extra);
    forall fd | !IsDest(arcs, fd)
      ensures Count(Steps(arcs, temps, |arcs|) + CloseAll(extra), Closed(fd))
              == (if AsksToClose(arcs, fd) then 1 else 0) + (if fd in extra then 1 else 0)
    {
      ClosedExactlyOnce(arcs, temps, init, fd);
    }
  }
}
