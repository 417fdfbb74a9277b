/**
 base/file_descriptor_shuffle, the specification.  No arc is ever rewritten here:
 the functions say, from the original arcs alone, which descriptor step i moves
 from (`Effective`), when it closes its source (`ClosesSource`), which calls it
 makes (`StepActions`) and what every descriptor holds afterwards (`Holds`).
 */
module ShuffleSpec {
  import opened Common

  /** An open file; a descriptor is a number that refers to one. */
  datatype File = File(id: nat)

  type Table = map<int, File>

  datatype Arc = Arc(source: int, dest: int, close: bool)

  datatype Action =
    | Duplicated(result: int, fd: int)
    | Moved(src: int, dest: int)
    | Closed(fd: int)

  const MAX_EXTRA_FDS: nat := 16

  // ----- specification, from the original arcs -----

  ghost predicate DistinctDests(arcs: seq<Arc>) {
    forall i, j :: 0 <= i < j < |arcs| ==> arcs[i].dest != arcs[j].dest
  }

  ghost predicate AllOpen(arcs: seq<Arc>, init: Table) {
    forall k :: 0 <= k < |arcs| ==> arcs[k].source in init
  }

  predicate Identity(arc: Arc) {
    arc.source == arc.dest
  }

  function Named(arcs: seq<Arc>): set<int> {
    (set arc | arc in arcs :: arc.source) + (set arc | arc in arcs :: arc.dest)
  }

  /** Step p copies its destination away first: a later arc still reads it. */
  ghost predicate NeedsDuplicate(arcs: seq<Arc>, p: nat)
    requires p < |arcs|
  {
    !Identity(arcs[p]) && exists k :: p < k < |arcs| && arcs[k].source == arcs[p].dest
  }

  /** Where the file first held at `fd` is to be read after i steps.
      `temps[p]` is the number that step p obtained from Duplicate, or -1. */
  function Effective(arcs: seq<Arc>, temps: seq<int>, i: nat, fd: int): int
    requires i <= |arcs| && i <= |temps|
  {
    if i == 0 then fd
    else if !Identity(arcs[i-1]) && arcs[i-1].dest == fd then temps[i-1]
    else Effective(arcs, temps, i - 1, fd)
  }

  /** An earlier, non-identity arc overwrote `fd`. */
  ghost predicate Overwritten(arcs: seq<Arc>, i: nat, fd: int)
    requires i <= |arcs|
  {
    exists p :: 0 <= p < i && !Identity(arcs[p]) && arcs[p].dest == fd
  }

  ghost predicate NoDestIn(arcs: seq<Arc>, fd: int, lo: int, hi: int)
    requires 0 <= lo && hi <= |arcs|
  {
    forall q :: lo <= q < hi ==> arcs[q].dest != fd
  }

  ghost predicate NoSourceIn(arcs: seq<Arc>, fd: int, lo: int, hi: int)
    requires 0 <= lo && hi <= |arcs|
  {
    forall q :: lo <= q < hi ==> arcs[q].source != fd
  }

  /** Before step i, arc k owes the close that arc p asked for. */
  ghost predicate OwesFor(arcs: seq<Arc>, i: nat, k: nat, p: nat)
    requires i <= k < |arcs|
  {
    && p <= k && arcs[p].source == arcs[k].source && arcs[p].close
    && (p == k || (p < i
                   && NoDestIn(arcs, arcs[k].source, p + 1, k + 1)
                   && NoSourceIn(arcs, arcs[k].source, i, k)))
  }

  ghost predicate Owes(arcs: seq<Arc>, i: nat, k: nat)
    requires i <= k < |arcs|
  {
    !Overwritten(arcs, i, arcs[k].source) && exists p: nat :: OwesFor(arcs, i, k, p)
  }

  /** Arc k as step i finds it in the vector. */
  ghost function Rewritten(arcs: seq<Arc>, temps: seq<int>, i: nat, k: nat): Arc
    requires i <= k < |arcs| && i <= |temps|
  {
    Arc(Effective(arcs, temps, i, arcs[k].source), arcs[k].dest, Owes(arcs, i, k))
  }

  /** Arc i has neither dropped its close nor handed it on to an arc before j. */
  ghost predicate StillOwes(arcs: seq<Arc>, i: nat, j: nat)
    requires i < j <= |arcs|
  {
    && Owes(arcs, i, i)
    && NoDestIn(arcs, arcs[i].source, i + 1, j) && NoSourceIn(arcs, arcs[i].source, i + 1, j)
  }

  /** Step i ends by closing its source. */
  ghost predicate ClosesSource(arcs: seq<Arc>, i: nat)
    requires i < |arcs|
  {
    !Identity(arcs[i]) && StillOwes(arcs, i, |arcs|)
  }

  /** What descriptor `fd` holds after i steps.  Only the initial table is read. */
  ghost function Holds(arcs: seq<Arc>, temps: seq<int>, init: Table, i: nat, fd: int): Option<File>
    requires i <= |arcs| && i <= |temps|
  {
    if i == 0 then Get(init, fd)
    else
      var arc := arcs[i-1];
      if ClosesSource(arcs, i - 1) && fd == arc.source then None
      else if !Identity(arc) && fd == arc.dest then Get(init, arc.source)
      else if NeedsDuplicate(arcs, i - 1) && fd == temps[i-1] then Get(init, arc.dest)
      else Holds(arcs, temps, init, i - 1, fd)
  }

  /** The numbers obtained from Duplicate in the first i steps, in order. */
  ghost function Duplicates(arcs: seq<Arc>, temps: seq<int>, i: nat): seq<int>
    requires i <= |arcs| && i <= |temps|
  {
    if i == 0 then []
    else
      Duplicates(arcs, temps, i - 1) + (if NeedsDuplicate(arcs, i - 1) then [temps[i-1]] else [])
  }

  function Remembered(duplicates: seq<int>): seq<int> {
    if |duplicates| <= MAX_EXTRA_FDS then duplicates else duplicates[..MAX_EXTRA_FDS]
  }

  ghost function Final(arcs: seq<Arc>, temps: seq<int>, init: Table, fd: int): Option<File>
    requires |arcs| == |temps|
  {
    if fd in Remembered(Duplicates(arcs, temps, |arcs|)) then None
    else Holds(arcs, temps, init, |arcs|, fd)
  }

  /** The calls of step i. */
  ghost function StepActions(arcs: seq<Arc>, temps: seq<int>, i: nat): seq<Action>
    requires i < |arcs| && i < |temps|
  {
    (if NeedsDuplicate(arcs, i) then [Duplicated(temps[i], arcs[i].dest)] else [])
    + (if Identity(arcs[i]) then [] else [Moved(Effective(arcs, temps, i, arcs[i].source), arcs[i].dest)])
    + (if ClosesSource(arcs, i) then [Closed(arcs[i].source)] else [])
  }

  ghost function Steps(arcs: seq<Arc>, temps: seq<int>, i: nat): seq<Action>
    requires i <= |arcs| && i <= |temps|
  {
    if i == 0 then [] else Steps(arcs, temps, i - 1) + StepActions(arcs, temps, i - 1)
  }

  function CloseAll(fds: seq<int>): seq<Action> {
    seq(|fds|, k requires 0 <= k < |fds| => Closed(fds[k]))
  }

  /** The number is read or written by arc i or a later one. */
  ghost predicate NamedFrom(arcs: seq<Arc>, i: nat, fd: int) {
    exists q :: i <= q < |arcs| && (arcs[q].source == fd || arcs[q].dest == fd)
  }

  /** What step p needs of the number that Duplicate gives it: it holds nothing at the
      time, and no arc from p on names it. */
  ghost predicate FreshTemp(arcs: seq<Arc>, temps: seq<int>, init: Table, p: nat)
    requires p < |arcs| && p < |temps|
  {
    && arcs[p].dest in init && !NamedFrom(arcs, p, temps[p])
    && Holds(arcs, temps, init, p, temps[p]) == None
  }

  ghost predicate FreshTemps(arcs: seq<Arc>, temps: seq<int>, init: Table, i: nat)
    requires i <= |arcs| && i <= |temps|
  {
    forall p: nat :: p < i && NeedsDuplicate(arcs, p) ==> FreshTemp(arcs, temps, init, p)
  }

  // ----- consequences -----

  ghost predicate IsTemp(arcs: seq<Arc>, temps: seq<int>, i: nat, fd: int)
    requires i <= |arcs| && i <= |temps|
  {
    exists p :: 0 <= p < i && NeedsDuplicate(arcs, p) && temps[p] == fd
  }

  ghost predicate ClosedBy(arcs: seq<Arc>, i: nat, fd: int)
    requires i <= |arcs|
  {
    exists q :: 0 <= q < i && ClosesSource(arcs, q) && arcs[q].source == fd
  }

  /** No later step touches a duplicate. */
  lemma StepOnTemp(arcs: seq<Arc>, temps: seq<int>, init: Table, i: nat, fd: int)
    requires i < |arcs| && i < |temps| && FreshTemps(arcs, temps, init, i + 1)
    requires forall p :: 0 <= p < i && NeedsDuplicate(arcs, p) && temps[p] == fd ==>
               arcs[p].dest in init && Holds(arcs, temps, init, i, fd) == Get(init, arcs[p].dest)
    ensures forall p :: 0 <= p < i + 1 && NeedsDuplicate(arcs, p) && temps[p] == fd ==>
              arcs[p].dest in init && Holds(arcs, temps, init, i + 1, fd) == Get(init, arcs[p].dest)
  {
    forall p | 0 <= p < i + 1 && NeedsDuplicate(arcs, p) && temps[p] == fd
      ensures arcs[p].dest in init && Holds(arcs, temps, init, i + 1, fd) == Get(init, arcs[p].dest)
    {
      assert FreshTemp(arcs, temps, init, p);
      assert arcs[i].source != fd && arcs[i].dest != fd;
      assert NeedsDuplicate(arcs, i) ==> FreshTemp(arcs, temps, init, i);
    }
  }

  lemma StepOnOther(arcs: seq<Arc>, temps: seq<int>, init: Table, i: nat, fd: int)
    requires DistinctDests(arcs) && i < |arcs| && i < |temps| && !IsTemp(arcs, temps, i + 1, fd)
    ensures Holds(arcs, temps, init, i + 1, fd)
            == if ClosesSource(arcs, i) && fd == arcs[i].source then None
               else if !Identity(arcs[i]) && fd == arcs[i].dest then Get(init, arcs[i].source)
               else Holds(arcs, temps, init, i, fd)
    ensures !IsTemp(arcs, temps, i, fd)
    ensures ClosedBy(arcs, i + 1, fd) <==> ClosedBy(arcs, i, fd) || (ClosesSource(arcs, i) && arcs[i].source == fd)
  {
  }

  /** What a descriptor holds after i steps, without recursion: a duplicate, nothing,
      the original content of its arc's source, or its own. */
  lemma {:induction false} HoldsClosedForm(arcs: seq<Arc>, temps: seq<int>, init: Table, i: nat, fd: int)
    requires DistinctDests(arcs) && i <= |arcs| && i <= |temps| && FreshTemps(arcs, temps, init, i)
    ensures forall p :: 0 <= p < i && NeedsDuplicate(arcs, p) && temps[p] == fd ==>
              arcs[p].dest in init && Holds(arcs, temps, init, i, fd) == Get(init, arcs[p].dest)
    ensures !IsTemp(arcs, temps, i, fd) && ClosedBy(arcs, i, fd) ==> Holds(arcs, temps, init, i, fd) == None
    ensures !IsTemp(arcs, temps, i, fd) && !ClosedBy(arcs, i, fd) ==>
              && (forall p :: 0 <= p < i && arcs[p].dest == fd ==>
                    Holds(arcs, temps, init, i, fd) == Get(init, arcs[p].source))
              && (NoDestIn(arcs, fd, 0, i) ==> Holds(arcs, temps, init, i, fd) == Get(init, fd))
  {
    if i > 0 {
      HoldsClosedForm(arcs, temps, init, i - 1, fd);
      StepOnTemp(arcs, temps, init, i - 1, fd);
      if !IsTemp(arcs, temps, i, fd) {
        StepOnOther(arcs, temps, init, i - 1, fd);
      }
    }
  }

  lemma {:induction false} EffectiveCases(arcs: seq<Arc>, temps: seq<int>, i: nat, fd: int)
    requires DistinctDests(arcs) && i <= |arcs| && i <= |temps|
    ensures !Overwritten(arcs, i, fd) ==> Effective(arcs, temps, i, fd) == fd
    ensures forall p :: 0 <= p < i && !Identity(arcs[p]) && arcs[p].dest == fd ==>
              Effective(arcs, temps, i, fd) == temps[p]
  {
    if i > 0 {
      EffectiveCases(arcs, temps, i - 1, fd);
    }
  }

  /** An arc that is still to come keeps its source open. */
  lemma PendingNotClosed(arcs: seq<Arc>, i: nat, k: nat)
    requires i <= k < |arcs|
    ensures !ClosedBy(arcs, i, arcs[k].source) && !ClosedBy(arcs, i, arcs[k].dest)
  {
  }

  lemma PendingNotTemp(arcs: seq<Arc>, temps: seq<int>, init: Table, i: nat, k: nat)
    requires i <= k < |arcs| && i <= |temps| && FreshTemps(arcs, temps, init, i)
    ensures !IsTemp(arcs, temps, i, arcs[k].source) && !IsTemp(arcs, temps, i, arcs[k].dest)
  {
    forall p | 0 <= p < i && NeedsDuplicate(arcs, p)
      ensures temps[p] != arcs[k].source && temps[p] != arcs[k].dest
    {
      assert FreshTemp(arcs, temps, init, p);
    }
  }

  /** The source that a pending arc reads still holds that arc's original file. */
  lemma SourceSurvives(arcs: seq<Arc>, temps: seq<int>, init: Table, i: nat, k: nat)
    requires DistinctDests(arcs) && i <= k < |arcs| && i <= |temps|
    requires FreshTemps(arcs, temps, init, i)
    ensures Holds(arcs, temps, init, i, Effective(arcs, temps, i, arcs[k].source))
            == Get(init, arcs[k].source)
  {
    var s := arcs[k].source;
    EffectiveCases(arcs, temps, i, s);
    if Overwritten(arcs, i, s) {
      var p :| 0 <= p < i && !Identity(arcs[p]) && arcs[p].dest == s;
      assert NeedsDuplicate(arcs, p);
      HoldsClosedForm(arcs, temps, init, i, temps[p]);
    } else {
      PendingNotClosed(arcs, i, k);
      PendingNotTemp(arcs, temps, init, i, k);
      HoldsClosedForm(arcs, temps, init, i, s);
    }
  }

  /** The comparison of a rewritten source with a name that is still in use asks the
      original question. */
  lemma SourceMatches(arcs: seq<Arc>, temps: seq<int>, init: Table, i: nat, k: nat, fd: int)
    requires DistinctDests(arcs) && i <= k < |arcs| && i <= |temps|
    requires FreshTemps(arcs, temps, init, i) && NamedFrom(arcs, i, fd)
    ensures Effective(arcs, temps, i, arcs[k].source) == fd
            <==> arcs[k].source == fd && !Overwritten(arcs, i, fd)
  {
    EffectiveCases(arcs, temps, i, arcs[k].source);
    if Overwritten(arcs, i, arcs[k].source) {
      var p :| 0 <= p < i && !Identity(arcs[p]) && arcs[p].dest == arcs[k].source;
      assert NeedsDuplicate(arcs, p);
      assert FreshTemp(arcs, temps, init, p);
    }
  }
}
