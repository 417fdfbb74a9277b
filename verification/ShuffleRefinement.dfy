/**
 The loops of base/file_descriptor_shuffle, which rewrite the arcs still to come, do what
 `ShuffleSpec` says from the original arcs, as long as no duplicate has a number that the
 arcs still to come name.
 */
module ShuffleRefinement {
  import opened Common
  import opened ShuffleRun
  import opened ShuffleSpec

  // ----- one pass over the pending arcs -----

  /** One inner iteration at j brings arc j from its state before step i to its
      state before step i + 1, given that arc i still owes its close at j. */
  lemma OwesStep(arcs: seq<Arc>, i: nat, j: nat)
    requires DistinctDests(arcs) && i < j < |arcs|
    ensures
      var s := arcs[i].source;
      var held := Owes(arcs, i, i) && NoDestIn(arcs, s, i + 1, j + 1) && NoSourceIn(arcs, s, i + 1, j);
      Owes(arcs, i + 1, j) ==
        (!(!Identity(arcs[i]) && arcs[i].dest == arcs[j].source)
         && (Owes(arcs, i, j) || (held && arcs[j].source == s)))
  {
    var s := arcs[i].source;
    var held := Owes(arcs, i, i) && NoDestIn(arcs, s, i + 1, j + 1) && NoSourceIn(arcs, s, i + 1, j);
    if !Identity(arcs[i]) && arcs[i].dest == arcs[j].source {
      assert Overwritten(arcs, i + 1, arcs[j].source);
    } else {
      assert Overwritten(arcs, i + 1, arcs[j].source) == Overwritten(arcs, i, arcs[j].source);
      if Owes(arcs, i, j) {
        var p: nat :| OwesFor(arcs, i, j, p);
        assert OwesFor(arcs, i + 1, j, p);
      }
      if held && arcs[j].source == s {
        var p: nat :| OwesFor(arcs, i, i, p);
        assert OwesFor(arcs, i + 1, j, p);
      }
      if Owes(arcs, i + 1, j) {
        var p: nat :| OwesFor(arcs, i + 1, j, p);
        if arcs[j].source == s && p != j {
          assert OwesFor(arcs, i, i, p);
        } else {
          assert OwesFor(arcs, i, j, p);
        }
      }
    }
  }

  lemma StillOwesNext(arcs: seq<Arc>, i: nat, j: nat)
    requires DistinctDests(arcs) && i < j < |arcs|
    ensures
      var keeps := StillOwes(arcs, i, j) && arcs[i].source != arcs[j].dest;
      && StillOwes(arcs, i, j + 1) == (keeps && arcs[i].source != arcs[j].source)
      && Owes(arcs, i + 1, j) == ((Identity(arcs[i]) || arcs[i].dest != arcs[j].source)
                                  && (Owes(arcs, i, j) || (keeps && arcs[i].source == arcs[j].source)))
  {
    OwesStep(arcs, i, j);
  }

  /** The vector in the middle of step i: arcs from j on are as the step found
      them, arcs between i and j as the next step will find them. */
  ghost predicate Halfway(arcs: seq<Arc>, temps: seq<int>, i: nat, j: nat, m: seq<Arc>)
    requires i < j <= |arcs| && i < |temps| && |m| == |arcs|
  {
    && m[i] == Arc(Effective(arcs, temps, i, arcs[i].source), arcs[i].dest, StillOwes(arcs, i, j))
    && (forall k :: i < k < j ==> m[k] == Rewritten(arcs, temps, i + 1, k))
    && (forall k :: j <= k < |m| ==> m[k] == Rewritten(arcs, temps, i, k))
  }

  lemma PassOutcome(m: seq<Arc>, i: nat, j: nat, temp: int)
    requires i < j < |m|
    ensures
      var source := if Redirects(m, i, j) then temp else m[j].source;
      var keeps := m[i].close && m[i].source != m[j].dest;
      && Pass(m, i, j, temp)[i] == m[i].(close := keeps && m[i].source != source)
      && Pass(m, i, j, temp)[j]
         == Arc(source, m[j].dest, (!Redirects(m, i, j) && m[j].close) || (keeps && m[i].source == source))
  {
  }

  lemma IdentityUnchanged(arcs: seq<Arc>, temps: seq<int>, init: Table, i: nat)
    requires DistinctDests(arcs) && i < |arcs| && i <= |temps| && FreshTemps(arcs, temps, init, i)
    ensures Effective(arcs, temps, i, arcs[i].source) == arcs[i].dest <==> Identity(arcs[i])
  {
    SourceMatches(arcs, temps, init, i, i, arcs[i].dest);
  }

  /** The test of the rewritten vector is that of the original one. */
  lemma RedirectsMatches(arcs: seq<Arc>, temps: seq<int>, init: Table, i: nat, j: nat, m: seq<Arc>)
    requires DistinctDests(arcs) && i < j < |arcs| == |m| && i <= |temps| && FreshTemps(arcs, temps, init, i)
    requires m[i].source == Effective(arcs, temps, i, arcs[i].source) && m[i].dest == arcs[i].dest
    requires m[j].source == Effective(arcs, temps, i, arcs[j].source)
    ensures Redirects(m, i, j) <==> Redirects(arcs, i, j)
  {
    IdentityUnchanged(arcs, temps, init, i);
    SourceMatches(arcs, temps, init, i, j, arcs[i].dest);
  }

  /** What the inner body does to arc i and arc j. */
  lemma PassAtPair(arcs: seq<Arc>, temps: seq<int>, init: Table, i: nat, j: nat, m: seq<Arc>)
    requires DistinctDests(arcs) && i < j < |arcs| == |m| && i < |temps|
    requires FreshTemps(arcs, temps, init, i + 1)
    requires m[i] == Arc(Effective(arcs, temps, i, arcs[i].source), arcs[i].dest, StillOwes(arcs, i, j))
    requires m[j] == Rewritten(arcs, temps, i, j)
    ensures Pass(m, i, j, temps[i])[i] == m[i].(close := StillOwes(arcs, i, j + 1))
    ensures Pass(m, i, j, temps[i])[j] == Rewritten(arcs, temps, i + 1, j)
  {
    var s := arcs[i].source;
    RedirectsMatches(arcs, temps, init, i, j, m);
    PassOutcome(m, i, j, temps[i]);
    assert StillOwes(arcs, i, j) ==> m[i].source == s && (m[j].source == s <==> arcs[j].source == s) by {
      EffectiveCases(arcs, temps, i, s);
      SourceMatches(arcs, temps, init, i, j, s);
    }
    assert Redirects(arcs, i, j) ==> temps[i] != s by {
      assert Redirects(arcs, i, j) ==> NeedsDuplicate(arcs, i) && FreshTemp(arcs, temps, init, i);
    }
    StillOwesNext(arcs, i, j);
  }

  lemma PassAdvances(arcs: seq<Arc>, temps: seq<int>, init: Table, i: nat, j: nat, m: seq<Arc>)
    requires DistinctDests(arcs) && i < j < |arcs| == |m| && i < |temps|
    requires FreshTemps(arcs, temps, init, i + 1) && Halfway(arcs, temps, i, j, m)
    ensures Halfway(arcs, temps, i, j + 1, Pass(m, i, j, temps[i]))
  {
    PassAtPair(arcs, temps, init, i, j, m);
  }

  lemma {:induction false} PassesAdvance(arcs: seq<Arc>, temps: seq<int>, init: Table, i: nat, j: nat, m: seq<Arc>)
    requires DistinctDests(arcs) && i < j <= |arcs| == |m| && i < |temps|
    requires FreshTemps(arcs, temps, init, i + 1)
    requires forall k :: i <= k < |m| ==> m[k] == Rewritten(arcs, temps, i, k)
    ensures Halfway(arcs, temps, i, j, Passes(m, i, j, temps[i]))
    decreases j
  {
    if j > i + 1 {
      PassesAdvance(arcs, temps, init, i, j - 1, m);
      PassAdvances(arcs, temps, init, i, j - 1, Passes(m, i, j - 1, temps[i]));
    }
  }

  // ----- whole steps -----

  /** The vector, the table, the remembered duplicates and the trace after i steps. */
  ghost predicate Matches(arcs: seq<Arc>, temps: seq<int>, init: Table, i: nat, c: Config)
    requires i <= |arcs| && i <= |temps|
  {
    && |c.m| == |arcs| && (forall k :: i <= k < |arcs| ==> c.m[k] == Rewritten(arcs, temps, i, k))
    && (forall fd :: Get(c.open, fd) == Holds(arcs, temps, init, i, fd))
    && c.extra == Remembered(Duplicates(arcs, temps, i)) && c.trace == Steps(arcs, temps, i)
  }

  /** Duplicate is called in step i just when a later arc reads what it overwrites. */
  lemma AsksIffNeeded(arcs: seq<Arc>, temps: seq<int>, init: Table, i: nat, c: Config)
    requires DistinctDests(arcs) && i < |arcs| && i <= |temps| && FreshTemps(arcs, temps, init, i)
    requires Matches(arcs, temps, init, i, c)
    ensures Asks(c.m, i, |c.m|) <==> NeedsDuplicate(arcs, i)
  {
    forall j | i < j < |arcs|
      ensures Redirects(c.m, i, j) <==> Redirects(arcs, i, j)
    {
      RedirectsMatches(arcs, temps, init, i, j, c.m);
    }
    if NeedsDuplicate(arcs, i) {
      var k :| i < k < |arcs| && arcs[k].source == arcs[i].dest;
      assert Redirects(c.m, i, k) == Redirects(arcs, i, k);
    }
  }

  /** What is duplicated still holds its original file. */
  lemma OverwrittenHolds(arcs: seq<Arc>, temps: seq<int>, init: Table, i: nat)
    requires DistinctDests(arcs) && i < |arcs| && i <= |temps| && FreshTemps(arcs, temps, init, i)
    requires NeedsDuplicate(arcs, i)
    ensures Holds(arcs, temps, init, i, arcs[i].dest) == Get(init, arcs[i].dest)
  {
    var k :| i < k < |arcs| && arcs[k].source == arcs[i].dest;
    SourceSurvives(arcs, temps, init, i, k);
    EffectiveCases(arcs, temps, i, arcs[i].dest);
  }

  lemma RememberedMore(duplicates: seq<int>, temp: int)
    ensures Remembered(duplicates + [temp])
            == if |Remembered(duplicates)| < MAX_EXTRA_FDS then Remembered(duplicates) + [temp]
               else Remembered(duplicates)
  {
  }

  /** The table once Duplicate has answered. */
  lemma CopiedMatches(arcs: seq<Arc>, temps: seq<int>, init: Table, i: nat, c: Config)
    requires DistinctDests(arcs) && i < |arcs| && i < |temps| && FreshTemps(arcs, temps, init, i + 1)
    requires Matches(arcs, temps, init, i, c) && Answers(c, i, temps[i])
    ensures
      var copied := Copied(c, arcs[i].dest, temps[i]);
      && (forall fd :: Get(copied.open, fd) == if NeedsDuplicate(arcs, i) && fd == temps[i] then Get(init, arcs[i].dest)
                                               else Holds(arcs, temps, init, i, fd))
      && copied.extra == Remembered(Duplicates(arcs, temps, i + 1))
      && copied.trace == c.trace + (if NeedsDuplicate(arcs, i) then [Duplicated(temps[i], arcs[i].dest)] else [])
  {
    AsksIffNeeded(arcs, temps, init, i, c);
    if NeedsDuplicate(arcs, i) {
      assert FreshTemp(arcs, temps, init, i);
      OverwrittenHolds(arcs, temps, init, i);
      assert Get(c.open, arcs[i].dest) == Get(init, arcs[i].dest);
      RememberedMore(Duplicates(arcs, temps, i), temps[i]);
    }
  }

  /** Arc i as the end of step i finds it. */
  ghost function Current(arcs: seq<Arc>, temps: seq<int>, i: nat): Arc
    requires i < |arcs| && i <= |temps|
  {
    Arc(Effective(arcs, temps, i, arcs[i].source), arcs[i].dest, StillOwes(arcs, i, |arcs|))
  }

  lemma CurrentArc(arcs: seq<Arc>, temps: seq<int>, init: Table, i: nat)
    requires DistinctDests(arcs) && i < |arcs| && i < |temps| && FreshTemps(arcs, temps, init, i + 1)
    ensures Identity(Current(arcs, temps, i)) == Identity(arcs[i])
    ensures !Identity(arcs[i]) && Current(arcs, temps, i).close <==> ClosesSource(arcs, i)
    ensures ClosesSource(arcs, i) ==> Current(arcs, temps, i).source == arcs[i].source
    ensures Holds(arcs, temps, init, i, Current(arcs, temps, i).source) == Get(init, arcs[i].source)
    ensures StepActions(arcs, temps, i)
            == (if NeedsDuplicate(arcs, i) then [Duplicated(temps[i], arcs[i].dest)] else [])
               + MoveActions(Current(arcs, temps, i))
  {
    IdentityUnchanged(arcs, temps, init, i);
    EffectiveCases(arcs, temps, i, arcs[i].source);
    SourceSurvives(arcs, temps, init, i, i);
  }

  /** Step i moves from an open number, and not from the duplicate it has just made. */
  lemma CurrentSource(arcs: seq<Arc>, temps: seq<int>, init: Table, i: nat)
    requires DistinctDests(arcs) && i < |arcs| && i < |temps| && FreshTemps(arcs, temps, init, i + 1)
    requires arcs[i].source in init
    ensures NeedsDuplicate(arcs, i) ==> Current(arcs, temps, i).source != temps[i]
  {
    SourceSurvives(arcs, temps, init, i, i);
    assert NeedsDuplicate(arcs, i) ==> FreshTemp(arcs, temps, init, i);
  }

  /** The table at the end of step i. */
  lemma MoveMatches(arcs: seq<Arc>, temps: seq<int>, init: Table, i: nat, open: Table)
    requires DistinctDests(arcs) && i < |arcs| && i < |temps| && FreshTemps(arcs, temps, init, i + 1)
    requires arcs[i].source in init
    requires forall fd :: Get(open, fd) == if NeedsDuplicate(arcs, i) && fd == temps[i] then Get(init, arcs[i].dest)
                                           else Holds(arcs, temps, init, i, fd)
    ensures forall fd :: Get(AfterMove(Current(arcs, temps, i), open), fd) == Holds(arcs, temps, init, i + 1, fd)
  {
    var arc := Current(arcs, temps, i);
    CurrentArc(arcs, temps, init, i);
    CurrentSource(arcs, temps, init, i);
    assert Get(open, arc.source) == Get(init, arcs[i].source);
    assert open[arc.dest := open[arc.source]][arc.dest] == init[arcs[i].source];
  }

  lemma StepMatches(arcs: seq<Arc>, temps: seq<int>, init: Table, i: nat, c: Config)
    requires DistinctDests(arcs) && i < |arcs| && i < |temps| && FreshTemps(arcs, temps, init, i + 1)
    requires arcs[i].source in init && Matches(arcs, temps, init, i, c) && Answers(c, i, temps[i])
    ensures Matches(arcs, temps, init, i + 1, RunStep(c, i, temps[i]))
  {
    PassesAdvance(arcs, temps, init, i, |arcs|, c.m);
    assert Passes(c.m, i, |arcs|, temps[i])[i] == Current(arcs, temps, i);
    CopiedMatches(arcs, temps, init, i, c);
    MoveMatches(arcs, temps, init, i, Copied(c, arcs[i].dest, temps[i]).open);
    CurrentArc(arcs, temps, init, i);
    Associative(c.trace, if NeedsDuplicate(arcs, i) then [Duplicated(temps[i], arcs[i].dest)] else [],
                MoveActions(Current(arcs, temps, i)));
  }

  /** The run of the loops is the specified one. */
  lemma {:induction false} RunMatches(arcs: seq<Arc>, temps: seq<int>, init: Table, i: nat)
    requires DistinctDests(arcs) && i <= |arcs| && i <= |temps| && FreshTemps(arcs, temps, init, i)
    requires AllOpen(arcs, init)
    requires Admissible(arcs, init, temps, i)
    ensures Matches(arcs, temps, init, i, Run(arcs, init, temps, i))
  {
    if i == 0 {
      forall k: nat | k < |arcs|
        ensures arcs[k] == Rewritten(arcs, temps, 0, k)
      {
        assert OwesFor(arcs, 0, k, k) == arcs[k].close;
      }
    } else {
      RunMatches(arcs, temps, init, i - 1);
      StepMatches(arcs, temps, init, i - 1, Run(arcs, init, temps, i - 1));
    }
  }
}
