/**
 base/file_descriptor_shuffle: which arc lists are carried out whatever numbers Duplicate
 hands out, as long as they are not open.  That is all that dup promises.
 */
module ShuffleDelegates {
  import opened Common
  import opened ShuffleOutcome
  import opened ShuffleRefinement
  import opened ShuffleRun
  import opened ShuffleSpec

  /** Step p needs a duplicate, and a later destination is not open yet: Duplicate may
      answer just that number. */
  ghost predicate CollidesAt(arcs: seq<Arc>, init: Table, p: nat, q: nat) {
    p < q < |arcs| && NeedsDuplicate(arcs, p) && 0 <= arcs[q].dest && arcs[q].dest !in init
  }

  ghost predicate MayCollide(arcs: seq<Arc>, init: Table) {
    exists p: nat, q: nat :: CollidesAt(arcs, init, p, q)
  }

  // ----- when nothing can collide -----

  lemma DestIsOpen(arcs: seq<Arc>, init: Table, p: nat, q: nat)
    requires AllOpen(arcs, init) && p <= q < |arcs| && NeedsDuplicate(arcs, p)
    requires 0 <= arcs[q].dest && !MayCollide(arcs, init)
    ensures arcs[q].dest in init
  {
    if p < q {
      assert !CollidesAt(arcs, init, p, q);
    }
  }

  /** A number that is still to be read or written is open already. */
  lemma NamedIsOpen(arcs: seq<Arc>, temps: seq<int>, init: Table, p: nat, fd: int)
    requires DistinctDests(arcs) && p < |arcs| && p <= |temps| && FreshTemps(arcs, temps, init, p)
    requires AllOpen(arcs, init) && NeedsDuplicate(arcs, p) && NamedFrom(arcs, p, fd)
    requires 0 <= fd && !MayCollide(arcs, init)
    ensures Holds(arcs, temps, init, p, fd).Some?
  {
    var q :| p <= q < |arcs| && (arcs[q].source == fd || arcs[q].dest == fd);
    PendingNotClosed(arcs, p, q);
    PendingNotTemp(arcs, temps, init, p, q);
    HoldsClosedForm(arcs, temps, init, p, fd);
    if arcs[q].source != fd {
      DestIsOpen(arcs, init, p, q);
    }
  }

  lemma AnswerIsFree(arcs: seq<Arc>, temps: seq<int>, init: Table, i: nat)
    requires DistinctDests(arcs) && i < |arcs| && i < |temps| && AllOpen(arcs, init)
    requires FreshTemps(arcs, temps, init, i) && Admissible(arcs, init, temps, i + 1) && NeedsDuplicate(arcs, i)
    ensures 0 <= temps[i] && Holds(arcs, temps, init, i, temps[i]) == None
  {
    var c := Run(arcs, init, temps, i);
    RunMatches(arcs, temps, init, i);
    AsksIffNeeded(arcs, temps, init, i, c);
    assert AnswersAt(arcs, init, temps, i);
    assert Get(c.open, temps[i]) == None;
  }

  lemma FreshStep(arcs: seq<Arc>, temps: seq<int>, init: Table, i: nat)
    requires i < |arcs| && i < |temps| && AllOpen(arcs, init) && NeedsDuplicate(arcs, i)
    requires !NamedFrom(arcs, i, temps[i]) && Holds(arcs, temps, init, i, temps[i]) == None
    ensures FreshTemp(arcs, temps, init, i)
  {
    var k :| i < k < |arcs| && arcs[k].source == arcs[i].dest;
    assert arcs[k].source in init;
  }

  lemma {:induction false} AnswersAreFresh(arcs: seq<Arc>, temps: seq<int>, init: Table, i: nat)
    requires DistinctDests(arcs) && i <= |arcs| && i <= |temps| && AllOpen(arcs, init)
    requires Admissible(arcs, init, temps, i) && !MayCollide(arcs, init)
    ensures FreshTemps(arcs, temps, init, i)
  {
    if i > 0 {
      AnswersAreFresh(arcs, temps, init, i - 1);
      if NeedsDuplicate(arcs, i - 1) {
        AnswerIsFree(arcs, temps, init, i - 1);
        if NamedFrom(arcs, i - 1, temps[i-1]) {
          NamedIsOpen(arcs, temps, init, i - 1, temps[i-1]);
        }
        FreshStep(arcs, temps, init, i - 1);
      }
    }
  }

  lemma OutcomeIsFinal(arcs: seq<Arc>, temps: seq<int>, init: Table)
    requires DistinctDests(arcs) && |temps| == |arcs| && AllOpen(arcs, init)
    requires Admissible(arcs, init, temps, |arcs|) && FreshTemps(arcs, temps, init, |arcs|)
    ensures forall fd :: Get(Outcome(arcs, init, temps), fd) == Final(arcs, temps, init, fd)
  {
    RunMatches(arcs, temps, init, |arcs|);
  }

  // ----- a delegate can always answer -----

  lemma SomeAnswer(c: Config, i: nat, avoid: set<int>) returns (temp: int)
    requires i < |c.m|
    ensures Answers(c, i, temp) && (temp != -1 ==> temp !in avoid)
  {
    temp := -1;
    if Asks(c.m, i, |c.m|) {
      FreshNumberExists(c.open.Keys + avoid);
      temp :| 0 <= temp && temp !in c.open.Keys + avoid;
    }
  }

  lemma AnswerAdds(arcs: seq<Arc>, init: Table, temps: seq<int>, temp: int)
    requires |temps| < |arcs| && Admissible(arcs, init, temps, |temps|)
    requires Answers(Run(arcs, init, temps, |temps|), |temps|, temp)
    ensures Admissible(arcs, init, temps + [temp], |temps| + 1)
  {
    AdmissiblePrefix(arcs, init, temps, temps + [temp], |temps|);
    RunPrefix(arcs, init, temps, temps + [temp], |temps|);
    assert AnswersAt(arcs, init, temps + [temp], |temps|);
  }

  /** The answers so far can be carried on, keeping off any given numbers. */
  lemma {:induction false} CarryOn(arcs: seq<Arc>, init: Table, temps: seq<int>, avoid: set<int>, n: nat)
    returns (more: seq<int>)
    requires |temps| <= n <= |arcs| && Admissible(arcs, init, temps, |temps|)
    ensures |more| == n && Admissible(arcs, init, more, n)
    ensures forall k :: 0 <= k < |temps| ==> more[k] == temps[k]
    ensures forall k :: |temps| <= k < n && more[k] != -1 ==> more[k] !in avoid
    decreases n - |temps|
  {
    more := temps;
    if |temps| < n {
      var temp := SomeAnswer(Run(arcs, init, temps, |temps|), |temps|, avoid);
      AnswerAdds(arcs, init, temps, temp);
      more := CarryOn(arcs, init, temps + [temp], avoid, n);
      assert forall k :: 0 <= k < |temps| ==> (temps + [temp])[k] == temps[k];
      assert more[|temps|] == temp;
    }
  }

  // ----- with answers that no arc names -----

  ghost predicate KeepsOffNamed(arcs: seq<Arc>, temps: seq<int>) {
    forall k :: 0 <= k < |temps| && temps[k] != -1 ==> temps[k] !in Named(arcs)
  }

  lemma AnswerNotNamed(arcs: seq<Arc>, temps: seq<int>, i: nat)
    requires i < |temps| && KeepsOffNamed(arcs, temps) && temps[i] != -1
    ensures !NamedFrom(arcs, i, temps[i])
  {
    forall q | i <= q < |arcs|
      ensures arcs[q].source != temps[i] && arcs[q].dest != temps[i]
    {
      assert arcs[q] in arcs;
    }
  }

  lemma ContractStep(arcs: seq<Arc>, temps: seq<int>, init: Table, i: nat)
    requires DistinctDests(arcs) && i < |arcs| && i < |temps| && AllOpen(arcs, init)
    requires Admissible(arcs, init, temps, i + 1) && KeepsOffNamed(arcs, temps)
    requires FreshTemps(arcs, temps, init, i)
    ensures FreshTemps(arcs, temps, init, i + 1)
  {
    if NeedsDuplicate(arcs, i) {
      AnswerIsFree(arcs, temps, init, i);
      AnswerNotNamed(arcs, temps, i);
      FreshStep(arcs, temps, init, i);
    }
  }

  /** A delegate that meets the header's contract. */
  lemma {:induction false} ContractIsFresh(arcs: seq<Arc>, temps: seq<int>, init: Table, i: nat)
    requires DistinctDests(arcs) && i <= |arcs| && i <= |temps| && AllOpen(arcs, init)
    requires Admissible(arcs, init, temps, i) && KeepsOffNamed(arcs, temps)
    ensures FreshTemps(arcs, temps, init, i)
  {
    if i > 0 {
      AdmissibleUpTo(arcs, init, temps, i - 1, i);
      ContractIsFresh(arcs, temps, init, i - 1);
      ContractStep(arcs, temps, init, i - 1);
    }
  }

  lemma ContractIsMet(arcs: seq<Arc>, temps: seq<int>, init: Table)
    requires DistinctDests(arcs) && |temps| == |arcs| && AllOpen(arcs, init)
    requires Admissible(arcs, init, temps, |arcs|) && KeepsOffNamed(arcs, temps)
    ensures FreshTemps(arcs, temps, init, |arcs|) && MeetsContract(arcs, temps)
  {
    ContractIsFresh(arcs, temps, init, |arcs|);
    forall p | 0 <= p < |arcs| && NeedsDuplicate(arcs, p)
      ensures temps[p] !in Named(arcs)
    {
      AdmissibleUpTo(arcs, init, temps, p + 1, |arcs|);
      AnswerIsFree(arcs, temps, init, p);
    }
  }

  /** For a delegate that keeps off the named numbers: exactly when it works. */
  lemma ContractAchievesIff(arcs: seq<Arc>, temps: seq<int>, init: Table)
    requires DistinctDests(arcs) && |temps| == |arcs| && AllOpen(arcs, init)
    requires Admissible(arcs, init, temps, |arcs|) && KeepsOffNamed(arcs, temps)
    ensures Achieves(arcs, init, Outcome(arcs, init, temps))
            <==> !ClosesIdentity(arcs) && DuplicateCount(arcs, |arcs|) <= MAX_EXTRA_FDS
  {
    ContractIsMet(arcs, temps, init);
    OutcomeIsFinal(arcs, temps, init);
    AchievesExactly(arcs, temps, init, Outcome(arcs, init, temps));
  }

  // ----- with an answer that is a later destination -----

  lemma {:induction false} EachDestKept(m: seq<Arc>, i: nat, j: nat, temp: int)
    requires i < j <= |m|
    ensures forall k :: 0 <= k < |m| ==> Passes(m, i, j, temp)[k].dest == m[k].dest
    decreases j
  {
    if j > i + 1 {
      EachDestKept(m, i, j - 1, temp);
    }
  }

  lemma {:induction false} DestsKept(arcs: seq<Arc>, init: Table, temps: seq<int>, i: nat)
    requires i <= |arcs| && i <= |temps|
    ensures forall k :: 0 <= k < |arcs| ==> Run(arcs, init, temps, i).m[k].dest == arcs[k].dest
  {
    if i > 0 {
      DestsKept(arcs, init, temps, i - 1);
      var c := Run(arcs, init, temps, i - 1);
      EachDestKept(c.m, i - 1, |c.m|, temps[i-1]);
    }
  }

  lemma {:induction false} OpenIsAccountedFor(arcs: seq<Arc>, init: Table, temps: seq<int>, i: nat, fd: int)
    requires i <= |arcs| && i <= |temps|
    requires fd in Run(arcs, init, temps, i).open
    ensures fd in init || exists k :: 0 <= k < i && (arcs[k].dest == fd || (temps[k] == fd && temps[k] != -1))
  {
    if i > 0 {
      var c := Run(arcs, init, temps, i - 1);
      PassesKeep(c.m, i - 1, |c.m|, temps[i-1]);
      DestsKept(arcs, init, temps, i - 1);
      if fd in c.open {
        OpenIsAccountedFor(arcs, init, temps, i - 1, fd);
      }
    }
  }

  /** A remembered duplicate is closed in the end, whatever has been moved there. */
  lemma DuplicatedIsLost(arcs: seq<Arc>, init: Table, temps: seq<int>, p: nat, q: nat)
    requires p < |arcs| == |temps| && q < |arcs| && AllOpen(arcs, init) && Admissible(arcs, init, temps, |arcs|)
    requires
      var c := Run(arcs, init, temps, p);
      Asks(c.m, p, |c.m|) && |c.extra| < MAX_EXTRA_FDS
    requires temps[p] == arcs[q].dest
    ensures arcs[q].dest !in Outcome(arcs, init, temps) && !Achieves(arcs, init, Outcome(arcs, init, temps))
  {
    var c := Run(arcs, init, temps, p);
    AdmissibleUpTo(arcs, init, temps, p + 1, |arcs|);
    SourcesStayOpen(arcs, init, temps, p);
    assert AnswersAt(arcs, init, temps, p);
    StepRemembers(c, p, temps[p]);
    RememberedStays(arcs, init, temps, p + 1, |arcs|, temps[p]);
  }

  lemma {:induction false} CountGrows(arcs: seq<Arc>, i: nat, n: nat)
    requires i <= n <= |arcs|
    ensures DuplicateCount(arcs, i) <= DuplicateCount(arcs, n)
    decreases n
  {
    if i < n {
      CountGrows(arcs, i, n - 1);
    }
  }

  lemma RoomForMore(arcs: seq<Arc>, temps: seq<int>, init: Table, p: nat)
    requires DistinctDests(arcs) && p < |arcs| && p <= |temps| && FreshTemps(arcs, temps, init, p)
    requires NeedsDuplicate(arcs, p) && DuplicateCount(arcs, |arcs|) <= MAX_EXTRA_FDS
    ensures |Remembered(Duplicates(arcs, temps, p))| < MAX_EXTRA_FDS
  {
    DuplicatesOf(arcs, temps, init, p);
    CountGrows(arcs, p + 1, |arcs|);
  }

  /** As long as the answers keep off the named numbers, the next may be the one of a
      destination that is not open. */
  lemma CollisionIsAnswer(arcs: seq<Arc>, init: Table, clean: seq<int>, p: nat, q: nat)
    requires DistinctDests(arcs) && AllOpen(arcs, init) && CollidesAt(arcs, init, p, q) && |clean| == p
    requires Admissible(arcs, init, clean, p) && KeepsOffNamed(arcs, clean)
    requires DuplicateCount(arcs, |arcs|) <= MAX_EXTRA_FDS
    ensures
      var c := Run(arcs, init, clean, p);
      Answers(c, p, arcs[q].dest) && Asks(c.m, p, |c.m|) && |c.extra| < MAX_EXTRA_FDS
  {
    var c, d := Run(arcs, init, clean, p), arcs[q].dest;
    ContractIsFresh(arcs, clean, init, p);
    RunMatches(arcs, clean, init, p);
    AsksIffNeeded(arcs, clean, init, p, c);
    RoomForMore(arcs, clean, init, p);
    if d in c.open {
      assert arcs[q] in arcs;
      OpenIsAccountedFor(arcs, init, clean, p, d);
    }
  }

  /** Wherever a collision may happen, some delegate makes it happen. */
  lemma CollidingAnswers(arcs: seq<Arc>, init: Table, p: nat, q: nat) returns (temps: seq<int>)
    requires DistinctDests(arcs) && AllOpen(arcs, init) && CollidesAt(arcs, init, p, q)
    requires DuplicateCount(arcs, |arcs|) <= MAX_EXTRA_FDS
    ensures |temps| == |arcs| && Admissible(arcs, init, temps, |arcs|)
    ensures !Achieves(arcs, init, Outcome(arcs, init, temps))
  {
    var clean := CarryOn(arcs, init, [], Named(arcs), p);
    CollisionIsAnswer(arcs, init, clean, p, q);
    AnswerAdds(arcs, init, clean, arcs[q].dest);
    var first := clean + [arcs[q].dest];
    temps := CarryOn(arcs, init, first, {}, |arcs|);
    assert temps[p] == first[p] && forall k :: 0 <= k < p ==> temps[k] == first[k] == clean[k];
    RunPrefix(arcs, init, clean, temps, p);
    DuplicatedIsLost(arcs, init, temps, p, q);
  }

  // ----- what is called -----

  /** Where no answer is in the way, the calls of a run close descriptors as they should. */
  lemma RunClosesInOrder(arcs: seq<Arc>, init: Table, temps: seq<int>)
    requires DistinctDests(arcs) && |temps| == |arcs| && AllOpen(arcs, init)
    requires Admissible(arcs, init, temps, |arcs|) && (!MayCollide(arcs, init) || KeepsOffNamed(arcs, temps))
    ensures
      var c := Run(arcs, init, temps, |arcs|);
      c.extra == Remembered(Duplicates(arcs, temps, |arcs|))
      && ClosesInOrder(arcs, c.extra, c.trace + CloseAll(c.extra))
  {
    if !MayCollide(arcs, init) {
      AnswersAreFresh(arcs, temps, init, |arcs|);
    } else {
      ContractIsFresh(arcs, temps, init, |arcs|);
    }
    RunMatches(arcs, temps, init, |arcs|);
    WholeClosesInOrder(arcs, temps, init);
  }

  // ----- the main result -----

  ghost predicate AlwaysAchieves(arcs: seq<Arc>, init: Table) {
    forall temps :: |temps| == |arcs| && Admissible(arcs, init, temps, |arcs|) ==>
      Achieves(arcs, init, Outcome(arcs, init, temps))
  }

  lemma AnswersAchieve(arcs: seq<Arc>, init: Table, temps: seq<int>)
    requires DistinctDests(arcs) && AllOpen(arcs, init)
    requires |temps| == |arcs| && Admissible(arcs, init, temps, |arcs|)
    requires !ClosesIdentity(arcs) && DuplicateCount(arcs, |arcs|) <= MAX_EXTRA_FDS && !MayCollide(arcs, init)
    ensures Achieves(arcs, init, Outcome(arcs, init, temps))
  {
    AnswersAreFresh(arcs, temps, init, |arcs|);
    OutcomeIsFinal(arcs, temps, init);
    FreshAchieves(arcs, temps, init, Outcome(arcs, init, temps));
  }

  /** The loops carry out the simultaneous assignment for every delegate that hands out
      numbers that are not open, if and only if no identity arc is given away by a later
      one, the duplicates fit in the buffer, and no step that needs a duplicate comes
      before an arc whose destination is not open yet. */
  lemma AchievesForEveryDelegate(arcs: seq<Arc>, init: Table)
    requires DistinctDests(arcs) && AllOpen(arcs, init)
    ensures AlwaysAchieves(arcs, init)
            <==> !ClosesIdentity(arcs) && DuplicateCount(arcs, |arcs|) <= MAX_EXTRA_FDS && !MayCollide(arcs, init)
  {
    var clean := CarryOn(arcs, init, [], Named(arcs), |arcs|);
    ContractAchievesIff(arcs, clean, init);
    if !ClosesIdentity(arcs) && DuplicateCount(arcs, |arcs|) <= MAX_EXTRA_FDS {
      if p: nat, q: nat :| CollidesAt(arcs, init, p, q) {
        var temps := CollidingAnswers(arcs, init, p, q);
        assert !AlwaysAchieves(arcs, init);
      } else {
        forall temps | |temps| == |arcs| && Admissible(arcs, init, temps, |arcs|)
          ensures Achieves(arcs, init, Outcome(arcs, init, temps))
        {
          AnswersAchieve(arcs, init, temps);
        }
      }
    }
  }

  // ----- the conditions are needed -----

  /** Keeping 0 where it is and then giving it away loses it, with any delegate. */
  lemma IdentityThenClose(arcs: seq<Arc>, init: Table, temps: seq<int>)
    requires arcs == [Arc(0, 0, false), Arc(0, 1, true)] && 0 in init
    requires |temps| == 2 && Admissible(arcs, init, temps, 2)
    ensures !Achieves(arcs, init, Outcome(arcs, init, temps))
  {
    AdmissibleUpTo(arcs, init, temps, 1, 2);
    assert AnswersAt(arcs, init, temps, 0) && AnswersAt(arcs, init, temps, 1);
    assert !Asks(arcs, 0, 2) && !Asks(Run(arcs, init, temps, 1).m, 1, 2);
    assert temps[0] == -1 && temps[1] == -1;
    assert ClosesIdentityAt(arcs, 0, 1);
    ContractAchievesIff(arcs, temps, init);
  }

  /** Every arc but the last writes where the next one reads. */
  function Chain(n: nat): seq<Arc> {
    seq(n, i requires 0 <= i < n => Arc(i, i + 1, false))
  }

  lemma {:induction false} ChainDuplicates(n: nat, i: nat)
    requires i < n
    ensures DuplicateCount(Chain(n), i) == i
  {
    if i > 0 {
      ChainDuplicates(n, i - 1);
      assert Chain(n)[i].source == Chain(n)[i-1].dest;
    }
  }

  lemma ChainIsInjective(n: nat, init: Table)
    requires forall fd :: 0 <= fd < n ==> fd in init
    ensures DistinctDests(Chain(n)) && forall p :: 0 <= p < n ==> Chain(n)[p].source in init
  {
  }

  lemma {:induction false} ChainNeeds(n: nat)
    requires n > 0
    ensures DuplicateCount(Chain(n), n) == n - 1 && !ClosesIdentity(Chain(n))
  {
    ChainDuplicates(n, n - 1);
  }

  /** A chain of seventeen arcs needs as many duplicates as can be remembered.  One more
      leaves a duplicate open, even with numbers that no arc names. */
  lemma {:induction false} ChainAchievesIff(n: nat, init: Table, temps: seq<int>)
    requires n > 0 && forall fd :: 0 <= fd < n ==> fd in init
    requires |temps| == n && Admissible(Chain(n), init, temps, n) && KeepsOffNamed(Chain(n), temps)
    ensures Achieves(Chain(n), init, Outcome(Chain(n), init, temps)) <==> n <= 17
  {
    ChainIsInjective(n, init);
    ChainNeeds(n);
    ContractAchievesIff(Chain(n), temps, init);
  }
}
