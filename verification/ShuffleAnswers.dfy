/**
 base/file_descriptor_shuffle: for which answers of Duplicate the call does what it should,
 and for which arcs it does with dup, whose answer is the lowest number that is not open.
 */
module ShuffleAnswers {
  import opened Common
  import opened ShuffleDelegates
  import opened ShuffleOutcome
  import opened ShuffleRefinement
  import opened ShuffleRun
  import opened ShuffleSpec

  /** The number obtained in step p is the destination of a later arc. */
  ghost predicate HitsAt(arcs: seq<Arc>, temps: seq<int>, p: nat, q: nat) {
    p < q < |arcs| && p < |temps| && NeedsDuplicate(arcs, p) && temps[p] == arcs[q].dest
  }

  ghost predicate Hits(arcs: seq<Arc>, temps: seq<int>) {
    exists p: nat, q: nat :: HitsAt(arcs, temps, p, q)
  }

  ghost predicate NoHitBelow(arcs: seq<Arc>, temps: seq<int>, i: nat) {
    forall p: nat, q: nat :: HitsAt(arcs, temps, p, q) ==> i <= p
  }

  lemma FirstHit(arcs: seq<Arc>, temps: seq<int>, p: nat, q: nat) returns (p': nat, q': nat)
    requires HitsAt(arcs, temps, p, q)
    ensures p' <= p && HitsAt(arcs, temps, p', q') && NoHitBelow(arcs, temps, p')
    decreases p
  {
    p', q' := p, q;
    if r: nat, s: nat :| HitsAt(arcs, temps, r, s) && r < p {
      p', q' := FirstHit(arcs, temps, r, s);
    }
  }

  /** A number that is still to be read is open. */
  lemma PendingSourceIsOpen(arcs: seq<Arc>, temps: seq<int>, init: Table, p: nat, q: nat)
    requires DistinctDests(arcs) && p <= q < |arcs| && p <= |temps| && FreshTemps(arcs, temps, init, p)
    requires AllOpen(arcs, init)
    ensures Holds(arcs, temps, init, p, arcs[q].source).Some?
  {
    PendingNotClosed(arcs, p, q);
    PendingNotTemp(arcs, temps, init, p, q);
    HoldsClosedForm(arcs, temps, init, p, arcs[q].source);
  }

  lemma NoHitIsFresh(arcs: seq<Arc>, temps: seq<int>, init: Table, p: nat)
    requires DistinctDests(arcs) && p < |arcs| && p < |temps| && AllOpen(arcs, init)
    requires Admissible(arcs, init, temps, p + 1) && FreshTemps(arcs, temps, init, p)
    requires NeedsDuplicate(arcs, p) && forall q: nat :: !HitsAt(arcs, temps, p, q)
    ensures FreshTemp(arcs, temps, init, p)
  {
    AnswerIsFree(arcs, temps, init, p);
    forall q | p <= q < |arcs|
      ensures arcs[q].source != temps[p] && arcs[q].dest != temps[p]
    {
      PendingSourceIsOpen(arcs, temps, init, p, q);
      assert !HitsAt(arcs, temps, p, q);
      if q == p {
        var k :| p < k < |arcs| && arcs[k].source == arcs[p].dest;
        PendingSourceIsOpen(arcs, temps, init, p, k);
      }
    }
    FreshStep(arcs, temps, init, p);
  }

  /** Up to the first hit, the answers are out of the way of the arcs still to come. */
  lemma {:induction false} FreshUntilHit(arcs: seq<Arc>, temps: seq<int>, init: Table, i: nat)
    requires DistinctDests(arcs) && i <= |arcs| && i <= |temps| && AllOpen(arcs, init)
    requires Admissible(arcs, init, temps, i) && NoHitBelow(arcs, temps, i)
    ensures FreshTemps(arcs, temps, init, i)
  {
    if i > 0 {
      FreshUntilHit(arcs, temps, init, i - 1);
      if NeedsDuplicate(arcs, i - 1) {
        NoHitIsFresh(arcs, temps, init, i - 1);
      }
    }
  }

  /** A hit while there is room in the buffer loses the destination. */
  lemma {:induction false} EarlyHitIsLost(arcs: seq<Arc>, temps: seq<int>, init: Table, p: nat, q: nat)
    requires DistinctDests(arcs) && |temps| == |arcs| && AllOpen(arcs, init)
    requires Admissible(arcs, init, temps, |arcs|)
    requires HitsAt(arcs, temps, p, q) && DuplicateCount(arcs, p) < MAX_EXTRA_FDS
    ensures !Achieves(arcs, init, Outcome(arcs, init, temps))
  {
    var p', q' := FirstHit(arcs, temps, p, q);
    CountGrows(arcs, p', p);
    AdmissibleUpTo(arcs, init, temps, p', |arcs|);
    FreshUntilHit(arcs, temps, init, p');
    var c := Run(arcs, init, temps, p');
    RunMatches(arcs, temps, init, p');
    AsksIffNeeded(arcs, temps, init, p', c);
    DuplicatesOf(arcs, temps, init, p');
    DuplicatedIsLost(arcs, init, temps, p', q');
  }

  /** Without a hit, a destination that is kept and then given away is closed in the end. */
  lemma IdentityIsLost(arcs: seq<Arc>, temps: seq<int>, init: Table, p: nat, q: nat)
    requires DistinctDests(arcs) && |temps| == |arcs| && FreshTemps(arcs, temps, init, |arcs|)
    requires ClosesIdentityAt(arcs, p, q) && DuplicateCount(arcs, |arcs|) <= MAX_EXTRA_FDS
    ensures Final(arcs, temps, init, arcs[p].dest) == None
  {
    ClosedDest(arcs, p);
    AllRemembered(arcs, temps, init);
    HoldsClosedForm(arcs, temps, init, |arcs|, arcs[p].dest);
  }

  /** Whatever Duplicate answers: as long as the duplicates fit in the buffer, the call carries
      out the assignment if and only if no identity arc is given away by a later one and no
      answer is the destination of a later arc. */
  lemma {:induction false} AchievesForAnswers(arcs: seq<Arc>, temps: seq<int>, init: Table)
    requires DistinctDests(arcs) && |temps| == |arcs| && AllOpen(arcs, init)
    requires Admissible(arcs, init, temps, |arcs|) && DuplicateCount(arcs, |arcs|) <= MAX_EXTRA_FDS
    ensures Achieves(arcs, init, Outcome(arcs, init, temps)) <==> !ClosesIdentity(arcs) && !Hits(arcs, temps)
  {
    if p: nat, q: nat :| HitsAt(arcs, temps, p, q) {
      CountGrows(arcs, p + 1, |arcs|);
      EarlyHitIsLost(arcs, temps, init, p, q);
    } else {
      FreshUntilHit(arcs, temps, init, |arcs|);
      OutcomeIsFinal(arcs, temps, init);
      if ClosesIdentity(arcs) {
        var p, q :| ClosesIdentityAt(arcs, p, q);
        IdentityIsLost(arcs, temps, init, p, q);
        assert Get(Outcome(arcs, init, temps), arcs[p].dest) == None;
      } else {
        FreshAchieves(arcs, temps, init, Outcome(arcs, init, temps));
      }
    }
  }

  // ----- the lowest number that is not open -----

  /** The lowest number from n on that is not in the set. */
  function Lowest(numbers: set<int>, n: int): (r: int)
    ensures n <= r && r !in numbers
    decreases |numbers|
  {
    if n in numbers then Lowest(numbers - {n}, n + 1) else n
  }

  lemma {:induction false} BelowLowest(numbers: set<int>, n: int, x: int)
    requires n <= x < Lowest(numbers, n)
    ensures x in numbers
    decreases |numbers|
  {
    if n < x {
      BelowLowest(numbers - {n}, n + 1, x);
    }
  }

  lemma LowestIs(numbers: set<int>, open: Table, temp: int)
    requires forall fd :: fd in numbers <==> fd in open
    requires 0 <= temp && temp !in open && Chooses(LowestNumber, open, temp)
    ensures temp == Lowest(numbers, 0)
  {
    if temp < Lowest(numbers, 0) {
      BelowLowest(numbers, 0, temp);
    }
  }

  /** Which numbers are open before step i, from the original arcs and the answers so far:
      those open at the start, the destinations written and the duplicates, without the
      sources closed. */
  ghost function OpenNumbers(arcs: seq<Arc>, init: Table, temps: seq<int>, i: nat): set<int>
    requires i <= |arcs| && i <= |temps|
  {
    init.Keys + (set k | 0 <= k < i :: arcs[k].dest)
    - (set k | 0 <= k < i && ClosesSource(arcs, k) :: arcs[k].source)
    + (set k | 0 <= k < i && NeedsDuplicate(arcs, k) :: temps[k])
  }

  /** What dup answers, worked out without looking at a rewritten arc. */
  ghost function DupAnswers(arcs: seq<Arc>, init: Table, i: nat): (temps: seq<int>)
    requires i <= |arcs|
    ensures |temps| == i
  {
    if i == 0 then []
    else
      var before := DupAnswers(arcs, init, i - 1);
      before + [if NeedsDuplicate(arcs, i - 1) then Lowest(OpenNumbers(arcs, init, before, i - 1), 0) else -1]
  }

  lemma OpenNumbersAre(arcs: seq<Arc>, temps: seq<int>, init: Table, i: nat, fd: int)
    requires DistinctDests(arcs) && i <= |arcs| && i <= |temps| && AllOpen(arcs, init)
    requires FreshTemps(arcs, temps, init, i)
    ensures fd in OpenNumbers(arcs, init, temps, i) <==> Holds(arcs, temps, init, i, fd).Some?
  {
    HoldsClosedForm(arcs, temps, init, i, fd);
  }

  lemma {:induction false} DupAnswersPrefix(arcs: seq<Arc>, init: Table, i: nat, n: nat)
    requires i <= n <= |arcs|
    ensures DupAnswers(arcs, init, n)[..i] == DupAnswers(arcs, init, i)
    decreases n
  {
    if i < n {
      DupAnswersPrefix(arcs, init, i, n - 1);
    }
  }

  lemma OpenNumbersPrefix(arcs: seq<Arc>, init: Table, temps: seq<int>, temps': seq<int>, i: nat)
    requires i <= |arcs| && i <= |temps| && i <= |temps'| && temps[..i] == temps'[..i]
    ensures OpenNumbers(arcs, init, temps, i) == OpenNumbers(arcs, init, temps', i)
  {
    assert forall k :: 0 <= k < i ==> temps[k] == temps[..i][k] == temps'[k];
  }

  /** As long as there has been no hit, the open numbers are those worked out. */
  lemma {:induction false} OpenIsWorkedOut(arcs: seq<Arc>, temps: seq<int>, init: Table, i: nat)
    requires DistinctDests(arcs) && i < |arcs| && |temps| == |arcs| && AllOpen(arcs, init)
    requires Admissible(arcs, init, temps, i) && NoHitBelow(arcs, temps, i)
    requires temps[..i] == DupAnswers(arcs, init, i)
    ensures
      var c := Run(arcs, init, temps, i);
      && (Asks(c.m, i, |c.m|) <==> NeedsDuplicate(arcs, i))
      && (forall fd :: fd in OpenNumbers(arcs, init, DupAnswers(arcs, init, i), i) <==> fd in c.open)
  {
    var c, before := Run(arcs, init, temps, i), DupAnswers(arcs, init, i);
    FreshUntilHit(arcs, temps, init, i);
    RunMatches(arcs, temps, init, i);
    AsksIffNeeded(arcs, temps, init, i, c);
    OpenNumbersPrefix(arcs, init, temps, before, i);
    forall fd
      ensures fd in OpenNumbers(arcs, init, before, i) <==> fd in c.open
    {
      OpenNumbersAre(arcs, temps, init, i, fd);
      assert Get(c.open, fd) == Holds(arcs, temps, init, i, fd);
    }
  }

  lemma AnswerIsWorkedOut(arcs: seq<Arc>, temps: seq<int>, init: Table, i: nat)
    requires DistinctDests(arcs) && i < |arcs| && |temps| == |arcs| && AllOpen(arcs, init)
    requires Admissible(arcs, init, temps, i) && NoHitBelow(arcs, temps, i)
    requires AnswersAt(arcs, init, temps, i) && FollowsAt(LowestNumber, arcs, init, temps, i)
    requires temps[..i] == DupAnswers(arcs, init, i)
    ensures temps[i] == if NeedsDuplicate(arcs, i) then Lowest(OpenNumbers(arcs, init, DupAnswers(arcs, init, i), i), 0)
                        else -1
  {
    var c := Run(arcs, init, temps, i);
    OpenIsWorkedOut(arcs, temps, init, i);
    if NeedsDuplicate(arcs, i) {
      LowestIs(OpenNumbers(arcs, init, DupAnswers(arcs, init, i), i), c.open, temps[i]);
    }
  }

  lemma GivesAnswer(arcs: seq<Arc>, init: Table, temps: seq<int>, i: nat)
    requires i < |arcs| == |temps|
    requires Admissible(arcs, init, temps, |arcs|) && Follows(LowestNumber, arcs, init, temps)
    ensures Admissible(arcs, init, temps, i)
    ensures AnswersAt(arcs, init, temps, i) && FollowsAt(LowestNumber, arcs, init, temps, i)
  {
    AdmissibleUpTo(arcs, init, temps, i + 1, |arcs|);
  }

  lemma NextAnswer(arcs: seq<Arc>, temps: seq<int>, init: Table, i: nat)
    requires DistinctDests(arcs) && i < |arcs| && |temps| == |arcs| && AllOpen(arcs, init)
    requires Admissible(arcs, init, temps, |arcs|) && Follows(LowestNumber, arcs, init, temps)
    requires NoHitBelow(arcs, temps, i) && temps[..i] == DupAnswers(arcs, init, i)
    ensures temps[..i+1] == DupAnswers(arcs, init, i + 1)
  {
    GivesAnswer(arcs, init, temps, i);
    AnswerIsWorkedOut(arcs, temps, init, i);
    assert temps[..i+1] == temps[..i] + [temps[i]];
  }

  lemma NoHitPrefix(arcs: seq<Arc>, temps: seq<int>, temps': seq<int>, i: nat)
    requires i <= |temps| && i <= |temps'| && temps[..i] == temps'[..i] && NoHitBelow(arcs, temps, i)
    ensures NoHitBelow(arcs, temps', i)
  {
    forall k | 0 <= k < i
      ensures temps[k] == temps'[k]
    {
      assert temps[..i][k] == temps'[..i][k];
    }
    assert forall p: nat, q: nat :: p < i && HitsAt(arcs, temps', p, q) ==> HitsAt(arcs, temps, p, q);
  }

  lemma NoHitLess(arcs: seq<Arc>, temps: seq<int>, i: nat, j: nat)
    requires j <= i && NoHitBelow(arcs, temps, i)
    ensures NoHitBelow(arcs, temps, j)
  {
  }

  /** Up to the first hit of either, dup answers what has been worked out. */
  lemma {:induction false} SameUntilHit(arcs: seq<Arc>, temps: seq<int>, init: Table, i: nat)
    requires DistinctDests(arcs) && i < |arcs| && |temps| == |arcs| && AllOpen(arcs, init)
    requires Admissible(arcs, init, temps, |arcs|) && Follows(LowestNumber, arcs, init, temps)
    requires NoHitBelow(arcs, temps, i) || NoHitBelow(arcs, DupAnswers(arcs, init, |arcs|), i)
    ensures temps[..i+1] == DupAnswers(arcs, init, |arcs|)[..i+1]
  {
    var answers := DupAnswers(arcs, init, |arcs|);
    if i > 0 {
      if NoHitBelow(arcs, temps, i) {
        NoHitLess(arcs, temps, i, i - 1);
      } else {
        NoHitLess(arcs, answers, i, i - 1);
      }
      SameUntilHit(arcs, temps, init, i - 1);
      if !NoHitBelow(arcs, temps, i) {
        NoHitPrefix(arcs, answers, temps, i);
      }
    }
    DupAnswersPrefix(arcs, init, i, |arcs|);
    DupAnswersPrefix(arcs, init, i + 1, |arcs|);
    NextAnswer(arcs, temps, init, i);
  }

  lemma SameHits(arcs: seq<Arc>, temps: seq<int>, init: Table)
    requires DistinctDests(arcs) && |temps| == |arcs| && AllOpen(arcs, init)
    requires Admissible(arcs, init, temps, |arcs|) && Follows(LowestNumber, arcs, init, temps)
    ensures Hits(arcs, temps) <==> Hits(arcs, DupAnswers(arcs, init, |arcs|))
  {
    var answers := DupAnswers(arcs, init, |arcs|);
    if p: nat, q: nat :| HitsAt(arcs, temps, p, q) {
      var p', q' := FirstHit(arcs, temps, p, q);
      SameUntilHit(arcs, temps, init, p');
      assert answers[p'] == answers[..p'+1][p'] == temps[..p'+1][p'];
      assert HitsAt(arcs, answers, p', q');
    }
    if p: nat, q: nat :| HitsAt(arcs, answers, p, q) {
      var p', q' := FirstHit(arcs, answers, p, q);
      SameUntilHit(arcs, temps, init, p');
      assert temps[p'] == temps[..p'+1][p'] == answers[..p'+1][p'];
      assert HitsAt(arcs, temps, p', q');
    }
  }

  /** With dup, as long as the duplicates fit in the buffer: the call carries out the
      assignment if and only if no identity arc is given away by a later one and dup does
      not come upon the destination of a later arc. */
  lemma {:induction false} DupAchievesIff(arcs: seq<Arc>, temps: seq<int>, init: Table)
    requires DistinctDests(arcs) && |temps| == |arcs| && AllOpen(arcs, init)
    requires Admissible(arcs, init, temps, |arcs|) && Follows(LowestNumber, arcs, init, temps)
    requires DuplicateCount(arcs, |arcs|) <= MAX_EXTRA_FDS
    ensures Achieves(arcs, init, Outcome(arcs, init, temps))
            <==> !ClosesIdentity(arcs) && !Hits(arcs, DupAnswers(arcs, init, |arcs|))
  {
    AchievesForAnswers(arcs, temps, init);
    SameHits(arcs, temps, init);
  }

  /** dup always has an answer. */
  lemma {:induction false} DupCanAnswer(arcs: seq<Arc>, init: Table, n: nat) returns (temps: seq<int>)
    requires n <= |arcs|
    ensures |temps| == n && Admissible(arcs, init, temps, n) && Follows(LowestNumber, arcs, init, temps)
  {
    temps := [];
    if n > 0 {
      var before := DupCanAnswer(arcs, init, n - 1);
      var c := Run(arcs, init, before, n - 1);
      var temp := if Asks(c.m, n - 1, |c.m|) then Lowest(c.open.Keys, 0) else -1;
      forall x | 0 <= x < temp
        ensures x in c.open
      {
        BelowLowest(c.open.Keys, 0, x);
      }
      AnswerAdds(arcs, init, before, temp);
      FollowsMore(LowestNumber, arcs, init, before, temp);
      temps := before + [temp];
    }
  }

  // ----- two inputs -----

  lemma FirstAnswer(arcs: seq<Arc>, init: Table, temps: seq<int>, temp: nat)
    requires |arcs| == |temps| == 2 && Admissible(arcs, init, temps, 2) && Follows(LowestNumber, arcs, init, temps)
    requires !Identity(arcs[0]) && arcs[0].dest == arcs[1].source
    requires temp !in init && forall fd :: 0 <= fd < temp ==> fd in init
    ensures temps[0] == temp
  {
    AdmissibleUpTo(arcs, init, temps, 1, 2);
    assert AnswersAt(arcs, init, temps, 0) && FollowsAt(LowestNumber, arcs, init, temps, 0);
    assert Redirects(arcs, 0, 1);
  }

  /** Arcs 5->3 and 3->4 with 0, 1, 2, 3 and 5 open: dup answers 4.  The second arc becomes
      4->4 and is skipped, and 4 is closed. */
  lemma LowestNumberCollides(arcs: seq<Arc>, init: Table, temps: seq<int>)
    requires arcs == [Arc(5, 3, false), Arc(3, 4, false)] && init.Keys == {0, 1, 2, 3, 5}
    requires |temps| == 2 && Admissible(arcs, init, temps, 2) && Follows(LowestNumber, arcs, init, temps)
    ensures temps[0] == 4 && !Achieves(arcs, init, Outcome(arcs, init, temps))
  {
    assert 4 !in init.Keys && 3 in init.Keys && 5 in init.Keys;
    FirstAnswer(arcs, init, temps, 4);
    assert NeedsDuplicate(arcs, 0) && HitsAt(arcs, temps, 0, 1);
    EarlyHitIsLost(arcs, temps, init, 0, 1);
  }

  /** Arcs 5->3 and 3->9 with 0 to 5 open: some delegate would answer 9 and lose it, but dup
      answers 6 and the call does what it should. */
  lemma LowestNumberKeepsOff(arcs: seq<Arc>, init: Table, temps: seq<int>)
    requires arcs == [Arc(5, 3, false), Arc(3, 9, false)] && init.Keys == {0, 1, 2, 3, 4, 5}
    requires |temps| == 2 && Admissible(arcs, init, temps, 2) && Follows(LowestNumber, arcs, init, temps)
    ensures temps[0] == 6 && MayCollide(arcs, init) && Achieves(arcs, init, Outcome(arcs, init, temps))
  {
    assert 6 !in init.Keys && 9 !in init.Keys && 3 in init.Keys && 5 in init.Keys;
    FirstAnswer(arcs, init, temps, 6);
    assert NeedsDuplicate(arcs, 0) && CollidesAt(arcs, init, 0, 1);
    assert DuplicateCount(arcs, 1) <= 1;
    AchievesForAnswers(arcs, temps, init);
  }
}
