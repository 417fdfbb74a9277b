/**
 base/file_descriptor_shuffle, the loops as functions.  `Run` is what the code does to the
 vector, the table, the array of duplicates and the trace of calls, given the numbers
 that Duplicate answers; nothing is assumed of these but that they are not open.
 */
module ShuffleRun {
  import opened Common
  import opened ShuffleSpec

  datatype Config = Config(m: seq<Arc>, open: Table, extra: seq<int>, trace: seq<Action>)

  /** The test that redirects arc j. */
  predicate Redirects(m: seq<Arc>, i: nat, j: nat)
    requires i < |m| && j < |m|
  {
    !Identity(m[i]) && m[i].dest == m[j].source
  }

  /** The body of the inner loop, once `temp` has been obtained if it is needed. */
  function Pass(m: seq<Arc>, i: nat, j: nat, temp: int): seq<Arc>
    requires i < j < |m|
  {
    var m1 := if Redirects(m, i, j) then m[j := m[j].(source := temp, close := false)] else m;
    var m2 := if m1[i].close && m1[i].source == m1[j].dest
              then m1[i := m1[i].(close := false)] else m1;
    if m2[i].close && m2[i].source == m2[j].source
    then m2[i := m2[i].(close := false)][j := m2[j].(close := true)] else m2
  }

  /** The inner loop up to j. */
  function Passes(m: seq<Arc>, i: nat, j: nat, temp: int): (m': seq<Arc>)
    requires i < j <= |m|
    ensures |m'| == |m|
    decreases j
  {
    if j == i + 1 then m else Pass(Passes(m, i, j - 1, temp), i, j - 1, temp)
  }

  /** Some arc before j is redirected in step i, so Duplicate has been called. */
  ghost predicate Asks(m: seq<Arc>, i: nat, j: nat)
    requires i < j <= |m|
  {
    exists k :: i < k < j && Redirects(m, i, k)
  }

  /** The state after Duplicate has answered `temp`, or has not been called if that is -1. */
  function Copied(c: Config, fd: int, temp: int): Config {
    if temp == -1 || fd !in c.open then c
    else
      Config(c.m, c.open[temp := c.open[fd]],
             if |c.extra| < MAX_EXTRA_FDS then c.extra + [temp] else c.extra,
             c.trace + [Duplicated(temp, fd)])
  }

  /** The end of a step: Move, then Close if the arc still asks for it. */
  function AfterMove(arc: Arc, open: Table): Table {
    if Identity(arc) || arc.source !in open then open
    else
      var moved := open[arc.dest := open[arc.source]];
      if arc.close then moved - {arc.source} else moved
  }

  function MoveActions(arc: Arc): seq<Action> {
    (if Identity(arc) then [] else [Moved(arc.source, arc.dest)])
    + (if !Identity(arc) && arc.close then [Closed(arc.source)] else [])
  }

  /** One iteration of the outer loop. */
  function RunStep(c: Config, i: nat, temp: int): (c': Config)
    requires i < |c.m|
    ensures |c'.m| == |c.m|
  {
    var copied := Copied(c, c.m[i].dest, temp);
    var m := Passes(c.m, i, |c.m|, temp);
    Config(m, AfterMove(m[i], copied.open), copied.extra, copied.trace + MoveActions(m[i]))
  }

  function Run(arcs: seq<Arc>, init: Table, temps: seq<int>, i: nat): (c: Config)
    requires i <= |arcs| && i <= |temps|
    ensures |c.m| == |arcs|
    decreases i
  {
    if i == 0 then Config(arcs, init, [], [])
    else RunStep(Run(arcs, init, temps, i - 1), i - 1, temps[i-1])
  }

  /** What a delegate may answer in step i: a number that is not open. */
  ghost predicate Answers(c: Config, i: nat, temp: int)
    requires i < |c.m|
  {
    if Asks(c.m, i, |c.m|) then 0 <= temp && temp !in c.open else temp == -1
  }

  ghost predicate AnswersAt(arcs: seq<Arc>, init: Table, temps: seq<int>, i: nat)
    requires i < |arcs| && i < |temps|
  {
    Answers(Run(arcs, init, temps, i), i, temps[i])
  }

  ghost predicate Admissible(arcs: seq<Arc>, init: Table, temps: seq<int>, i: nat)
    requires i <= |arcs| && i <= |temps|
    decreases i
  {
    i > 0 ==> Admissible(arcs, init, temps, i - 1) && AnswersAt(arcs, init, temps, i - 1)
  }

  /** How a delegate chooses among the numbers that are not open: any but some that it keeps
      off, or, like dup, the lowest. */
  datatype Policy = KeepsOff(reserved: set<int>) | LowestNumber

  ghost predicate Chooses(policy: Policy, open: Table, temp: int) {
    match policy
    case KeepsOff(reserved) => temp !in reserved
    case LowestNumber => forall fd :: 0 <= fd < temp ==> fd in open
  }

  ghost predicate FollowsAt(policy: Policy, arcs: seq<Arc>, init: Table, temps: seq<int>, i: nat)
    requires i < |arcs| && i < |temps|
  {
    temps[i] != -1 ==> Chooses(policy, Run(arcs, init, temps, i).open, temps[i])
  }

  ghost predicate Follows(policy: Policy, arcs: seq<Arc>, init: Table, temps: seq<int>)
    requires |temps| <= |arcs|
  {
    forall i :: 0 <= i < |temps| ==> FollowsAt(policy, arcs, init, temps, i)
  }

  /** The table when the remembered duplicates have been closed as well. */
  function Outcome(arcs: seq<Arc>, init: Table, temps: seq<int>): Table
    requires |arcs| == |temps|
  {
    var c := Run(arcs, init, temps, |arcs|);
    c.open - set fd | fd in c.extra
  }

  lemma {:induction false} AdmissibleUpTo(arcs: seq<Arc>, init: Table, temps: seq<int>, i: nat, n: nat)
    requires i <= n <= |arcs| && n <= |temps| && Admissible(arcs, init, temps, n)
    ensures Admissible(arcs, init, temps, i)
    decreases n
  {
    if i < n {
      AdmissibleUpTo(arcs, init, temps, i, n - 1);
    }
  }

  // ----- the inner loop -----

  /** A pass changes only arc j and the close flag of arc i. */
  lemma {:induction false} PassesKeep(m: seq<Arc>, i: nat, j: nat, temp: int)
    requires i < j <= |m|
    ensures
      var m' := Passes(m, i, j, temp);
      && m'[i].source == m[i].source && m'[i].dest == m[i].dest
      && (forall k :: j <= k < |m| ==> m'[k] == m[k])
      && (forall k :: i < k < |m| ==> m'[k].dest == m[k].dest)
      && (forall k :: i < k < j ==> m'[k].source == if Redirects(m, i, k) then temp else m[k].source)
    decreases j
  {
    if j > i + 1 {
      PassesKeep(m, i, j - 1, temp);
    }
  }

  /** Until an arc is redirected the number does not matter. */
  lemma {:induction false} PassesIgnoreTemp(m: seq<Arc>, i: nat, j: nat, temp: int, temp': int)
    requires i < j <= |m| && !Asks(m, i, j)
    ensures Passes(m, i, j, temp) == Passes(m, i, j, temp')
    decreases j
  {
    if j > i + 1 {
      assert !Redirects(m, i, j - 1);
      PassesIgnoreTemp(m, i, j - 1, temp, temp');
      PassesKeep(m, i, j - 1, temp);
    }
  }

  /** An arc that has kept its close flag shares its source with no arc behind it. */
  lemma {:induction false} KeptCloseIsLast(m: seq<Arc>, i: nat, j: nat, temp: int)
    requires i < j <= |m|
    ensures
      var m' := Passes(m, i, j, temp);
      m'[i].close ==> forall k :: i < k < j ==> m'[k].source != m[i].source
    decreases j
  {
    if j > i + 1 {
      PassesKeep(m, i, j - 1, temp);
      KeptCloseIsLast(m, i, j - 1, temp);
      PassesKeep(m, i, j, temp);
    }
  }

  // ----- no call can be made on a number that is not open -----

  ghost predicate SourcesOpen(c: Config, i: nat) {
    forall k :: i <= k < |c.m| ==> c.m[k].source in c.open
  }

  lemma StepKeepsSourcesOpen(c: Config, i: nat, temp: int)
    requires i < |c.m| && SourcesOpen(c, i) && Answers(c, i, temp)
    ensures SourcesOpen(RunStep(c, i, temp), i + 1)
  {
    var n := |c.m|;
    var m := Passes(c.m, i, n, temp);
    PassesKeep(c.m, i, n, temp);
    KeptCloseIsLast(c.m, i, n, temp);
    var copied := Copied(c, c.m[i].dest, temp);
    forall k | i < k < n
      ensures m[k].source in copied.open
    {
      if Redirects(c.m, i, k) {
        assert c.m[k].source in c.open;
      }
    }
  }

  /** If all sources are open at the start, whatever numbers a delegate hands out, each
      Duplicate and each Move is called on an open number. */
  lemma {:induction false} SourcesStayOpen(arcs: seq<Arc>, init: Table, temps: seq<int>, i: nat)
    requires i <= |arcs| && i <= |temps| && Admissible(arcs, init, temps, i)
    requires AllOpen(arcs, init)
    ensures SourcesOpen(Run(arcs, init, temps, i), i)
  {
    if i > 0 {
      SourcesStayOpen(arcs, init, temps, i - 1);
      StepKeepsSourcesOpen(Run(arcs, init, temps, i - 1), i - 1, temps[i-1]);
    }
  }

  // ----- what is remembered -----

  lemma StepRemembers(c: Config, i: nat, temp: int)
    requires i < |c.m| && SourcesOpen(c, i) && Answers(c, i, temp)
    requires Asks(c.m, i, |c.m|) && |c.extra| < MAX_EXTRA_FDS
    ensures temp in RunStep(c, i, temp).extra
  {
    var k :| i < k < |c.m| && Redirects(c.m, i, k);
    assert c.m[k].source in c.open;
    assert Copied(c, c.m[i].dest, temp).extra == c.extra + [temp];
  }

  lemma ExtraGrows(c: Config, i: nat, temp: int)
    requires i < |c.m|
    ensures forall fd :: fd in c.extra ==> fd in RunStep(c, i, temp).extra
  {
    assert forall fd :: fd in c.extra ==> fd in Copied(c, c.m[i].dest, temp).extra;
  }

  lemma {:induction false} RememberedStays(arcs: seq<Arc>, init: Table, temps: seq<int>, i: nat, n: nat, fd: int)
    requires i <= n <= |arcs| && n <= |temps| && fd in Run(arcs, init, temps, i).extra
    ensures fd in Run(arcs, init, temps, n).extra
    decreases n
  {
    if i < n {
      RememberedStays(arcs, init, temps, i, n - 1, fd);
      ExtraGrows(Run(arcs, init, temps, n - 1), n - 1, temps[n-1]);
    }
  }

  // ----- what a run depends on -----

  /** What was called before does not matter to a step. */
  lemma StepAfter(c: Config, start: seq<Action>, i: nat, temp: int)
    requires i < |c.m|
    ensures RunStep(c.(trace := start + c.trace), i, temp)
            == RunStep(c, i, temp).(trace := start + RunStep(c, i, temp).trace)
    ensures Answers(c.(trace := start + c.trace), i, temp) == Answers(c, i, temp)
  {
    var fd, m := c.m[i].dest, Passes(c.m, i, |c.m|, temp);
    Associative(start, c.trace, [Duplicated(temp, fd)]);
    Associative(start, Copied(c, fd, temp).trace, MoveActions(m[i]));
  }

  /** The run so far depends only on the answers so far. */
  lemma {:induction false} RunPrefix(arcs: seq<Arc>, init: Table, temps: seq<int>, temps': seq<int>, i: nat)
    requires i <= |arcs| && i <= |temps| && i <= |temps'| && forall k :: 0 <= k < i ==> temps[k] == temps'[k]
    ensures Run(arcs, init, temps, i) == Run(arcs, init, temps', i)
  {
    if i > 0 {
      RunPrefix(arcs, init, temps, temps', i - 1);
    }
  }

  lemma {:induction false} AnswersPrefix(arcs: seq<Arc>, init: Table, temps: seq<int>, temps': seq<int>, i: nat)
    requires i < |arcs| && i < |temps| && i < |temps'| && forall k :: 0 <= k <= i ==> temps[k] == temps'[k]
    ensures AnswersAt(arcs, init, temps, i) == AnswersAt(arcs, init, temps', i)
  {
    RunPrefix(arcs, init, temps, temps', i);
  }

  lemma {:induction false} AdmissiblePrefix(arcs: seq<Arc>, init: Table, temps: seq<int>, temps': seq<int>, i: nat)
    requires i <= |arcs| && i <= |temps| && i <= |temps'| && forall k :: 0 <= k < i ==> temps[k] == temps'[k]
    ensures Admissible(arcs, init, temps, i) == Admissible(arcs, init, temps', i)
  {
    if i > 0 {
      AdmissiblePrefix(arcs, init, temps, temps', i - 1);
      AnswersPrefix(arcs, init, temps, temps', i - 1);
    }
  }

  lemma FollowsMore(policy: Policy, arcs: seq<Arc>, init: Table, temps: seq<int>, temp: int)
    requires |temps| < |arcs| && Follows(policy, arcs, init, temps)
    requires temp != -1 ==> Chooses(policy, Run(arcs, init, temps, |temps|).open, temp)
    ensures Follows(policy, arcs, init, temps + [temp])
  {
    forall i | 0 <= i <= |temps|
      ensures FollowsAt(policy, arcs, init, temps + [temp], i)
    {
      RunPrefix(arcs, init, temps, temps + [temp], i);
      assert i < |temps| ==> FollowsAt(policy, arcs, init, temps, i);
    }
  }
}
