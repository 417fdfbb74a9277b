/**
 base/file_descriptor_shuffle: carrying out a simultaneous assignment over a
 descriptor table with sequential Duplicate, Move and Close calls.  The loops keep
 the shape of the code and overwrite the arcs that are still to come.
 */
module FileDescriptorShuffle {
  import opened Common
  import opened ShuffleAnswers
  import opened ShuffleDelegates
  import opened ShuffleOutcome
  import opened ShuffleRun
  import opened ShuffleSpec

  // ----- the delegate -----

  /** Duplicate and Move may fail at any call when `mayFail` is set, and always
      fail on a number that is not open.  Duplicate hands out a number that is not
      open: the lowest, as dup does for FileDescriptorTableInjection, or any one that
      the delegate does not keep off.  `trace` lists the calls that succeeded. */
  class InjectionDelegate {
    var open: Table
    const mayFail: bool
    const policy: Policy
    ghost var trace: seq<Action>

    constructor (table: Table, mayFail: bool, policy: Policy)
      ensures open == table && trace == []
      ensures this.mayFail == mayFail && this.policy == policy
    {
      open := table;
      this.mayFail := mayFail;
      this.policy := policy;
      trace := [];
    }

    method Duplicate(fd: int) returns (ok: bool, result: int)
      modifies this
      ensures !ok ==> open == old(open) && trace == old(trace)
      ensures !ok ==> mayFail || fd !in old(open)
      ensures ok ==> fd in old(open) && 0 <= result
      ensures ok ==> result !in old(open) && Chooses(policy, old(open), result)
      ensures ok ==> open == old(open)[result := old(open)[fd]]
      ensures ok ==> trace == old(trace) + [Duplicated(result, fd)]
    {
      ok, result := fd in open, -1;
      if ok && mayFail {
        ok :| true;
      }
      if ok {
        match policy {
          case KeepsOff(reserved) =>
            FreshNumberExists(open.Keys + reserved);
            result :| 0 <= result && result !in open.Keys + reserved;
          case LowestNumber =>
            result := Lowest(open.Keys, 0);
            forall x | 0 <= x < result
              ensures x in open
            {
              BelowLowest(open.Keys, 0, x);
            }
        }
        trace := trace + [Duplicated(result, fd)];
        open := open[result := open[fd]];
      }
    }

    method Move(src: int, dest: int) returns (ok: bool)
      modifies this
      ensures !ok ==> open == old(open) && trace == old(trace)
      ensures !ok ==> mayFail || src !in old(open)
      ensures ok ==> src in old(open)
      ensures ok ==> open == old(open)[dest := old(open)[src]]
      ensures ok ==> trace == old(trace) + [Moved(src, dest)]
    {
      ok := src in open;
      if ok && mayFail {
        ok :| true;
      }
      if ok {
        trace := trace + [Moved(src, dest)];
        open := open[dest := open[src]];
      }
    }

    method Close(fd: int)
      modifies this
      ensures open == old(open) - {fd}
      ensures trace == old(trace) + [Closed(fd)]
    {
      trace := trace + [Closed(fd)];
      open := open - {fd};
    }
  }

  // ----- the loops -----

  /** The state of the loops in step i, which began at `c`, before its arc j. */
  ghost predicate MidStep(c: Config, i: nat, j: nat, temp: int, m: seq<Arc>, open: Table, extra: seq<int>,
                          trace: seq<Action>)
    requires i < j <= |c.m|
  {
    var copied := Copied(c, c.m[i].dest, temp);
    && m == Passes(c.m, i, j, temp) && (temp == -1 <==> !Asks(c.m, i, j))
    && (temp != -1 ==> 0 <= temp && temp !in c.open && c.m[i].dest in c.open)
    && open == copied.open && extra == copied.extra && trace == copied.trace
  }

  /** Arc j reads the destination of arc i: duplicate it, unless an earlier arc of
      this step already caused that. */
  method DuplicateOnce(fd: int, tempFd: int, delegate: InjectionDelegate, extraFds: array<int>, next: nat,
                       ghost c: Config)
    returns (ok: bool, tempFd': int, next': nat)
    requires next <= extraFds.Length == MAX_EXTRA_FDS && |c.extra| <= MAX_EXTRA_FDS
    requires delegate.open == Copied(c, fd, tempFd).open && extraFds[..next] == Copied(c, fd, tempFd).extra
    requires delegate.trace == Copied(c, fd, tempFd).trace
    modifies delegate, extraFds
    ensures ok ==> delegate.open == Copied(c, fd, tempFd').open && delegate.trace == Copied(c, fd, tempFd').trace
    ensures ok ==> next' <= MAX_EXTRA_FDS && extraFds[..next'] == Copied(c, fd, tempFd').extra
    ensures ok ==> if tempFd != -1 then tempFd' == tempFd
                   else 0 <= tempFd' && tempFd' !in c.open && Chooses(delegate.policy, c.open, tempFd') && fd in c.open
    ensures !ok ==> delegate.mayFail || fd !in c.open
    ensures !ok ==> tempFd == -1 && delegate.open == old(delegate.open) && delegate.trace == old(delegate.trace)
  {
    ok, tempFd', next' := true, tempFd, next;
    if tempFd == -1 {
      ok, tempFd' := delegate.Duplicate(fd);
      if ok && next' < MAX_EXTRA_FDS {
        extraFds[next'] := tempFd';
        next' := next' + 1;
      }
    }
  }

  lemma AsksNext(m: seq<Arc>, i: nat, j: nat)
    requires i < j < |m|
    ensures Asks(m, i, j + 1) <==> Asks(m, i, j) || Redirects(m, i, j)
  {
  }

  /** The body of the inner loop. */
  method RewriteArc(m: array<Arc>, i: nat, j: nat, isIdentity: bool, tempFd: int,
                    delegate: InjectionDelegate, extraFds: array<int>, next: nat, ghost c: Config)
    returns (ok: bool, tempFd': int, next': nat)
    requires i < j < m.Length == |c.m| && |c.extra| <= MAX_EXTRA_FDS
    requires next <= extraFds.Length == MAX_EXTRA_FDS && isIdentity == Identity(c.m[i])
    requires MidStep(c, i, j, tempFd, m[..], delegate.open, extraFds[..next], delegate.trace)
    modifies m, delegate, extraFds
    ensures ok ==> next' <= MAX_EXTRA_FDS
    ensures ok ==> MidStep(c, i, j + 1, tempFd', m[..], delegate.open, extraFds[..next'], delegate.trace)
    ensures ok ==> tempFd' != tempFd ==> Chooses(delegate.policy, c.open, tempFd')
    ensures !ok ==> delegate.mayFail || !SourcesOpen(c, i)
    ensures !ok ==> delegate.open == c.open && delegate.trace == c.trace
  {
    ok, tempFd', next' := true, tempFd, next;
    ghost var was := m[..];
    PassesKeep(c.m, i, j, tempFd);
    AsksNext(c.m, i, j);
    if !isIdentity && m[i].dest == m[j].source {
      ok, tempFd', next' := DuplicateOnce(m[i].dest, tempFd, delegate, extraFds, next, c);
      if !ok {
        assert delegate.mayFail || c.m[j].source !in c.open;
        return;
      }
      m[j] := m[j].(source := tempFd', close := false);
    }
    if m[i].close && m[i].source == m[j].dest {
      m[i] := m[i].(close := false);
    }
    if m[i].close && m[i].source == m[j].source {
      m[i] := m[i].(close := false);
      m[j] := m[j].(close := true);
    }
    assert m[..] == Pass(was, i, j, tempFd');
    if tempFd == -1 {
      PassesIgnoreTemp(c.m, i, j, tempFd, tempFd');
    }
  }

  /** The inner loop of step i: redirect the arcs that read its destination, and
      drop or hand on the close of arc i. */
  method RewritePending(m: array<Arc>, i: nat, delegate: InjectionDelegate, extraFds: array<int>, next: nat,
                        ghost c: Config)
    returns (ok: bool, tempFd: int, next': nat)
    requires i < m.Length && next <= extraFds.Length == MAX_EXTRA_FDS
    requires c == Config(m[..], delegate.open, extraFds[..next], delegate.trace)
    modifies m, delegate, extraFds
    ensures ok ==> next' <= MAX_EXTRA_FDS
    ensures ok ==> MidStep(c, i, m.Length, tempFd, m[..], delegate.open, extraFds[..next'], delegate.trace)
    ensures ok ==> tempFd != -1 ==> Chooses(delegate.policy, c.open, tempFd)
    ensures !ok ==> delegate.mayFail || !SourcesOpen(c, i)
    ensures !ok ==> delegate.open == c.open && delegate.trace == c.trace
  {
    tempFd, next', ok := -1, next, true;
    var isIdentity := m[i].source == m[i].dest;
    var j := i + 1;
    while j < m.Length
      invariant i < j <= m.Length && ok && next' <= MAX_EXTRA_FDS
      invariant MidStep(c, i, j, tempFd, m[..], delegate.open, extraFds[..next'], delegate.trace)
      invariant tempFd != -1 ==> Chooses(delegate.policy, c.open, tempFd)
    {
      ok, tempFd, next' := RewriteArc(m, i, j, isIdentity, tempFd, delegate, extraFds, next', c);
      if !ok {
        return;
      }
      j := j + 1;
    }
  }

  /** The end of a step: Move, then Close if the arc still asks for it. */
  method MoveAndClose(arc: Arc, delegate: InjectionDelegate) returns (ok: bool)
    modifies delegate
    ensures ok ==> delegate.open == AfterMove(arc, old(delegate.open))
    ensures ok ==> delegate.trace == old(delegate.trace) + MoveActions(arc)
    ensures !ok ==> delegate.mayFail || arc.source !in old(delegate.open)
    ensures !ok ==> delegate.open == old(delegate.open) && delegate.trace == old(delegate.trace)
  {
    ok := true;
    if arc.source != arc.dest {
      ok := delegate.Move(arc.source, arc.dest);
      if !ok {
        return;
      }
    }
    if arc.source != arc.dest && arc.close {
      delegate.Close(arc.source);
    }
  }

  /** A step has failed before it called anything, or after its Duplicate. */
  ghost predicate StopsIn(c: Config, i: nat, open: Table, trace: seq<Action>)
    requires i < |c.m|
  {
    || (open == c.open && trace == c.trace)
    || (exists temp :: 0 <= temp && temp !in c.open && c.m[i].dest in c.open
                       && open == c.open[temp := c.open[c.m[i].dest]]
                       && trace == c.trace + [Duplicated(temp, c.m[i].dest)])
  }

  /** One iteration of the outer loop. */
  method PerformStep(m: array<Arc>, i: nat, delegate: InjectionDelegate, extraFds: array<int>, next: nat)
    returns (ok: bool, tempFd: int, next': nat)
    requires i < m.Length && next <= extraFds.Length == MAX_EXTRA_FDS
    modifies m, delegate, extraFds
    ensures
      var c := old(Config(m[..], delegate.open, extraFds[..next], delegate.trace));
      && (ok ==> next' <= MAX_EXTRA_FDS && Answers(c, i, tempFd)
                 && (tempFd != -1 ==> Chooses(delegate.policy, c.open, tempFd))
                 && RunStep(c, i, tempFd) == Config(m[..], delegate.open, extraFds[..next'], delegate.trace))
      && (!ok ==> (delegate.mayFail || !SourcesOpen(c, i)) && StopsIn(c, i, delegate.open, delegate.trace))
  {
    ghost var c := Config(m[..], delegate.open, extraFds[..next], delegate.trace);
    ok, tempFd, next' := RewritePending(m, i, delegate, extraFds, next, c);
    if ok {
      PassesKeep(c.m, i, |c.m|, tempFd);
      ok := MoveAndClose(m[i], delegate);
    }
  }

  /** The run after i steps, behind the calls made before it. */
  ghost function After(arcs: seq<Arc>, init: Table, temps: seq<int>, i: nat, start: seq<Action>): Config
    requires i <= |arcs| && i <= |temps|
  {
    var c := Run(arcs, init, temps, i);
    c.(trace := start + c.trace)
  }

  lemma RunExtends(arcs: seq<Arc>, init: Table, temps: seq<int>, temp: int, i: nat)
    requires i < |arcs| && |temps| == i && Admissible(arcs, init, temps, i)
    requires Answers(Run(arcs, init, temps, i), i, temp)
    ensures Admissible(arcs, init, temps + [temp], i + 1)
    ensures Run(arcs, init, temps + [temp], i + 1) == RunStep(Run(arcs, init, temps, i), i, temp)
  {
    RunPrefix(arcs, init, temps, temps + [temp], i);
    AdmissiblePrefix(arcs, init, temps, temps + [temp], i);
  }

  lemma FailsOnClosed(arcs: seq<Arc>, init: Table, temps: seq<int>, i: nat, start: seq<Action>)
    requires i < |arcs| && i <= |temps| && Admissible(arcs, init, temps, i)
    ensures AllOpen(arcs, init) ==> SourcesOpen(After(arcs, init, temps, i, start), i)
  {
    if AllOpen(arcs, init) {
      SourcesStayOpen(arcs, init, temps, i);
    }
  }

  /** The steps that have been completed, and a last one that has failed: no call follows
      the one that failed. */
  ghost predicate StopsAfter(arcs: seq<Arc>, init: Table, temps: seq<int>, start: seq<Action>,
                             open: Table, trace: seq<Action>)
  {
    && |temps| < |arcs| && Admissible(arcs, init, temps, |temps|)
    && StopsIn(After(arcs, init, temps, |temps|, start), |temps|, open, trace)
  }

  /** The outer loop. */
  method PerformSteps(m: array<Arc>, delegate: InjectionDelegate, extraFds: array<int>)
    returns (ok: bool, ghost temps: seq<int>, next: nat)
    requires extraFds.Length == MAX_EXTRA_FDS
    modifies m, delegate, extraFds
    ensures ok ==> |temps| == m.Length && next <= MAX_EXTRA_FDS
    ensures ok ==> Admissible(old(m[..]), old(delegate.open), temps, m.Length)
    ensures ok ==> Follows(delegate.policy, old(m[..]), old(delegate.open), temps)
    ensures ok ==> After(old(m[..]), old(delegate.open), temps, m.Length, old(delegate.trace))
                   == Config(m[..], delegate.open, extraFds[..next], delegate.trace)
    ensures !delegate.mayFail && AllOpen(old(m[..]), old(delegate.open)) ==> ok
    ensures !ok ==> StopsAfter(old(m[..]), old(delegate.open), temps, old(delegate.trace),
                               delegate.open, delegate.trace)
  {
    ghost var arcs, init, start := m[..], delegate.open, delegate.trace;
    next, temps := 0, [];
    var i := 0;
    while i < m.Length
      invariant i <= m.Length && |temps| == i && next <= MAX_EXTRA_FDS
      invariant Admissible(arcs, init, temps, i) && Follows(delegate.policy, arcs, init, temps)
      invariant After(arcs, init, temps, i, start) == Config(m[..], delegate.open, extraFds[..next], delegate.trace)
    {
      ghost var c := Run(arcs, init, temps, i);
      var tempFd;
      ok, tempFd, next := PerformStep(m, i, delegate, extraFds, next);
      if !ok {
        FailsOnClosed(arcs, init, temps, i, start);
        return;
      }
      StepAfter(c, start, i, tempFd);
      RunExtends(arcs, init, temps, tempFd, i);
      FollowsMore(delegate.policy, arcs, init, temps, tempFd);
      temps := temps + [tempFd];
      i := i + 1;
    }
    ok := true;
  }

  method CloseExtraFds(extraFds: array<int>, next: nat, delegate: InjectionDelegate)
    requires next <= extraFds.Length
    modifies delegate
    ensures delegate.open == old(delegate.open) - set fd | fd in extraFds[..next]
    ensures delegate.trace == old(delegate.trace) + CloseAll(extraFds[..next])
  {
    var c := 0;
    while c < next
      invariant c <= next
      invariant delegate.open == old(delegate.open) - set fd | fd in extraFds[..c]
      invariant delegate.trace == old(delegate.trace) + CloseAll(extraFds[..next])[..c]
    {
      assert extraFds[..c+1] == extraFds[..c] + [extraFds[c]];
      delegate.Close(extraFds[c]);
      c := c + 1;
    }
  }

  /** For any delegate at all: the calls and the final table are those of `Run` on what
      Duplicate answered, and it succeeds unless the delegate fails or a source is not
      open. */
  method PerformInjectiveMultimapDestructive(m: array<Arc>, delegate: InjectionDelegate)
    returns (ok: bool, ghost temps: seq<int>)
    requires DistinctDests(m[..])
    modifies m, delegate
    ensures ok ==> |temps| == m.Length && Admissible(old(m[..]), old(delegate.open), temps, m.Length)
    ensures ok ==> Follows(delegate.policy, old(m[..]), old(delegate.open), temps)
    ensures ok ==> delegate.open == Outcome(old(m[..]), old(delegate.open), temps)
    ensures ok ==>
              var c := Run(old(m[..]), old(delegate.open), temps, m.Length);
              delegate.trace == (old(delegate.trace) + c.trace) + CloseAll(c.extra)
    ensures !delegate.mayFail && AllOpen(old(m[..]), old(delegate.open)) ==> ok
    ensures !ok ==> StopsAfter(old(m[..]), old(delegate.open), temps, old(delegate.trace),
                               delegate.open, delegate.trace)
  {
    var extraFds := new int[MAX_EXTRA_FDS];
    var nextExtraFd;
    ok, temps, nextExtraFd := PerformSteps(m, delegate, extraFds);
    if ok {
      CloseExtraFds(extraFds, nextExtraFd, delegate);
    }
  }

  ghost predicate KeepsOffAll(policy: Policy, numbers: set<int>) {
    policy.KeepsOff? && numbers <= policy.reserved
  }

  lemma PolicyKeepsOff(policy: Policy, arcs: seq<Arc>, init: Table, temps: seq<int>)
    requires |temps| == |arcs| && Follows(policy, arcs, init, temps) && KeepsOffAll(policy, Named(arcs))
    ensures KeepsOffNamed(arcs, temps)
  {
    forall k | 0 <= k < |temps| && temps[k] != -1
      ensures temps[k] !in Named(arcs)
    {
      assert FollowsAt(policy, arcs, init, temps, k);
    }
  }

  lemma RunAchieves(policy: Policy, arcs: seq<Arc>, init: Table, temps: seq<int>)
    requires DistinctDests(arcs) && |temps| == |arcs| && AllOpen(arcs, init)
    requires Admissible(arcs, init, temps, |arcs|) && Follows(policy, arcs, init, temps)
    ensures
      var fits := DuplicateCount(arcs, |arcs|) <= MAX_EXTRA_FDS;
      var achieves := Achieves(arcs, init, Outcome(arcs, init, temps));
      && (fits && !ClosesIdentity(arcs) && !MayCollide(arcs, init) ==> achieves)
      && (KeepsOffAll(policy, Named(arcs)) ==>
            KeepsOffNamed(arcs, temps) && (achieves <==> !ClosesIdentity(arcs) && fits))
      && (policy.LowestNumber? && fits ==>
            (achieves <==> !ClosesIdentity(arcs) && !Hits(arcs, DupAnswers(arcs, init, |arcs|))))
  {
    var fits := DuplicateCount(arcs, |arcs|) <= MAX_EXTRA_FDS;
    if fits && !ClosesIdentity(arcs) && !MayCollide(arcs, init) {
      AnswersAchieve(arcs, init, temps);
    }
    if KeepsOffAll(policy, Named(arcs)) {
      PolicyKeepsOff(policy, arcs, init, temps);
      ContractAchievesIff(arcs, temps, init);
    }
    if policy.LowestNumber? && fits {
      DupAchievesIff(arcs, temps, init);
    }
  }

  /** The same on a copy of the arcs.  It carries out the simultaneous assignment under
      the condition of AchievesForEveryDelegate, with a delegate that keeps off the named
      numbers exactly under that of AchievesExactly, and with dup, if the duplicates fit in
      the buffer, exactly under that of DupAchievesIff. */
  method PerformInjectiveMultimap(arcs: seq<Arc>, delegate: InjectionDelegate)
    returns (ok: bool, ghost temps: seq<int>)
    requires DistinctDests(arcs)
    modifies delegate
    ensures !delegate.mayFail && AllOpen(arcs, old(delegate.open)) ==> ok
    ensures !ok ==> StopsAfter(arcs, old(delegate.open), temps, old(delegate.trace), delegate.open, delegate.trace)
    ensures ok ==> |temps| == |arcs| && Admissible(arcs, old(delegate.open), temps, |arcs|)
    ensures ok ==> delegate.open == Outcome(arcs, old(delegate.open), temps)
    ensures ok && AllOpen(arcs, old(delegate.open)) && !MayCollide(arcs, old(delegate.open))
            && !ClosesIdentity(arcs) && DuplicateCount(arcs, |arcs|) <= MAX_EXTRA_FDS ==>
              Achieves(arcs, old(delegate.open), delegate.open)
    ensures ok && AllOpen(arcs, old(delegate.open)) && KeepsOffAll(delegate.policy, Named(arcs)) ==>
              (Achieves(arcs, old(delegate.open), delegate.open)
               <==> !ClosesIdentity(arcs) && DuplicateCount(arcs, |arcs|) <= MAX_EXTRA_FDS)
    ensures ok && AllOpen(arcs, old(delegate.open)) && delegate.policy.LowestNumber?
            && DuplicateCount(arcs, |arcs|) <= MAX_EXTRA_FDS ==>
              (Achieves(arcs, old(delegate.open), delegate.open)
               <==> !ClosesIdentity(arcs) && !Hits(arcs, DupAnswers(arcs, old(delegate.open), |arcs|)))
    ensures ok && AllOpen(arcs, old(delegate.open))
            && (!MayCollide(arcs, old(delegate.open)) || KeepsOffAll(delegate.policy, Named(arcs))) ==>
              && old(delegate.trace) <= delegate.trace
              && ClosesInOrder(arcs, Remembered(Duplicates(arcs, temps, |arcs|)),
                               delegate.trace[|old(delegate.trace)|..])
  {
    var m := new Arc[|arcs|](k requires 0 <= k < |arcs| => arcs[k]);
    assert m[..] == arcs;
    ghost var init, trace := delegate.open, delegate.trace;
    ok, temps := PerformInjectiveMultimapDestructive(m, delegate);
    if ok && AllOpen(arcs, init) {
      RunAchieves(delegate.policy, arcs, init, temps);
      if !MayCollide(arcs, init) || KeepsOffAll(delegate.policy, Named(arcs)) {
        RunClosesInOrder(arcs, init, temps);
        Associative(trace, Run(arcs, init, temps, |arcs|).trace, CloseAll(Run(arcs, init, temps, |arcs|).extra));
      }
    }
  }
}
