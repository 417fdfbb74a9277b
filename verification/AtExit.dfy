/**
 base/at_exit.cc with base/lazy_instance: on one thread, what order lazily created
 instances are destroyed in.  Instances are numbered.  The constructor of instance k
 touches the instances `touches[k]` through their Pointer(), in an order on which nothing here depends.
 */
module AtExit {
  import opened Common

  /** Everything non-leaky that the j-th registered instance touches was registered
      before it. */
  ghost predicate RegisteredAfterTouched(touches: seq<seq<nat>>, leaky: seq<bool>, stack: seq<nat>, j: nat)
    requires j < |stack|
  {
    && stack[j] < |touches|
    && (forall d :: d in touches[stack[j]] && d < |leaky| && !leaky[d] ==> d in stack[..j])
  }

  ghost predicate Ordered(touches: seq<seq<nat>>, leaky: seq<bool>, stack: seq<nat>) {
    forall j :: 0 <= j < |stack| ==> RegisteredAfterTouched(touches, leaky, stack, j)
  }

  ghost predicate TouchesLower(touches: seq<seq<nat>>, rank: seq<nat>, k: nat)
    requires k < |touches| == |rank|
  {
    forall d :: d in touches[k] ==> d < |touches| && rank[d] < rank[k]
  }

  /** No constructor touches its own instance, directly or through others: such a call
      would spin for ever.  `rank` is the evidence. */
  ghost predicate AcyclicBy(touches: seq<seq<nat>>, rank: seq<nat>) {
    && |touches| == |rank|
    && (forall k :: 0 <= k < |touches| ==> TouchesLower(touches, rank, k))
  }

  /** Taking `top` off the end of what is left of the stack. */
  lemma ReversedConcat(stack: seq<nat>, below: seq<nat>, top: seq<nat>)
    requires below + top <= stack
    ensures Reversed(stack)[..|stack| - |below|] == Reversed(stack)[..|stack| - |below| - |top|] + Reversed(top)
  {
  }

  lemma ReversedWhole(start: seq<nat>, stack: seq<nat>, last: seq<nat>)
    requires last <= stack
    ensures (start + Reversed(stack)[..|stack| - |last|]) + Reversed(last) == start + Reversed(stack)
  {
    ReversedConcat(stack, [], last);
    assert [] + last == last;
    assert Reversed(stack)[..|stack|] == Reversed(stack);
    Associative(start, Reversed(stack)[..|stack| - |last|], Reversed(last));
  }

  lemma OrderedPush(touches: seq<seq<nat>>, leaky: seq<bool>, stack: seq<nat>, k: nat)
    requires |touches| == |leaky| && Ordered(touches, leaky, stack) && Distinct(stack) && k !in stack && k < |touches|
    requires forall d :: d in touches[k] && d < |leaky| && !leaky[d] ==> d in stack
    ensures Ordered(touches, leaky, stack + [k]) && Distinct(stack + [k])
  {
    var more := stack + [k];
    forall j | 0 <= j < |more|
      ensures RegisteredAfterTouched(touches, leaky, more, j)
    {
      if j < |stack| {
        assert more[..j] == stack[..j] && RegisteredAfterTouched(touches, leaky, stack, j);
      } else {
        assert more[..j] == stack;
      }
    }
  }

  lemma OrderedPop(touches: seq<seq<nat>>, leaky: seq<bool>, stack: seq<nat>, k: nat)
    requires Ordered(touches, leaky, stack + [k]) && Distinct(stack + [k])
    ensures Ordered(touches, leaky, stack) && Distinct(stack) && k !in stack && k < |touches|
  {
    var more := stack + [k];
    assert more[|stack|] == k;
    forall j | 0 <= j < |stack|
      ensures RegisteredAfterTouched(touches, leaky, stack, j) && stack[j] != k
    {
      assert more[..j] == stack[..j] && RegisteredAfterTouched(touches, leaky, more, j);
    }
    assert RegisteredAfterTouched(touches, leaky, more, |stack|);
    forall i, j | 0 <= i < j < |stack|
      ensures stack[i] != stack[j]
    {
      assert more[i] != more[j];
    }
  }

  /** When k is popped, everything it touches and does not leak is still below. */
  lemma TouchedStays(touches: seq<seq<nat>>, leaky: seq<bool>, stack: seq<nat>, k: nat)
    requires Ordered(touches, leaky, stack + [k])
    ensures k < |touches| && forall d :: d in touches[k] && d < |leaky| && !leaky[d] ==> d in stack
  {
    var more := stack + [k];
    assert more[|stack|] == k && more[..|stack|] == stack;
    assert RegisteredAfterTouched(touches, leaky, more, |stack|);
  }

  ghost predicate Before(log: seq<nat>, k: nat, d: nat) {
    exists i, j :: 0 <= i < j < |log| && log[i] == k && log[j] == d
  }

  /** What k touches and does not leak has been registered before k. */
  lemma TouchedIsBelow(touches: seq<seq<nat>>, leaky: seq<bool>, stack: seq<nat>, k: nat, d: nat)
    requires Ordered(touches, leaky, stack) && k in stack && k < |touches|
    requires d in touches[k] && d < |leaky| && !leaky[d]
    ensures Before(stack, d, k)
  {
    var at :| 0 <= at < |stack| && stack[at] == k;
    assert RegisteredAfterTouched(touches, leaky, stack, at);
    var dt :| 0 <= dt < at && stack[..at][dt] == d;
    assert stack[dt] == d;
  }

  lemma BeforeReversed(stack: seq<nat>, k: nat, d: nat)
    requires Before(stack, d, k)
    ensures Before(Reversed(stack), k, d)
  {
    var i, j :| 0 <= i < j < |stack| && stack[i] == d && stack[j] == k;
    assert Reversed(stack)[|stack| - 1 - j] == k && Reversed(stack)[|stack| - 1 - i] == d;
  }

  /** Of the top of the stack, on which k is, d is destroyed after k or not at all. */
  lemma TopOrder(touches: seq<seq<nat>>, leaky: seq<bool>, below: seq<nat>, top: seq<nat>, k: nat, d: nat)
    requires Ordered(touches, leaky, below + top) && Distinct(below + top)
    requires k in top && k < |touches| && d in touches[k] && d < |leaky| && !leaky[d]
    ensures Before(Reversed(top), k, d) || d in below
  {
    var stack := below + top;
    assert k in stack;
    TouchedIsBelow(touches, leaky, stack, k, d);
    var i, j :| 0 <= i < j < |stack| && stack[i] == d && stack[j] == k;
    var at :| 0 <= at < |top| && top[at] == k;
    assert stack[|below| + at] == k;
    if i >= |below| {
      assert top[i - |below|] == d && top[j - |below|] == k;
      BeforeReversed(top, k, d);
    }
  }

  /** Each instance of the chain touches the next, and none is leaky. */
  ghost predicate IsChain(touches: seq<seq<nat>>, leaky: seq<bool>, chain: seq<nat>) {
    && |touches| == |leaky| && |chain| >= 2
    && (forall i :: 0 <= i < |chain| ==> chain[i] < |touches| && !leaky[chain[i]])
    && (forall i :: 0 <= i < |chain| - 1 ==> chain[i+1] in touches[chain[i]])
  }

  lemma BeforeIsTransitive(stack: seq<nat>, a: nat, b: nat, c: nat)
    requires Distinct(stack) && Before(stack, a, b) && Before(stack, b, c)
    ensures Before(stack, a, c)
  {
    var i, j :| 0 <= i < j < |stack| && stack[i] == a && stack[j] == b;
    var k, l :| 0 <= k < l < |stack| && stack[k] == b && stack[l] == c;
    assert j == k;
  }

  /** An instance is registered after everything that its constructor reaches through
      instances that are not leaky. */
  lemma {:induction false} ChainIsOrdered(touches: seq<seq<nat>>, leaky: seq<bool>, stack: seq<nat>, chain: seq<nat>)
    requires Ordered(touches, leaky, stack) && Distinct(stack)
    requires IsChain(touches, leaky, chain) && chain[0] in stack
    ensures Before(stack, chain[|chain|-1], chain[0])
  {
    TouchedIsBelow(touches, leaky, stack, chain[0], chain[1]);
    if |chain| > 2 {
      ChainIsOrdered(touches, leaky, stack, chain[1..]);
      BeforeIsTransitive(stack, chain[|chain|-1], chain[1], chain[0]);
    }
  }

  /** Each registered instance is destroyed exactly once. */
  lemma DestroyedOnce(stack: seq<nat>)
    requires Distinct(stack)
    ensures Distinct(Reversed(stack)) && forall k :: k in Reversed(stack) <==> k in stack
  {
    forall k | k in stack
      ensures k in Reversed(stack)
    {
      var at :| 0 <= at < |stack| && stack[at] == k;
      assert Reversed(stack)[|stack| - 1 - at] == k;
    }
  }

  /** The log destroys each instance of the stack once, and before everything that its
      constructor reaches through instances that are not leaky. */
  ghost predicate DestroysInOrder(touches: seq<seq<nat>>, leaky: seq<bool>, stack: seq<nat>, log: seq<nat>) {
    && Distinct(log) && (forall k :: k in log <==> k in stack)
    && (forall chain :: IsChain(touches, leaky, chain) && chain[0] in stack ==>
          Before(log, chain[0], chain[|chain|-1]))
  }

  lemma StackDestroyedInOrder(touches: seq<seq<nat>>, leaky: seq<bool>, stack: seq<nat>)
    requires Ordered(touches, leaky, stack) && Distinct(stack)
    ensures DestroysInOrder(touches, leaky, stack, Reversed(stack))
  {
    forall chain | IsChain(touches, leaky, chain) && chain[0] in stack
      ensures Before(Reversed(stack), chain[0], chain[|chain|-1])
    {
      ChainIsOrdered(touches, leaky, stack, chain);
      BeforeReversed(stack, chain[0], chain[|chain|-1]);
    }
    DestroyedOnce(stack);
  }

  /** In such an order an instance is destroyed before each one that it touches. */
  lemma DestroyedBeforeTouched(touches: seq<seq<nat>>, leaky: seq<bool>, stack: seq<nat>, log: seq<nat>, k: nat, d: nat)
    requires DestroysInOrder(touches, leaky, stack, log) && |touches| == |leaky|
    requires k in stack && k < |touches| && !leaky[k] && d in touches[k] && d < |leaky| && !leaky[d]
    ensures Before(log, k, d)
  {
    assert IsChain(touches, leaky, [k, d]);
  }

  /** Whoever is in the set and has still to be created touches only what is in it. */
  ghost predicate ClosedUnder(touches: seq<seq<nat>>, phases: seq<Phase>, within: set<nat>) {
    |phases| == |touches|
    && forall k, d :: k in within && k < |touches| && phases[k] != Created && d in touches[k] ==> d in within
  }

  ghost predicate ChangesOnly(was: seq<Phase>, now: seq<Phase>, within: set<nat>) {
    |was| == |now| && forall j :: 0 <= j < |was| && now[j] != was[j] ==> j in within
  }

  /** What k asks for is in every closed set that k is in, and so is all that this creates. */
  lemma ChangesAdd(touches: seq<seq<nat>>, was: seq<Phase>, mid: seq<Phase>, now: seq<Phase>, k: nat, d: nat)
    requires k < |was| == |mid| == |touches| && was[k] != Created && d in touches[k]
    requires forall j :: 0 <= j < |was| && was[j] == Created ==> mid[j] == Created
    requires forall within :: d in within && ClosedUnder(touches, mid, within) ==> ChangesOnly(mid, now, within)
    requires forall within :: k in within && ClosedUnder(touches, was, within) ==> ChangesOnly(was, mid, within)
    ensures forall within :: k in within && ClosedUnder(touches, was, within) ==> ChangesOnly(was, now, within)
  {
    forall within | k in within && ClosedUnder(touches, was, within)
      ensures ChangesOnly(was, now, within)
    {
      assert ClosedUnder(touches, mid, within) && d in within;
      assert ChangesOnly(was, mid, within) && ChangesOnly(mid, now, within);
    }
  }

  ghost predicate IsReached(touches: seq<seq<nat>>, leaky: seq<bool>, k: nat, d: nat) {
    exists chain :: IsChain(touches, leaky, chain) && chain[0] == k && chain[|chain|-1] == d
  }

  lemma ReachesNothing(touches: seq<seq<nat>>, leaky: seq<bool>, k: nat)
    requires k < |touches| && forall d :: d in touches[k] && d < |leaky| ==> leaky[d]
    ensures forall d :: !IsReached(touches, leaky, k, d)
  {
    forall chain: seq<nat> | |chain| >= 2 && chain[0] == k
      ensures !IsChain(touches, leaky, chain)
    {
      assert chain[1] in touches[k] && chain[1] < |leaky| ==> leaky[chain[1]];
    }
  }

  lemma ReachedFurther(touches: seq<seq<nat>>, leaky: seq<bool>, k: nat, d: nat, e: nat)
    requires IsReached(touches, leaky, k, d) || (k == d < |touches| == |leaky| && !leaky[k])
    requires d < |touches| && e in touches[d] && e < |touches| && !leaky[e]
    ensures IsReached(touches, leaky, k, e)
  {
    if IsReached(touches, leaky, k, d) {
      var chain :| IsChain(touches, leaky, chain) && chain[0] == k && chain[|chain|-1] == d;
      assert IsChain(touches, leaky, chain + [e]);
    } else {
      assert IsChain(touches, leaky, [k, e]);
    }
  }

  /** The instances that may be created along with k when all leaky ones have been. */
  ghost function CreatedWith(touches: seq<seq<nat>>, leaky: seq<bool>, k: nat): set<nat>
    requires |touches| == |leaky|
  {
    set j: nat | j < |touches| && (leaky[j] || j == k || IsReached(touches, leaky, k, j))
  }

  lemma CreatedWithIsClosed(touches: seq<seq<nat>>, leaky: seq<bool>, rank: seq<nat>, phases: seq<Phase>, k: nat)
    requires |touches| == |leaky| == |phases| && AcyclicBy(touches, rank) && k < |touches| && !leaky[k]
    requires forall j :: 0 <= j < |phases| && leaky[j] ==> phases[j] == Created
    ensures ClosedUnder(touches, phases, CreatedWith(touches, leaky, k))
  {
    var within := CreatedWith(touches, leaky, k);
    forall j, d | j in within && phases[j] != Created && d in touches[j]
      ensures d in within
    {
      assert TouchesLower(touches, rank, j);
      if !leaky[d] {
        ReachedFurther(touches, leaky, k, j, d);
      }
    }
  }

  class Process {
    const touches: seq<seq<nat>>
    const leaky: seq<bool>
    ghost const rank: seq<nat>
    var phases: seq<Phase>
    /** The stacks of the at-exit managers; g_top_manager is the last. */
    var managers: seq<seq<nat>>
    ghost var destroyed: seq<nat>

    ghost function Stack(): seq<nat>
      reads this
    {
      Flatten(managers)
    }

    ghost predicate Acyclic() {
      |touches| == |leaky| && AcyclicBy(touches, rank)
    }

    /** The constructor of k touches d, which is not leaky. */
    ghost predicate IsTouched(k: nat, d: nat) {
      k < |touches| && d in touches[k] && d < |leaky| && !leaky[d]
    }

    ghost predicate Valid()
      reads this
    {
      && Acyclic() && |phases| == |touches| && |managers| > 0
      && Distinct(Stack()) && Ordered(touches, leaky, Stack())
      && (forall k :: 0 <= k < |phases| ==> (k in Stack() <==> phases[k] == Created && !leaky[k]))
    }

    constructor (touches: seq<seq<nat>>, leaky: seq<bool>, ghost rank: seq<nat>)
      requires |touches| == |leaky| && AcyclicBy(touches, rank)
      ensures Valid() && Stack() == [] && destroyed == []
      ensures this.touches == touches && this.leaky == leaky && managers == [[]]
      ensures forall k :: 0 <= k < |phases| ==> phases[k] == Empty
    {
      this.touches, this.leaky, this.rank := touches, leaky, rank;
      phases := seq(|touches|, _ => Empty);
      managers, destroyed := [[]], [];
      new;
      assert managers == [] + [[]];
      FlattenTop<nat>([], []);
    }

    /** An instance under construction is not asked for again. */
    ghost predicate NoneWaiting(k: nat)
      requires Acyclic() && |phases| == |touches| && k < |touches|
      reads this
    {
      forall j :: 0 <= j < |phases| && phases[j] == Creating ==> rank[k] < rank[j]
    }

    /** Nothing goes back, and what is under construction stays so. */
    static ghost predicate OnlyCreates(was: seq<Phase>, now: seq<Phase>) {
      && |was| == |now|
      && (forall j :: 0 <= j < |was| ==> now[j] == was[j] || (was[j] == Empty && now[j] == Created))
    }

    /** The constructor of instance k. */
    method TouchAll(k: nat)
      requires Valid() && k < |touches| && phases[k] == Creating
      requires forall j :: 0 <= j < |phases| && phases[j] == Creating ==> rank[k] <= rank[j]
      modifies `phases, `managers
      ensures Valid() && OnlyCreates(old(phases), phases)
      ensures forall d :: d in touches[k] ==> d < |phases| && phases[d] == Created
      ensures |managers| == |old(managers)| && managers[..|managers|-1] == old(managers)[..|managers|-1]
      ensures old(managers)[|managers|-1] <= managers[|managers|-1]
      ensures (forall d :: d in touches[k] ==> d < |phases| && old(phases)[d] == Created) ==> phases == old(phases)
      ensures forall within :: k in within && ClosedUnder(touches, old(phases), within) ==>
                ChangesOnly(old(phases), phases, within)
      decreases rank[k], 0
    {
      assert TouchesLower(touches, rank, k);
      var i := 0;
      while i < |touches[k]|
        invariant 0 <= i <= |touches[k]|
        invariant Valid() && OnlyCreates(old(phases), phases)
        invariant forall d :: d in touches[k][..i] ==> d < |phases| && phases[d] == Created
        invariant |managers| == |old(managers)| && managers[..|managers|-1] == old(managers)[..|managers|-1]
        invariant old(managers)[|managers|-1] <= managers[|managers|-1]
        invariant (forall d :: d in touches[k] ==> d < |phases| && old(phases)[d] == Created) ==> phases == old(phases)
        invariant forall within :: k in within && ClosedUnder(touches, old(phases), within) ==>
                    ChangesOnly(old(phases), phases, within)
      {
        assert touches[k][i] in touches[k] && touches[k][..i+1] == touches[k][..i] + [touches[k][i]];
        ghost var before := phases;
        Pointer(touches[k][i]);
        ChangesAdd(touches, old(phases), before, phases, k, touches[k][i]);
        i := i + 1;
      }
      assert touches[k][..i] == touches[k];
    }

    /** AtExitManager::RegisterCallback(OnExit, k), with everything k touches created. */
    method RegisterCallback(k: nat)
      requires Acyclic() && |phases| == |touches| && |managers| > 0 && k < |touches|
      requires Distinct(Stack()) && Ordered(touches, leaky, Stack()) && k !in Stack() && !leaky[k]
      requires forall d :: d in touches[k] && d < |leaky| && !leaky[d] ==> d in Stack()
      modifies `managers
      ensures |managers| == |old(managers)| && managers[..|managers|-1] == old(managers)[..|managers|-1]
      ensures managers[|managers|-1] == old(managers)[|managers|-1] + [k]
      ensures Stack() == old(Stack()) + [k]
      ensures Distinct(Stack()) && Ordered(touches, leaky, Stack())
    {
      ghost var below, top, was := managers[..|managers|-1], managers[|managers|-1], Stack();
      FlattenTop(below, top + [k]);
      Associative(Flatten(below), top, [k]);
      managers := managers[|managers|-1 := managers[|managers|-1] + [k]];
      assert managers == below + [top + [k]];
      OrderedPush(touches, leaky, was, k);
    }

    method Pointer(k: nat)
      requires Valid() && k < |touches| && NoneWaiting(k)
      modifies `phases, `managers
      ensures Valid() && phases[k] == Created && OnlyCreates(old(phases), phases)
      ensures |managers| == |old(managers)| && managers[..|managers|-1] == old(managers)[..|managers|-1]
      ensures old(managers)[|managers|-1] <= managers[|managers|-1]
      ensures old(phases[k]) == Created ==> phases == old(phases)
      ensures (forall d :: d in touches[k] ==> d < |phases| && old(phases)[d] == Created) ==>
                phases == old(phases)[k := Created]
      ensures forall within :: k in within && ClosedUnder(touches, old(phases), within) ==>
                ChangesOnly(old(phases), phases, within)
      decreases rank[k]
    {
      if phases[k] != Created {
        phases := phases[k := Creating];
        TouchAll(k);
        phases := phases[k := Created];
        if !leaky[k] {
          RegisterCallback(k);
        }
      }
    }

    method OnExit(k: nat)
      requires k < |phases|
      modifies `phases, `destroyed
      ensures phases == old(phases)[k := Empty] && destroyed == old(destroyed) + [k]
    {
      destroyed := destroyed + [k];
      phases := phases[k := Empty];
    }

    /** Pops one callback and runs it. */
    method RunLast(n: nat)
      requires Valid() && forall j :: 0 <= j < |phases| ==> phases[j] != Creating
      requires n == |managers| - 1 && |managers[n]| > 0
      modifies `phases, `managers, `destroyed
      ensures Valid() && managers == old(managers)[..n] + [old(managers)[n][..|old(managers)[n]|-1]]
      ensures
        var k := old(managers)[n][|old(managers)[n]|-1];
        && k < |old(phases)| && phases == old(phases)[k := Empty] && destroyed == old(destroyed) + [k]
        && (forall d: nat :: IsTouched(k, d) ==> phases[d] == Created)
    {
      ghost var below, stack, left := managers[..n], managers[n], |managers[n]| - 1;
      assert managers == below + [stack];
      FlattenTop(below, stack);
      var k := managers[n][|managers[n]|-1];
      assert stack == stack[..left] + [k];
      Associative(Flatten(below), stack[..left], [k]);
      assert Stack() == Flatten(below) + stack[..left] + [k];
      FlattenTop(below, stack[..left]);
      TouchedStays(touches, leaky, Flatten(below) + stack[..left], k);
      OrderedPop(touches, leaky, Flatten(below) + stack[..left], k);
      managers := managers[n := managers[n][..|managers[n]|-1]];
      assert managers == below + [stack[..left]];
      OnExit(k);
    }

    /** Runs the callbacks of the top manager, last registered first. */
    method ProcessCallbacksNow()
      requires Valid() && forall j :: 0 <= j < |phases| ==> phases[j] != Creating
      modifies `phases, `managers, `destroyed
      ensures Valid() && managers == old(managers)[..|old(managers)|-1] + [[]]
      ensures destroyed == old(destroyed) + Reversed(old(managers)[|old(managers)|-1])
      ensures |phases| == |old(phases)| && forall j :: 0 <= j < |phases| ==>
                phases[j] == if j in old(managers)[|old(managers)|-1] then Empty else old(phases)[j]
      ensures forall k: nat, d: nat :: IsTouched(k, d) && k in old(managers)[|old(managers)|-1] ==>
                Before(destroyed[|old(destroyed)|..], k, d) || phases[d] == Created
    {
      ghost var below, top := managers[..|managers|-1], managers[|managers|-1];
      FlattenTop(below, top);
      assert managers == below + [top];
      ghost var stack := Stack();
      var n := |managers| - 1;
      while |managers[n]| > 0
        invariant n == |managers| - 1 == |below| && managers == below + [managers[n]] && managers[n] <= top
        invariant Valid()
        invariant destroyed == old(destroyed) + Reversed(top)[..|top| - |managers[n]|]
        invariant |phases| == |old(phases)| && forall j :: 0 <= j < |phases| ==>
                    phases[j] == if j in top[|managers[n]|..] then Empty else old(phases)[j]
        decreases |managers[n]|
      {
        ghost var left := |managers[n]| - 1;
        RunLast(n);
        assert top[left..] == [top[left]] + top[left+1..];
        assert Reversed(top)[..|top| - left] == Reversed(top)[..|top| - left - 1] + [top[left]];
      }
      assert Reversed(top)[..|top|] == Reversed(top) && destroyed[|old(destroyed)|..] == Reversed(top);
      FlattenTop(below, []);
      forall k: nat, d: nat | IsTouched(k, d) && k in top
        ensures Before(Reversed(top), k, d) || phases[d] == Created
      {
        TopOrder(touches, leaky, Flatten(below), top, k, d);
      }
    }

    /** A shadowing manager goes on top, and processes its callbacks when it goes. */
    method NewManager()
      requires Valid()
      modifies `managers
      ensures Valid() && managers == old(managers) + [[]]
    {
      FlattenTop(managers, []);
      assert Flatten(managers + [[]]) == Flatten(managers);
      managers := managers + [[]];
    }

    method DeleteManager()
      requires Valid() && |managers| > 1 && forall j :: 0 <= j < |phases| ==> phases[j] != Creating
      modifies `phases, `managers, `destroyed
      ensures Valid() && managers == old(managers)[..|old(managers)|-1]
      ensures destroyed == old(destroyed) + Reversed(old(managers)[|old(managers)|-1])
      ensures |phases| == |old(phases)| && forall j :: 0 <= j < |phases| ==>
                phases[j] == if j in old(managers)[|old(managers)|-1] then Empty else old(phases)[j]
    {
      ghost var below := managers[..|managers|-1];
      ProcessCallbacksNow();
      FlattenTop(below, []);
      assert managers == below + [[]] && Stack() == Flatten(below);
      managers := managers[..|managers|-1];
    }

    /** As long as k is in use, so is everything that it reaches through instances that
        are not leaky. */
    lemma ReachedIsCreated(k: nat, d: nat)
      requires Valid() && k < |phases| && phases[k] == Created && IsReached(touches, leaky, k, d)
      ensures d < |phases| && phases[d] == Created
    {
      var chain :| IsChain(touches, leaky, chain) && chain[0] == k && chain[|chain|-1] == d;
      ChainIsOrdered(touches, leaky, Stack(), chain);
    }

    method CreateAll()
      requires Valid() && forall j :: 0 <= j < |phases| ==> phases[j] != Creating
      modifies `phases, `managers
      ensures Valid() && forall j :: 0 <= j < |phases| ==> phases[j] == Created
      ensures |managers| == |old(managers)| && managers[..|managers|-1] == old(managers)[..|managers|-1]
    {
      var i := 0;
      while i < |phases|
        invariant 0 <= i <= |phases| && Valid() && forall j :: 0 <= j < |phases| ==> phases[j] != Creating
        invariant |managers| == |old(managers)| && managers[..|managers|-1] == old(managers)[..|managers|-1]
        invariant forall j :: 0 <= j < i ==> phases[j] == Created
      {
        Pointer(i);
        i := i + 1;
      }
    }

    /** Everything created under a shadowing manager: only the leaky instances survive it. */
    method LeaveOnlyLeaky()
      requires Valid() && managers == [[]] && forall j :: 0 <= j < |phases| ==> phases[j] != Creating
      modifies `phases, `managers, `destroyed
      ensures Valid() && managers == [[]]
      ensures forall j :: 0 <= j < |phases| ==> phases[j] == if leaky[j] then Created else Empty
      ensures forall j :: 0 <= j < |phases| && !leaky[j] ==> j in destroyed
    {
      NewManager();
      CreateAll();
      ghost var top := managers[1];
      assert managers == [[]] + [top];
      FlattenTop([[]], top);
      ghost var none: seq<seq<nat>> := [];
      assert none + [[]] == [[]];
      FlattenTop(none, []);
      assert Stack() == top;
      DestroyedOnce(top);
      DeleteManager();
    }

    /** Only non-leaky instances are destroyed, and nothing is left half-made. */
    ghost predicate OnlyDestroys(was: seq<Phase>, now: seq<Phase>)
      requires |was| == |leaky|
    {
      && |now| == |was|
      && (forall j :: 0 <= j < |was| ==> now[j] != Creating && (now[j] == was[j] || (!leaky[j] && now[j] == Empty)))
    }

    /** DeleteManager, seen against the stack that shutting down started from. */
    method DeleteTop(ghost stack: seq<nat>)
      requires Valid() && |managers| > 1 && Stack() <= stack
      requires forall j :: 0 <= j < |phases| ==> phases[j] != Creating
      modifies `phases, `managers, `destroyed
      ensures Valid() && |managers| == |old(managers)| - 1 && Stack() <= stack
      ensures old(destroyed) <= destroyed && OnlyDestroys(old(phases), phases)
      ensures Reversed(stack)[..|stack| - |Stack()|]
              == Reversed(stack)[..|stack| - |old(Stack())|] + destroyed[|old(destroyed)|..]
    {
      ghost var below, top := managers[..|managers|-1], managers[|managers|-1];
      assert managers == below + [top];
      FlattenTop(below, top);
      ReversedConcat(stack, Flatten(below), top);
      forall j | 0 <= j < |phases| && j in top
        ensures !leaky[j]
      {
        assert j in Flatten(below) + top;
      }
      DeleteManager();
    }

    method DeleteAllButOne()
      requires Valid() && forall j :: 0 <= j < |phases| ==> phases[j] != Creating
      modifies `phases, `managers, `destroyed
      ensures Valid() && |managers| == 1 && Stack() <= old(Stack())
      ensures destroyed == old(destroyed) + Reversed(old(Stack()))[..|old(Stack())| - |Stack()|]
      ensures OnlyDestroys(old(phases), phases)
    {
      ghost var stack := Stack();
      while |managers| > 1
        invariant Valid() && Stack() <= stack && OnlyDestroys(old(phases), phases)
        invariant destroyed == old(destroyed) + Reversed(stack)[..|stack| - |Stack()|]
        decreases |managers|
      {
        DeleteTop(stack);
      }
    }

    /** The last manager, seen against the stack that shutting down started from. */
    method ProcessLast(ghost start: seq<nat>, ghost stack: seq<nat>)
      requires Valid() && |managers| == 1 && Stack() <= stack && forall j :: 0 <= j < |phases| ==> phases[j] != Creating
      requires destroyed == start + Reversed(stack)[..|stack| - |Stack()|]
      modifies `phases, `managers, `destroyed
      ensures Valid() && managers == [[]] && destroyed == start + Reversed(stack)
      ensures OnlyDestroys(old(phases), phases) && Stack() == []
    {
      ghost var last := managers[0];
      assert managers == [] + [last];
      FlattenTop([], last);
      ReversedWhole(start, stack, last);
      ProcessCallbacksNow();
      assert managers == [] + [[]];
      FlattenTop<nat>([], []);
    }

    method DestroyAll()
      requires Valid() && forall j :: 0 <= j < |phases| ==> phases[j] != Creating
      modifies `phases, `managers, `destroyed
      ensures Valid() && managers == [[]] && Stack() == []
      ensures destroyed == old(destroyed) + Reversed(old(Stack()))
      ensures OnlyDestroys(old(phases), phases)
    {
      ghost var stack, start := Stack(), destroyed;
      DeleteAllButOne();
      ProcessLast(start, stack);
    }

    /** All managers go, innermost first, and the last one processes its callbacks: every
        registered instance is destroyed once, and before all that it has touched. */
    method Shutdown()
      requires Valid() && forall j :: 0 <= j < |phases| ==> phases[j] != Creating
      modifies `phases, `managers, `destroyed
      ensures Valid() && managers == [[]]
      ensures destroyed == old(destroyed) + Reversed(old(Stack()))
      ensures DestroysInOrder(touches, leaky, old(Stack()), destroyed[|old(destroyed)|..])
      ensures OnlyDestroys(old(phases), phases)
      ensures forall j :: 0 <= j < |phases| && !leaky[j] ==> phases[j] == Empty
    {
      ghost var stack, start := Stack(), destroyed;
      StackDestroyedInOrder(touches, leaky, stack);
      DestroyAll();
      assert destroyed[|start|..] == Reversed(stack);
    }
  }

  /** With no chain of non-leaky instances from k to d, k can be in use when d has been
      destroyed: create everything under a shadowing manager, delete that, and ask for k. */
  method OutlivesUnreached(touches: seq<seq<nat>>, leaky: seq<bool>, ghost rank: seq<nat>, k: nat, d: nat)
    returns (process: Process)
    requires |touches| == |leaky| && AcyclicBy(touches, rank) && k < |touches| && d < |touches|
    requires k != d && !leaky[k] && !leaky[d] && !IsReached(touches, leaky, k, d)
    ensures process.Valid() && process.touches == touches && process.leaky == leaky
    ensures process.phases[k] == Created && process.phases[d] == Empty && d in process.destroyed
    ensures forall j :: 0 <= j < |touches| && leaky[j] ==> process.phases[j] == Created
  {
    process := new Process(touches, leaky, rank);
    process.LeaveOnlyLeaky();
    CreatedWithIsClosed(touches, leaky, process.rank, process.phases, k);
    ghost var phases, within := process.phases, CreatedWith(touches, leaky, k);
    process.Pointer(k);
    assert ChangesOnly(phases, process.phases, within) && d !in within;
  }

  /** The order stops at leaky instances: 0 touches the leaky 1, which touches 2.  When a
      shadowing manager has destroyed 2, instance 1 stays, and 0 can be created on it. */
  method LeakyOutlivesTouched() returns (process: Process)
    ensures process.Valid() && process.touches == [[1], [2], []] && process.leaky == [false, true, false]
    ensures process.phases == [Created, Created, Empty] && 2 in process.destroyed
  {
    var touches, leaky := [[1], [2], []], [false, true, false];
    ghost var rank := [2, 1, 0];
    assert forall k :: 0 <= k < 3 ==> TouchesLower(touches, rank, k);
    ReachesNothing(touches, leaky, 0);
    process := OutlivesUnreached(touches, leaky, rank, 0, 2);
  }
}
