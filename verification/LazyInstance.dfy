/**
 base/lazy_instance: any number of threads calling Pointer() on one LazyInstance,
 interleaved at every load, compare-and-swap, store and constructor boundary, over
 sequentially consistent memory.
 */
module LazyInstance {
  import opened Common

  /** An object built in the buffer, numbered by construction. */
  type Object = nat

  /** What a thread does next. */
  datatype Point =
    | Idle
    | FastLoad
    | TrySwap
    | SpinLoad
    | BeginNew
    | EndNew(number: Object)
    | StoreInstance(number: Object)
    | StoreCreated
    | Register
    | ReadInstance
    | Returned(pointer: Option<Object>)

  /** `instance` is instance_, with None for NULL; `built` holds the objects whose
      constructor has returned and whose destructor has not run; `registered` counts
      this instance's callbacks on the at-exit stack. */
  datatype State = State(
    phase: Phase,
    instance: Option<Object>,
    made: nat,
    built: set<Object>,
    registered: nat,
    leaky: bool,
    threads: seq<Point>)

  datatype Label = Call(thread: nat) | Step(thread: nat) | Leave(thread: nat) | OnExit

  predicate InCall(p: Point) {
    !p.Idle? && !p.Returned?
  }

  /** The thread that won the compare-and-swap and has not yet published. */
  predicate Owns(p: Point) {
    p.BeginNew? || p.EndNew? || p.StoreInstance? || p.StoreCreated?
  }

  predicate Enabled(s: State, l: Label) {
    match l
    case Call(t) => t < |s.threads| && s.threads[t].Idle?
    case Step(t) => t < |s.threads| && InCall(s.threads[t])
    case Leave(t) => t < |s.threads| && s.threads[t].Returned?
    // OnExit is only to be called when no thread uses the instance.
    case OnExit => s.registered > 0 && forall t :: 0 <= t < |s.threads| ==> s.threads[t].Idle?
  }

  function Advance(s: State, t: nat): (s': State)
    requires t < |s.threads| && InCall(s.threads[t])
    ensures |s'.threads| == |s.threads|
  {
    match s.threads[t]
    case FastLoad => s.(threads := s.threads[t := if s.phase == Created then ReadInstance else TrySwap])
    case TrySwap =>
      if s.phase == Empty then s.(phase := Creating, threads := s.threads[t := BeginNew])
      else s.(threads := s.threads[t := SpinLoad])
    case SpinLoad =>
      if s.phase == Created then s.(threads := s.threads[t := ReadInstance]) else s
    case BeginNew => s.(made := s.made + 1, threads := s.threads[t := EndNew(s.made)])
    case EndNew(o) => s.(built := s.built + {o}, threads := s.threads[t := StoreInstance(o)])
    case StoreInstance(o) => s.(instance := Some(o), threads := s.threads[t := StoreCreated])
    case StoreCreated =>
      s.(phase := Created, threads := s.threads[t := if s.leaky then ReadInstance else Register])
    case Register => s.(registered := s.registered + 1, threads := s.threads[t := ReadInstance])
    case ReadInstance => s.(threads := s.threads[t := Returned(s.instance)])
  }

  function Next(s: State, l: Label): (s': State)
    requires Enabled(s, l)
    ensures |s'.threads| == |s.threads|
  {
    match l
    case Call(t) => s.(threads := s.threads[t := FastLoad])
    case Step(t) => Advance(s, t)
    case Leave(t) => s.(threads := s.threads[t := Idle])
    case OnExit =>
      s.(phase := Empty, instance := None, registered := s.registered - 1,
         built := if s.instance.Some? then s.built - {s.instance.value} else s.built)
  }

  datatype Run = Begin(threads: nat, leaky: bool) | More(before: Run, step: Label)

  function Initial(threads: nat, leaky: bool): State {
    State(Empty, None, 0, {}, 0, leaky, seq(threads, _ => Idle))
  }

  function Last(r: Run): State
    requires IsRun(r)
    decreases r, 1
  {
    match r
    case Begin(n, leaky) => Initial(n, leaky)
    case More(before, l) => Next(Last(before), l)
  }

  predicate IsRun(r: Run)
    decreases r, 0
  {
    match r
    case Begin(_, _) => true
    case More(before, l) => IsRun(before) && Enabled(Last(before), l)
  }

  /** Constructor runs since the start or the last OnExit. */
  function ConstructorRuns(r: Run): nat
    requires IsRun(r)
  {
    match r
    case Begin(_, _) => 0
    case More(before, OnExit) => 0
    case More(before, Step(t)) => ConstructorRuns(before) + (if Last(before).threads[t].BeginNew? then 1 else 0)
    case More(before, _) => ConstructorRuns(before)
  }

  /** The results that Pointer() has returned since the start or the last OnExit. */
  function Answers(r: Run): set<Option<Object>>
    requires IsRun(r)
  {
    match r
    case Begin(_, _) => {}
    case More(before, OnExit) => {}
    case More(before, Step(t)) =>
      Answers(before) + (if Last(before).threads[t].ReadInstance? then {Last(before).instance} else {})
    case More(before, _) => Answers(before)
  }

  /** The objects whose constructor has returned, in order. */
  function Constructed(r: Run): seq<Object>
    requires IsRun(r)
  {
    match r
    case Begin(_, _) => []
    case More(before, Step(t)) =>
      var p := Last(before).threads[t];
      if p.EndNew? then Constructed(before) + [p.number] else Constructed(before)
    case More(before, _) => Constructed(before)
  }

  /** The objects that OnExit has found in instance_, in order. */
  function Destroyed(r: Run): seq<Object>
    requires IsRun(r)
  {
    match r
    case Begin(_, _) => []
    case More(before, OnExit) =>
      var instance := Last(before).instance;
      if instance.Some? then Destroyed(before) + [instance.value] else Destroyed(before)
    case More(before, _) => Destroyed(before)
  }

  // ----- the invariant -----

  ghost predicate OneOwner(s: State) {
    && (s.phase == Creating <==> exists t :: 0 <= t < |s.threads| && Owns(s.threads[t]))
    && (forall t, u :: 0 <= t < u < |s.threads| ==> !(Owns(s.threads[t]) && Owns(s.threads[u])))
  }

  ghost predicate HasInstance(s: State) {
    s.instance.Some? && s.instance.value in s.built && s.instance.value + 1 == s.made
  }

  /** Where the thread may be, given what the shared fields say. */
  ghost predicate Consistent(s: State, p: Point, answers: set<Option<Object>>) {
    match p
    case SpinLoad => s.phase != Empty
    case ReadInstance => s.phase == Created
    case Register => s.phase == Created && s.registered == 0 && !s.leaky
    case Returned(pointer) => s.phase == Created && pointer in answers
    case EndNew(o) => o + 1 == s.made
    case StoreInstance(o) => o + 1 == s.made && o in s.built
    case StoreCreated => HasInstance(s)
    case _ => true
  }

  ghost predicate OneRegister(s: State) {
    && (forall t, u :: 0 <= t < u < |s.threads| ==> !(s.threads[t].Register? && s.threads[u].Register?))
    && (s.registered <= 1) && (s.leaky || s.phase != Created ==> s.registered == 0)
    && (!s.leaky && s.phase == Created && s.registered == 0 ==>
          exists t :: 0 <= t < |s.threads| && s.threads[t].Register?)
  }

  ghost predicate RunsMatch(s: State, runs: nat) {
    match s.phase
    case Empty => runs == 0
    case Creating => forall t :: 0 <= t < |s.threads| && Owns(s.threads[t]) ==>
                       runs == if s.threads[t].BeginNew? then 0 else 1
    case Created => runs == 1
  }

  /** The only object that can be built is the one made last. */
  ghost predicate BuiltMatches(s: State) {
    match s.phase
    case Empty => s.built == {}
    case Creating => forall t :: 0 <= t < |s.threads| && Owns(s.threads[t]) ==>
                       s.built == if s.threads[t].BeginNew? || s.threads[t].EndNew? then {} else {s.made - 1}
    case Created => s.built == {s.made - 1}
  }

  ghost predicate Invariant(s: State, runs: nat, answers: set<Option<Object>>) {
    && OneOwner(s) && OneRegister(s) && RunsMatch(s, runs) && BuiltMatches(s)
    && (forall t :: 0 <= t < |s.threads| ==> Consistent(s, s.threads[t], answers))
    && (s.phase == Created ==> HasInstance(s))
    && (forall a :: a in answers ==> s.phase == Created && a == s.instance)
  }

  lemma OnlyOwner(s: State, o: nat)
    requires OneOwner(s) && o < |s.threads| && Owns(s.threads[o])
    ensures forall u :: 0 <= u < |s.threads| && u != o ==> !Owns(s.threads[u])
  {
    forall u | 0 <= u < |s.threads| && u != o
      ensures !Owns(s.threads[u])
    {
      assert !(Owns(s.threads[if o < u then o else u]) && Owns(s.threads[if o < u then u else o]));
    }
  }

  /** One thread moves: it keeps its part, or becomes the owner, or stops being it. */
  lemma OwnersCarryOver(s: State, s': State, t: nat)
    requires OneOwner(s) && t < |s.threads| == |s'.threads|
    requires forall u :: 0 <= u < |s.threads| && u != t ==> s'.threads[u] == s.threads[u]
    requires || (s'.phase == s.phase && Owns(s'.threads[t]) == Owns(s.threads[t]))
             || (s.phase == Empty && s'.phase == Creating && Owns(s'.threads[t]))
             || (Owns(s.threads[t]) && !Owns(s'.threads[t]) && s'.phase == Created)
    ensures OneOwner(s')
  {
    if s.phase == Creating {
      var o :| 0 <= o < |s.threads| && Owns(s.threads[o]);
      OnlyOwner(s, o);
      assert s'.phase == Creating <==> Owns(s'.threads[o]);
    } else if s'.phase == Creating {
      assert Owns(s'.threads[t]);
    }
  }

  lemma OneOwnerKept(s: State, l: Label, runs: nat, answers: set<Option<Object>>)
    requires Invariant(s, runs, answers) && Enabled(s, l) && !l.OnExit?
    ensures OneOwner(Next(s, l))
  {
    var s', t := Next(s, l), l.thread;
    if s.phase != Creating {
      assert !Owns(s.threads[t]);
    }
    OwnersCarryOver(s, s', t);
  }

  /** One thread moves: it starts registering as it publishes, or ends, or does neither. */
  lemma RegistersCarryOver(s: State, s': State, t: nat)
    requires OneRegister(s) && t < |s.threads| == |s'.threads| && s'.leaky == s.leaky
    requires forall u :: 0 <= u < |s.threads| && u != t ==> s'.threads[u] == s.threads[u]
    requires || (s.threads[t].Register? == s'.threads[t].Register? && s'.registered == s.registered
                 && (s'.phase == s.phase || (s.phase != Created && s'.phase != Created)))
             || (s.phase != Created && s'.phase == Created && s'.registered == s.registered
                 && (s.leaky || s'.threads[t].Register?)
                 && (forall u :: 0 <= u < |s.threads| ==> !s.threads[u].Register?))
             || (s.threads[t].Register? && !s'.threads[t].Register? && s'.phase == s.phase == Created
                 && !s.leaky && s.registered == 0 && s'.registered == 1)
    ensures OneRegister(s')
  {
    if !s'.leaky && s'.phase == Created && s'.registered == 0 {
      if s.phase == Created {
        var u :| 0 <= u < |s.threads| && s.threads[u].Register?;
        assert s'.threads[u].Register?;
      } else {
        assert s'.threads[t].Register?;
      }
    }
  }

  lemma OneRegisterKept(s: State, l: Label, runs: nat, answers: set<Option<Object>>)
    requires Invariant(s, runs, answers) && Enabled(s, l) && !l.OnExit?
    ensures OneRegister(Next(s, l))
  {
    var s', t := Next(s, l), l.thread;
    assert Consistent(s, s.threads[t], answers);
    assert forall u :: 0 <= u < |s.threads| && u != t ==> s'.threads[u] == s.threads[u];
    if s.threads[t].StoreCreated? && l.Step? {
      assert Owns(s.threads[t]) && s.phase == Creating;
      forall u | 0 <= u < |s.threads|
        ensures !s.threads[u].Register?
      {
        assert Consistent(s, s.threads[u], answers);
      }
    }
    RegistersCarryOver(s, s', t);
  }

  lemma RunsMatchKept(s: State, l: Label, runs: nat, answers: set<Option<Object>>)
    requires Invariant(s, runs, answers) && Enabled(s, l) && !l.OnExit?
    ensures RunsMatch(Next(s, l), if l.Step? && s.threads[l.thread].BeginNew? then runs + 1 else runs)
  {
    var s', t := Next(s, l), l.thread;
    assert forall u :: 0 <= u < |s.threads| && u != t ==> s'.threads[u] == s.threads[u];
  }

  lemma BuiltMatchKept(s: State, l: Label, runs: nat, answers: set<Option<Object>>)
    requires Invariant(s, runs, answers) && Enabled(s, l) && !l.OnExit?
    ensures BuiltMatches(Next(s, l))
  {
    var s', t := Next(s, l), l.thread;
    assert Consistent(s, s.threads[t], answers);
    assert forall u :: 0 <= u < |s.threads| && u != t ==> s'.threads[u] == s.threads[u];
    if Owns(s.threads[t]) {
      OnlyOwner(s, t);
    }
  }

  /** What one thread does leaves consistent any point that is not at odds with its own. */
  lemma PointStays(s: State, l: Label, p: Point, answers: set<Option<Object>>)
    requires Enabled(s, l) && !l.OnExit? && Consistent(s, p, answers)
    requires
      var q := s.threads[l.thread];
      Consistent(s, q, answers) && !(Owns(p) && Owns(q)) && !(p.Register? && q.Register?)
    requires Owns(p) ==> s.phase == Creating
    requires s.phase == Created ==> HasInstance(s)
    ensures
      var answers' := if l.Step? && s.threads[l.thread].ReadInstance? then answers + {s.instance} else answers;
      Consistent(Next(s, l), p, answers')
  {
  }

  lemma OtherPointKept(s: State, l: Label, runs: nat, answers: set<Option<Object>>, u: nat)
    requires Invariant(s, runs, answers) && Enabled(s, l) && !l.OnExit? && u < |s.threads| && u != l.thread
    ensures
      var answers' := if l.Step? && s.threads[l.thread].ReadInstance? then answers + {s.instance} else answers;
      Next(s, l).threads[u] == s.threads[u] && Consistent(Next(s, l), s.threads[u], answers')
  {
    var t := l.thread;
    assert Consistent(s, s.threads[u], answers) && Consistent(s, s.threads[t], answers);
    if Owns(s.threads[t]) {
      OnlyOwner(s, t);
    }
    assert !(s.threads[u].Register? && s.threads[t].Register?) by {
      assert !(s.threads[if t < u then t else u].Register? && s.threads[if t < u then u else t].Register?);
    }
    PointStays(s, l, s.threads[u], answers);
  }

  /** The instance that has been published stays. */
  lemma InstanceKept(s: State, l: Label, runs: nat, answers: set<Option<Object>>)
    requires Invariant(s, runs, answers) && Enabled(s, l) && !l.OnExit?
    ensures Next(s, l).phase == Created ==> HasInstance(Next(s, l))
    ensures s.phase == Created ==> Next(s, l).phase == Created && Next(s, l).instance == s.instance
  {
    assert Consistent(s, s.threads[l.thread], answers);
    if s.phase == Created {
      assert !Owns(s.threads[l.thread]);
    }
  }

  lemma PointsKept(s: State, l: Label, runs: nat, answers: set<Option<Object>>)
    requires Invariant(s, runs, answers) && Enabled(s, l) && !l.OnExit?
    ensures
      var s' := Next(s, l);
      var answers' := if l.Step? && s.threads[l.thread].ReadInstance? then answers + {s.instance} else answers;
      forall u :: 0 <= u < |s'.threads| ==> Consistent(s', s'.threads[u], answers')
  {
    var s', t := Next(s, l), l.thread;
    var answers' := if l.Step? && s.threads[l.thread].ReadInstance? then answers + {s.instance} else answers;
    assert Consistent(s, s.threads[t], answers);
    assert Consistent(s', s'.threads[t], answers');
    forall u | 0 <= u < |s'.threads| && u != t
      ensures Consistent(s', s'.threads[u], answers')
    {
      OtherPointKept(s, l, runs, answers, u);
    }
  }

  lemma InvariantKept(s: State, l: Label, runs: nat, answers: set<Option<Object>>,
                      runs': nat, answers': set<Option<Object>>)
    requires Invariant(s, runs, answers) && Enabled(s, l)
    requires runs' == if l.OnExit? then 0
                      else if l.Step? && s.threads[l.thread].BeginNew? then runs + 1 else runs
    requires answers' == if l.OnExit? then {}
                         else if l.Step? && s.threads[l.thread].ReadInstance? then answers + {s.instance} else answers
    ensures Invariant(Next(s, l), runs', answers')
  {
    if !l.OnExit? {
      OneOwnerKept(s, l, runs, answers);
      OneRegisterKept(s, l, runs, answers);
      RunsMatchKept(s, l, runs, answers);
      BuiltMatchKept(s, l, runs, answers);
      PointsKept(s, l, runs, answers);
      InstanceKept(s, l, runs, answers);
      assert Consistent(s, s.threads[l.thread], answers);
    }
  }

  lemma {:induction false} InvariantHolds(r: Run)
    requires IsRun(r)
    ensures Invariant(Last(r), ConstructorRuns(r), Answers(r))
  {
    if r.More? {
      InvariantHolds(r.before);
      InvariantKept(Last(r.before), r.step, ConstructorRuns(r.before), Answers(r.before),
                    ConstructorRuns(r), Answers(r));
    }
  }

  // ----- safety over whole runs -----

  /** The constructor runs at most once before OnExit, and has run once and finished
      by the time the instance is published. */
  lemma ConstructedOnce(r: Run)
    requires IsRun(r)
    ensures ConstructorRuns(r) <= 1
    ensures Last(r).phase == Created ==> ConstructorRuns(r) == 1 && HasInstance(Last(r))
  {
    InvariantHolds(r);
  }

  /** Creation is owned by exactly one thread. */
  lemma CreatingHasOneOwner(r: Run)
    requires IsRun(r) && Last(r).phase == Creating
    ensures exists t :: 0 <= t < |Last(r).threads| && Owns(Last(r).threads[t])
              && forall u :: 0 <= u < |Last(r).threads| && u != t ==> !Owns(Last(r).threads[u])
  {
    InvariantHolds(r);
    var s := Last(r);
    var t :| 0 <= t < |s.threads| && Owns(s.threads[t]);
    OnlyOwner(s, t);
  }

  function Rank(phase: Phase): nat {
    match phase
    case Empty => 0
    case Creating => 1
    case Created => 2
  }

  /** Short of OnExit the state moves forward, one phase at a time, and only the
      owner's store moves it to Created. */
  lemma {:induction false} PhaseOnlyAdvances(r: Run, l: Label)
    requires IsRun(More(r, l)) && !l.OnExit?
    ensures Rank(Last(r).phase) <= Rank(Last(More(r, l)).phase) <= Rank(Last(r).phase) + 1
    ensures Last(r).phase == Creating && Last(More(r, l)).phase == Created ==>
              l.Step? && Owns(Last(r).threads[l.thread])
  {
    InvariantHolds(r);
    var s := Last(r);
    if l.Step? && s.threads[l.thread].StoreCreated? {
      assert Owns(s.threads[l.thread]);
    }
  }

  /** All threads get the same instance, and it is not NULL and fully built. */
  lemma AnswersAgree(r: Run, a: Option<Object>, b: Option<Object>)
    requires IsRun(r) && a in Answers(r) && b in Answers(r)
    ensures a == b && a.Some? && a.value in Last(r).built
  {
    InvariantHolds(r);
  }

  /** What a thread has been given stays good for as long as it is in use. */
  lemma ReturnedStaysGood(r: Run, t: nat)
    requires IsRun(r) && t < |Last(r).threads| && Last(r).threads[t].Returned?
    ensures Last(r).threads[t].pointer in Answers(r)
    ensures Last(r).threads[t].pointer == Last(r).instance && HasInstance(Last(r))
  {
    InvariantHolds(r);
    assert Consistent(Last(r), Last(r).threads[t], Answers(r));
  }

  /** Once all calls are over, the destructor of a created instance is registered
      exactly once, or never if the instance is leaky. */
  lemma RegisteredOnce(r: Run)
    requires IsRun(r) && forall t :: 0 <= t < |Last(r).threads| ==> Last(r).threads[t].Idle?
    ensures Last(r).registered == if Last(r).phase == Created && !Last(r).leaky then 1 else 0
    ensures Enabled(Last(r), OnExit) ==> HasInstance(Last(r)) && Last(More(r, OnExit)).registered == 0
  {
    InvariantHolds(r);
  }

  /** OnExit destroys the published object, which was built, and leaves nothing behind. */
  lemma OnExitDestroys(r: Run)
    requires IsRun(More(r, OnExit))
    ensures Last(r).instance.Some? && Last(r).built == {Last(r).instance.value}
    ensures
      var s := Last(More(r, OnExit));
      s.built == {} && s.instance == None && s.phase == Empty && s.threads == Last(r).threads
    ensures Destroyed(More(r, OnExit)) == Destroyed(r) + [Last(r).instance.value]
  {
    InvariantHolds(r);
  }

  /** At most one object is built at any time, and none while the phase is Empty. */
  lemma OneBuilt(r: Run)
    requires IsRun(r)
    ensures |Last(r).built| <= 1 && (Last(r).phase == Empty ==> Last(r).built == {})
  {
    InvariantHolds(r);
    var s := Last(r);
    if s.phase == Creating {
      var t :| 0 <= t < |s.threads| && Owns(s.threads[t]);
    }
  }

  lemma {:induction false} StepConstructs(r: Run, t: nat)
    requires IsRun(More(r, Step(t)))
    ensures
      var s, p := Last(r), Last(r).threads[t];
      if p.EndNew?
      then s.built == {} && Last(More(r, Step(t))).built == {p.number}
           && Constructed(More(r, Step(t))) == Constructed(r) + [p.number]
      else Last(More(r, Step(t))).built == s.built && Constructed(More(r, Step(t))) == Constructed(r)
  {
    InvariantHolds(r);
    var s := Last(r);
    if s.threads[t].EndNew? {
      assert Owns(s.threads[t]);
    }
  }

  /** Over any run, the objects constructed are, in order, the objects destroyed and then the
      one that is still built: each is destroyed once, and before the next is constructed. */
  lemma {:induction false} ConstructedIsDestroyed(r: Run)
    requires IsRun(r)
    ensures Last(r).built == {} ==> Constructed(r) == Destroyed(r)
    ensures Last(r).built != {} ==> exists o :: Last(r).built == {o} && Constructed(r) == Destroyed(r) + [o]
  {
    if r.More? {
      ConstructedIsDestroyed(r.before);
      match r.step
      case OnExit => OnExitDestroys(r.before);
      case Step(t) => StepConstructs(r.before, t);
      case _ =>
    }
  }

  /** Every object is constructed only once. */
  lemma {:induction false} ConstructedInOrder(r: Run)
    requires IsRun(r)
    ensures Distinct(Constructed(r)) && forall i :: 0 <= i < |Constructed(r)| ==> Constructed(r)[i] < Last(r).made
    ensures forall t :: 0 <= t < |Last(r).threads| && Last(r).threads[t].EndNew? ==>
              Last(r).threads[t].number !in Constructed(r)
  {
    if r.More? {
      ConstructedInOrder(r.before);
      InvariantHolds(r.before);
      InvariantHolds(r);
      if r.step.Step? && Last(r.before).threads[r.step.thread].EndNew? {
        assert Owns(Last(r.before).threads[r.step.thread]);
        OnlyOwner(Last(r.before), r.step.thread);
      }
    }
  }

  // ----- a call that finds the instance there -----

  /** Once the instance is there a call takes two loads, the phase and the pointer, and no
      compare-and-swap: it leaves the shared state alone. */
  lemma CreatedIsFast(r: Run, t: nat)
    requires IsRun(r) && Last(r).phase == Created && t < |Last(r).threads| && Last(r).threads[t].Idle?
    ensures
      var r' := More(More(More(r, Call(t)), Step(t)), Step(t));
      IsRun(r') && Last(r') == Last(r).(threads := Last(r).threads[t := Returned(Last(r).instance)])
  {
    var s := Last(r);
    var r1 := More(r, Call(t));
    var r2 := More(r1, Step(t));
    assert Last(r1).threads[t] == FastLoad && Last(r2).threads[t] == ReadInstance;
    var r3 := More(r2, Step(t));
    assert Last(r3).threads == s.threads[t := Returned(s.instance)];
  }

  // ----- every call can finish -----

  function Distance(p: Point): nat {
    match p
    case BeginNew => 4
    case EndNew(_) => 3
    case StoreInstance(_) => 2
    case StoreCreated => 1
    case TrySwap => 3
    case FastLoad => 2
    case SpinLoad => 2
    case Register => 2
    case ReadInstance => 1
    case _ => 0
  }

  lemma OwnerPublishes(r: Run, o: nat) returns (r': Run)
    requires IsRun(r) && o < |Last(r).threads| && Owns(Last(r).threads[o])
    ensures IsRun(r') && Last(r').phase == Created && |Last(r').threads| == |Last(r).threads|
    ensures InCall(Last(r').threads[o]) && Last(r').leaky == Last(r).leaky && Last(r').registered == Last(r).registered
    ensures forall u :: 0 <= u < |Last(r).threads| && u != o ==> Last(r').threads[u] == Last(r).threads[u]
    decreases Distance(Last(r).threads[o])
  {
    r' := More(r, Step(o));
    if !Last(r).threads[o].StoreCreated? {
      r' := OwnerPublishes(r', o);
    }
  }

  lemma CreatedReturns(r: Run, t: nat) returns (r': Run)
    requires IsRun(r) && t < |Last(r).threads| && InCall(Last(r).threads[t]) && Last(r).phase == Created
    ensures IsRun(r') && t < |Last(r').threads| && Last(r').threads[t].Returned?
    decreases Distance(Last(r).threads[t])
  {
    InvariantHolds(r);
    assert !Owns(Last(r).threads[t]);
    r' := More(r, Step(t));
    if !Last(r).threads[t].ReadInstance? {
      r' := CreatedReturns(r', t);
    }
  }

  /** From every reachable state every call in progress can be brought to its return:
      the spin loop never waits for something that cannot happen. */
  lemma CallCanReturn(r: Run, t: nat) returns (r': Run)
    requires IsRun(r) && t < |Last(r).threads| && InCall(Last(r).threads[t])
    ensures IsRun(r') && t < |Last(r').threads| && Last(r').threads[t].Returned?
  {
    InvariantHolds(r);
    var s := Last(r);
    assert Consistent(s, s.threads[t], Answers(r));
    r' := r;
    if s.phase == Empty {
      assert !Owns(s.threads[t]);
      r' := More(r', Step(t));
      if s.threads[t].FastLoad? {
        r' := More(r', Step(t));
      }
      r' := OwnerPublishes(r', t);
    } else if s.phase == Creating {
      var o :| 0 <= o < |s.threads| && Owns(s.threads[o]);
      r' := OwnerPublishes(r', o);
    }
    r' := CreatedReturns(r', t);
  }

  // ----- published before registered -----

  /** A second thread can hold the instance before its destructor is registered:
      CompleteInstance stores CREATED first. */
  lemma PublishedBeforeRegistered() returns (r: Run)
    ensures IsRun(r) && !Last(r).leaky && Last(r).phase == Created
    ensures |Last(r).threads| == 2 && Last(r).threads[1].Returned? && Last(r).registered == 0
  {
    r := More(Begin(2, false), Call(0));
    assert Last(r).threads[0] == FastLoad && Last(r).threads[1] == Idle;
    r := More(r, Step(0));
    assert Last(r).threads[0] == TrySwap && Last(r).threads[1] == Idle;
    r := More(r, Step(0));
    assert Owns(Last(r).threads[0]) && Last(r).threads[1] == Idle;
    r := OwnerPublishes(r, 0);
    assert Last(r).threads[1] == Idle && Last(r).registered == 0;
    r := More(r, Call(1));
    assert Last(r).threads[1] == FastLoad && Last(r).phase == Created;
    r := More(r, Step(1));
    assert Last(r).threads[1] == ReadInstance;
    r := More(r, Step(1));
  }
}
