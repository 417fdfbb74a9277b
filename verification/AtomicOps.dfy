/**
 base/atomicops_internals_arm_gcc.h and base/atomicops_internals_x86_macosx.h: the
 compare-and-swap, exchange and increment retry loops as a system of any number of
 threads over one shared cell.  Every access to the cell is one step, other threads
 and plain writers come in between, and the primitive compare-exchange may fail for
 no reason.  The loops are compared with the one-step operations of base/atomicops.h.
 */
module AtomicOps {
  import opened Common

  const TWO_TO_31: int := 0x8000_0000
  const TWO_TO_32: int := 0x1_0000_0000

  /** Two's complement 32-bit wrap-around. */
  function Wrap(x: int): (r: int)
    ensures -TWO_TO_31 <= r < TWO_TO_31
    ensures -TWO_TO_31 <= x < TWO_TO_31 ==> r == x
  {
    (x + TWO_TO_31) % TWO_TO_32 - TWO_TO_31
  }

  datatype Op =
    | CompareAndSwap(expected: int, desired: int)
    | Exchange(desired: int)
    | Increment(amount: int)

  datatype Outcome = Outcome(cell: int, result: int)

  /** The specification: what base/atomicops.h says each routine does atomically. */
  function Atomically(op: Op, cell: int): Outcome {
    match op
    case CompareAndSwap(expected, desired) => Outcome(if cell == expected then desired else cell, cell)
    case Exchange(desired) => Outcome(desired, cell)
    case Increment(amount) => Outcome(Wrap(cell + amount), Wrap(cell + amount))
  }

  /** The program point of a thread: the next access to the cell that it will make. */
  datatype Point =
    | Idle
    | SwapFirstLoad(expected: int, desired: int)
    | SwapTry(expected: int, desired: int)
    | SwapReload(expected: int, desired: int)
    | ExchangeLoad(desired: int)
    | ExchangeTry(desired: int, seen: int)
    | IncrementLoad(amount: int)
    | IncrementTry(amount: int, seen: int)
    | Returning(op: Op, result: int)

  function OpOf(p: Point): Option<Op> {
    match p
    case Idle => None
    case SwapFirstLoad(e, d) => Some(CompareAndSwap(e, d))
    case SwapTry(e, d) => Some(CompareAndSwap(e, d))
    case SwapReload(e, d) => Some(CompareAndSwap(e, d))
    case ExchangeLoad(d) => Some(Exchange(d))
    case ExchangeTry(d, _) => Some(Exchange(d))
    case IncrementLoad(a) => Some(Increment(a))
    case IncrementTry(a, _) => Some(Increment(a))
    case Returning(op, _) => Some(op)
  }

  predicate Busy(p: Point) {
    !p.Idle? && !p.Returning?
  }

  /** The Mac compare-and-swap has no load before its loop. */
  function Start(op: Op, arm: bool): Point {
    match op
    case CompareAndSwap(e, d) => if arm then SwapFirstLoad(e, d) else SwapTry(e, d)
    case Exchange(d) => ExchangeLoad(d)
    case Increment(a) => IncrementLoad(a)
  }

  datatype Access = Access(point: Point, cell: int)

  /** One access of a busy thread.  `spurious` makes a compare-exchange fail. */
  function Advance(p: Point, cell: int, spurious: bool): Access
    requires Busy(p)
  {
    match p
    case SwapFirstLoad(e, d) => Access(SwapTry(e, d), cell)
    case SwapTry(e, d) =>
      if cell == e && !spurious then Access(Returning(CompareAndSwap(e, d), e), d)
      else Access(SwapReload(e, d), cell)
    case SwapReload(e, d) =>
      if cell == e then Access(SwapTry(e, d), cell)
      else Access(Returning(CompareAndSwap(e, d), cell), cell)
    case ExchangeLoad(d) => Access(ExchangeTry(d, cell), cell)
    case ExchangeTry(d, seen) =>
      if cell == seen && !spurious then Access(Returning(Exchange(d), seen), d)
      else Access(ExchangeLoad(d), cell)
    case IncrementLoad(a) => Access(IncrementTry(a, cell), cell)
    case IncrementTry(a, seen) =>
      if cell == seen && !spurious then Access(Returning(Increment(a), Wrap(seen + a)), Wrap(seen + a))
      else Access(IncrementLoad(a), cell)
  }

  // ----- runs -----

  datatype State = State(cell: int, threads: seq<Point>)

  datatype Label =
    | Invoke(thread: nat, op: Op, arm: bool)
    | Step(thread: nat, spurious: bool)
    | Return(thread: nat)
    | Write(value: int)

  predicate Enabled(s: State, l: Label) {
    match l
    case Invoke(t, _, _) => t < |s.threads| && s.threads[t].Idle?
    case Step(t, _) => t < |s.threads| && Busy(s.threads[t])
    case Return(t) => t < |s.threads| && s.threads[t].Returning?
    case Write(_) => true
  }

  function Next(s: State, l: Label): (s': State)
    requires Enabled(s, l)
    ensures |s'.threads| == |s.threads|
  {
    match l
    case Invoke(t, op, arm) => s.(threads := s.threads[t := Start(op, arm)])
    case Step(t, spurious) =>
      var a := Advance(s.threads[t], s.cell, spurious);
      State(a.cell, s.threads[t := a.point])
    case Return(t) => s.(threads := s.threads[t := Idle])
    case Write(value) => s.(cell := value)
  }

  /** What a step does as seen from outside: an operation takes effect, or a plain
      write happens, or nothing. */
  datatype Event = Effect(thread: nat, op: Op, result: int) | Plain(value: int)

  function EventOf(s: State, l: Label): Option<Event>
    requires Enabled(s, l)
  {
    match l
    case Step(t, _) =>
      var p := Next(s, l).threads[t];
      if p.Returning? then Some(Effect(t, p.op, p.result)) else None
    case Write(value) => Some(Plain(value))
    case _ => None
  }

  datatype Run = Begin(start: State) | More(before: Run, step: Label)

  predicate IsRun(r: Run)
    decreases r, 0
  {
    match r
    case Begin(s) => forall t :: 0 <= t < |s.threads| ==> s.threads[t].Idle?
    case More(before, l) => IsRun(before) && Enabled(Last(before), l)
  }

  function Last(r: Run): State
    requires IsRun(r)
    decreases r, 1
  {
    match r
    case Begin(s) => s
    case More(before, l) => Next(Last(before), l)
  }

  function First(r: Run): State {
    match r
    case Begin(s) => s
    case More(before, _) => First(before)
  }

  function Log(r: Run): seq<Event>
    requires IsRun(r)
  {
    match r
    case Begin(_) => []
    case More(before, l) =>
      match EventOf(Last(before), l) {
        case Some(e) => Log(before) + [e]
        case None => Log(before)
      }
  }

  // ----- linearization -----

  /** One event applied to the cell by the specification. */
  function Applied(e: Event, cell: int): int {
    match e
    case Effect(_, op, _) => Atomically(op, cell).cell
    case Plain(value) => value
  }

  function CellAfter(cell: int, log: seq<Event>): int {
    if log == [] then cell else Applied(log[|log|-1], CellAfter(cell, log[..|log|-1]))
  }

  /** Every result in the log is the one the specification gives at that instant. */
  ghost predicate Explained(cell: int, log: seq<Event>) {
    forall i :: 0 <= i < |log| && log[i].Effect? ==>
      log[i].result == Atomically(log[i].op, CellAfter(cell, log[..i])).result
  }

  /** A step that completes a loop is the specified operation; no other step of a
      thread touches the cell or forgets which operation it is performing. */
  lemma StepIsAtomicOrSilent(s: State, l: Label)
    requires Enabled(s, l)
    ensures match EventOf(s, l)
            case Some(e) => Next(s, l).cell == Applied(e, s.cell)
                            && (e.Effect? ==> e.result == Atomically(e.op, s.cell).result)
            case None => Next(s, l).cell == s.cell
    ensures l.Step? ==> OpOf(Next(s, l).threads[l.thread]) == OpOf(s.threads[l.thread])
  {
  }

  lemma CellAfterMore(cell: int, log: seq<Event>, e: Event)
    ensures CellAfter(cell, log + [e]) == Applied(e, CellAfter(cell, log))
  {
    assert (log + [e])[..|log|] == log;
  }

  lemma {:induction false} ExplainedMore(cell: int, log: seq<Event>, e: Event)
    requires Explained(cell, log)
    requires e.Effect? ==> e.result == Atomically(e.op, CellAfter(cell, log)).result
    ensures Explained(cell, log + [e])
  {
    var more := log + [e];
    forall i | 0 <= i < |more| && more[i].Effect?
      ensures more[i].result == Atomically(more[i].op, CellAfter(cell, more[..i])).result
    {
      assert more[..i] == log[..i];
      assert i == |log| ==> log[..i] == log;
    }
  }

  /** In every run, the cell is what the logged operations, performed one after the
      other by the specification, make of it, and they return what the loops return. */
  lemma {:induction false} RunsLinearize(r: Run)
    requires IsRun(r)
    ensures Last(r).cell == CellAfter(First(r).cell, Log(r))
    ensures Explained(First(r).cell, Log(r))
  {
    if r.More? {
      var s := Last(r.before);
      RunsLinearize(r.before);
      StepIsAtomicOrSilent(s, r.step);
      match EventOf(s, r.step)
      case Some(e) =>
        CellAfterMore(First(r).cell, Log(r.before), e);
        ExplainedMore(First(r).cell, Log(r.before), e);
      case None =>
    }
  }

  // ----- what each effect does to the cell -----

  /** An event with the content of the cell just before and just after it. */
  datatype Change = Change(event: Event, before: int, after: int)

  /** The events of a run with what the cell held around them, read off the states. */
  function History(r: Run): seq<Change>
    requires IsRun(r)
  {
    match r
    case Begin(_) => []
    case More(before, l) =>
      match EventOf(Last(before), l) {
        case Some(e) => History(before) + [Change(e, Last(before).cell, Last(r).cell)]
        case None => History(before)
      }
  }

  /** A compare-and-swap returns what the cell held and stores the new value if and only if
      that was the expected one; an exchange returns what the cell held and stores its own
      value; an increment adds modulo 2^32, within 32 bits, and returns the sum. */
  ghost predicate DoesItsOperation(c: Change) {
    match c.event
    case Effect(_, CompareAndSwap(expected, desired), result) =>
      && result == c.before
      && (c.before == expected ==> c.after == desired)
      && (c.before != expected ==> c.after == c.before)
    case Effect(_, Exchange(desired), result) => result == c.before && c.after == desired
    case Effect(_, Increment(amount), result) =>
      && result == c.after && -TWO_TO_31 <= result < TWO_TO_31
      && (result - (c.before + amount)) % TWO_TO_32 == 0
    case Plain(value) => c.after == value
  }

  /** Between one event and the next nothing happens to the cell. */
  ghost predicate Continues(first: int, history: seq<Change>, last: int) {
    && (history == [] ==> first == last)
    && (history != [] ==> history[0].before == first && history[|history|-1].after == last)
    && (forall i :: 0 < i < |history| ==> history[i].before == history[i-1].after)
  }

  lemma DivModIs(x: int, q: int, m: int)
    requires x == q * TWO_TO_32 + m && 0 <= m < TWO_TO_32
    ensures x % TWO_TO_32 == m
  {
  }

  lemma WrapIsCongruent(x: int)
    ensures (Wrap(x) - x) % TWO_TO_32 == 0
  {
    var q, m := (x + TWO_TO_31) / TWO_TO_32, (x + TWO_TO_31) % TWO_TO_32;
    assert Wrap(x) - x == (-q) * TWO_TO_32;
    DivModIs(Wrap(x) - x, -q, 0);
  }

  lemma EffectDoesItsOperation(s: State, l: Label)
    requires Enabled(s, l)
    ensures match EventOf(s, l)
            case Some(e) => DoesItsOperation(Change(e, s.cell, Next(s, l).cell))
            case None => Next(s, l).cell == s.cell
  {
    if l.Step? && s.threads[l.thread].IncrementTry? {
      WrapIsCongruent(s.threads[l.thread].seen + s.threads[l.thread].amount);
    }
  }

  /** In every run each operation does to the cell, at the instant at which it takes effect,
      what it is to do, and nothing else changes the cell. */
  lemma {:induction false} RunsDoTheirOperations(r: Run)
    requires IsRun(r)
    ensures forall i :: 0 <= i < |History(r)| ==> DoesItsOperation(History(r)[i])
    ensures Continues(First(r).cell, History(r), Last(r).cell)
    ensures |History(r)| == |Log(r)| && forall i :: 0 <= i < |Log(r)| ==> History(r)[i].event == Log(r)[i]
  {
    if r.More? {
      RunsDoTheirOperations(r.before);
      EffectDoesItsOperation(Last(r.before), r.step);
    }
  }

  // ----- each call takes effect exactly once, between its call and its return -----

  function Invoked(r: Run, t: nat): seq<Op> {
    match r
    case Begin(_) => []
    case More(before, l) =>
      if l.Invoke? && l.thread == t then Invoked(before, t) + [l.op] else Invoked(before, t)
  }

  /** The operations and results that have taken effect for thread t. */
  function Effects(log: seq<Event>, t: nat): seq<(Op, int)> {
    if log == [] then []
    else
      var e := log[|log|-1];
      var before := Effects(log[..|log|-1], t);
      if e.Effect? && e.thread == t then before + [(e.op, e.result)] else before
  }

  function Returned(r: Run, t: nat): seq<(Op, int)>
    requires IsRun(r)
  {
    match r
    case Begin(_) => []
    case More(before, l) =>
      if l.Return? && l.thread == t
      then Returned(before, t) + [(Last(before).threads[t].op, Last(before).threads[t].result)]
      else Returned(before, t)
  }

  function Ops(effects: seq<(Op, int)>): seq<Op> {
    seq(|effects|, i requires 0 <= i < |effects| => effects[i].0)
  }

  lemma EffectsMore(log: seq<Event>, e: Event, t: nat)
    ensures e.Effect? && e.thread == t ==> Effects(log + [e], t) == Effects(log, t) + [(e.op, e.result)]
    ensures !(e.Effect? && e.thread == t) ==> Effects(log + [e], t) == Effects(log, t)
  {
    assert (log + [e])[..|log|] == log;
  }

  lemma OpsMore(effects: seq<(Op, int)>, x: (Op, int))
    ensures Ops(effects + [x]) == Ops(effects) + [x.0]
  {
  }

  /** What one step adds to the effects of a thread. */
  lemma EffectsStep(r: Run, t: nat)
    requires IsRun(r) && r.More?
    ensures
      var s, l := Last(r.before), r.step;
      var was, now := Effects(Log(r.before), t), Effects(Log(r), t);
      if l.Step? && l.thread == t && Last(r).threads[t].Returning?
      then now == was + [(Last(r).threads[t].op, Last(r).threads[t].result)]
           && Ops(now) == Ops(was) + [Last(r).threads[t].op]
      else now == was
  {
    match EventOf(Last(r.before), r.step) {
      case Some(e) =>
        EffectsMore(Log(r.before), e, t);
        if e.Effect? {
          OpsMore(Effects(Log(r.before), t), (e.op, e.result));
        }
      case None =>
    }
  }

  /** What one step does to the point of a thread and to its calls: it begins a call, goes
      on with it, completes it, or is none of its business. */
  lemma CallStep(r: Run, t: nat)
    requires IsRun(r) && r.More? && t < |Last(r).threads|
    ensures
      var was, now := Last(r.before).threads[t], Last(r).threads[t];
      var completes := r.step.Step? && r.step.thread == t && now.Returning?;
      || (!completes && !Busy(was) && Busy(now) && Invoked(r, t) == Invoked(r.before, t) + [OpOf(now).value])
      || (!completes && Busy(was) && Busy(now) && OpOf(was) == OpOf(now) && Invoked(r, t) == Invoked(r.before, t))
      || (completes && Busy(was) && OpOf(was) == Some(now.op) && Invoked(r, t) == Invoked(r.before, t))
      || (!completes && !Busy(was) && !Busy(now) && Invoked(r, t) == Invoked(r.before, t))
  {
    StepIsAtomicOrSilent(Last(r.before), r.step);
  }

  /** The calls of a thread are its effects plus the call in progress. */
  lemma {:induction false} CallsAreEffects(r: Run, t: nat)
    requires IsRun(r) && t < |Last(r).threads|
    ensures
      var p := Last(r).threads[t];
      var effects := Ops(Effects(Log(r), t));
      if Busy(p) then Invoked(r, t) == effects + [OpOf(p).value] else Invoked(r, t) == effects
  {
    if r.More? {
      CallsAreEffects(r.before, t);
      CallStep(r, t);
      EffectsStep(r, t);
    }
  }

  /** What one step does to the returns of a thread. */
  lemma ReturnStep(r: Run, t: nat)
    requires IsRun(r) && r.More? && t < |Last(r).threads|
    ensures
      var was, now := Last(r.before).threads[t], Last(r).threads[t];
      var completes := r.step.Step? && r.step.thread == t && now.Returning?;
      || (completes && !was.Returning? && Returned(r, t) == Returned(r.before, t))
      || (!completes && was.Returning? && !now.Returning?
          && Returned(r, t) == Returned(r.before, t) + [(was.op, was.result)])
      || (!completes && was.Returning? && now == was && Returned(r, t) == Returned(r.before, t))
      || (!completes && !was.Returning? && !now.Returning? && Returned(r, t) == Returned(r.before, t))
  {
  }

  /** Its effects are its returns plus the result about to be returned. */
  lemma {:induction false} EffectsAreReturns(r: Run, t: nat)
    requires IsRun(r) && t < |Last(r).threads|
    ensures
      var p := Last(r).threads[t];
      var effects := Effects(Log(r), t);
      if p.Returning? then effects == Returned(r, t) + [(p.op, p.result)] else effects == Returned(r, t)
  {
    if r.More? {
      EffectsAreReturns(r.before, t);
      ReturnStep(r, t);
      EffectsStep(r, t);
    }
  }

  /** For every thread: the calls are its effects plus the call in progress, and the
      effects are its returns plus the result about to be returned.  So a call has
      one effect, after it begins and before it returns, with its own operation and
      the result it returns. */
  lemma OneEffectPerCall(r: Run, t: nat)
    requires IsRun(r) && t < |Last(r).threads|
    ensures
      var p := Last(r).threads[t];
      var effects := Effects(Log(r), t);
      && (if Busy(p) then Invoked(r, t) == Ops(effects) + [OpOf(p).value] else Invoked(r, t) == Ops(effects))
      && (if p.Returning? then effects == Returned(r, t) + [(p.op, p.result)] else effects == Returned(r, t))
  {
    CallsAreEffects(r, t);
    EffectsAreReturns(r, t);
  }

  // ----- consequences -----

  ghost predicate OnlyIncrements(log: seq<Event>) {
    forall i :: 0 <= i < |log| ==> log[i].Effect? && log[i].op.Increment?
  }

  function Sum(log: seq<Event>): int
    requires OnlyIncrements(log)
  {
    if log == [] then 0 else Sum(log[..|log|-1]) + log[|log|-1].op.amount
  }

  lemma WrapShift(x: int, k: int)
    ensures Wrap(x + k * TWO_TO_32) == Wrap(x)
  {
    var q, m := (x + TWO_TO_31) / TWO_TO_32, (x + TWO_TO_31) % TWO_TO_32;
    DivModIs(x + k * TWO_TO_32 + TWO_TO_31, q + k, m);
  }

  lemma WrapWrap(x: int, y: int)
    ensures Wrap(Wrap(x) + y) == Wrap(x + y)
  {
    var k := (x + TWO_TO_31) / TWO_TO_32;
    assert x == Wrap(x) + k * TWO_TO_32;
    WrapShift(Wrap(x) + y, k);
  }

  /** Increments one after the other lose nothing: the cell ends at the sum, modulo 2^32. */
  lemma {:induction false} IncrementsAddUp(cell: int, log: seq<Event>)
    requires OnlyIncrements(log) && -TWO_TO_31 <= cell < TWO_TO_31
    ensures CellAfter(cell, log) == Wrap(cell + Sum(log))
  {
    if log != [] {
      var init := log[..|log|-1];
      IncrementsAddUp(cell, init);
      WrapWrap(cell + Sum(init), log[|log|-1].op.amount);
    }
  }

  lemma {:induction false} ResultIsSum(cell: int, log: seq<Event>, i: nat)
    requires OnlyIncrements(log) && -TWO_TO_31 <= cell < TWO_TO_31
    requires Explained(cell, log) && i < |log|
    ensures log[i].result == Wrap(cell + Sum(log[..i+1]))
  {
    IncrementsAddUp(cell, log[..i]);
    WrapWrap(cell + Sum(log[..i]), log[i].op.amount);
    assert log[..i+1][..i] == log[..i] && log[..i+1][i] == log[i];
  }

  /** The cell ends at the sum of all increments, modulo 2^32, and each result is the sum
      up to its effect. */
  ghost predicate ConservesSum(cell: int, log: seq<Event>, end: int)
    requires OnlyIncrements(log)
  {
    && end == Wrap(cell + Sum(log))
    && (forall i :: 0 <= i < |log| ==> log[i].result == Wrap(cell + Sum(log[..i+1])))
  }

  lemma {:induction false} LogConservesSum(cell: int, log: seq<Event>, end: int)
    requires OnlyIncrements(log) && -TWO_TO_31 <= cell < TWO_TO_31
    requires Explained(cell, log) && end == CellAfter(cell, log)
    ensures ConservesSum(cell, log, end)
  {
    IncrementsAddUp(cell, log);
    forall i | 0 <= i < |log|
      ensures log[i].result == Wrap(cell + Sum(log[..i+1]))
    {
      ResultIsSum(cell, log, i);
    }
  }

  /** Concurrent increments lose nothing, in any run. */
  lemma {:induction false} RunsConserveSum(r: Run)
    requires IsRun(r) && OnlyIncrements(Log(r)) && -TWO_TO_31 <= First(r).cell < TWO_TO_31
    ensures ConservesSum(First(r).cell, Log(r), Last(r).cell)
  {
    RunsLinearize(r);
    LogConservesSum(First(r).cell, Log(r), Last(r).cell);
  }

  /** AtomicSequenceNumber: GetNext returns the incremented value minus one. */
  function SequenceNumber(e: Event): int
    requires e.Effect?
  {
    Wrap(e.result - 1)
  }

  lemma {:induction false} CountedBy(log: seq<Event>)
    requires OnlyIncrements(log) && forall i :: 0 <= i < |log| ==> log[i].op.amount == 1
    ensures Sum(log) == |log|
  {
    if log != [] {
      CountedBy(log[..|log|-1]);
    }
  }

  lemma WrapSeparates(i: int, j: int)
    requires i < j && j - i < TWO_TO_32
    ensures Wrap(i) != Wrap(j)
  {
    var a, b := (i + TWO_TO_31) / TWO_TO_32, (j + TWO_TO_31) / TWO_TO_32;
    assert i == Wrap(i) + a * TWO_TO_32 && j == Wrap(j) + b * TWO_TO_32;
  }

  lemma SequenceNumberIs(log: seq<Event>, i: nat)
    requires OnlyIncrements(log) && forall k :: 0 <= k < |log| ==> log[k].op.amount == 1
    requires i < |log| && log[i].result == Wrap(Sum(log[..i+1]))
    ensures SequenceNumber(log[i]) == Wrap(i)
  {
    CountedBy(log[..i+1]);
    WrapWrap(i + 1, -1);
  }

  /** In a run from zero, the i-th GetNext to take effect returns i, so no two of the first
      2^32 calls of any threads return the same number. */
  lemma {:induction false} SequenceNumbersDiffer(r: Run, i: nat, j: nat)
    requires IsRun(r) && First(r).cell == 0 && OnlyIncrements(Log(r))
    requires forall k :: 0 <= k < |Log(r)| ==> Log(r)[k].op.amount == 1
    requires i < j < |Log(r)| && j - i < TWO_TO_32
    ensures SequenceNumber(Log(r)[i]) == Wrap(i) && SequenceNumber(Log(r)[j]) == Wrap(j)
    ensures SequenceNumber(Log(r)[i]) != SequenceNumber(Log(r)[j])
  {
    RunsConserveSum(r);
    SequenceNumberIs(Log(r), i);
    SequenceNumberIs(Log(r), j);
    WrapSeparates(i, j);
  }

  lemma WrapZero(x: int)
    ensures Wrap(x) == 0 <==> x % TWO_TO_32 == 0
  {
    var q, m := x / TWO_TO_32, x % TWO_TO_32;
    assert x == m + q * TWO_TO_32;
    WrapShift(m, q);
  }

  /** AtomicRefCountDecN: in a run of any number of threads adding and dropping references,
      the one whose drop brings the running count to zero, modulo 2^32, and only that one,
      is told so. */
  lemma {:induction false} DropSeesZero(r: Run, i: nat)
    requires IsRun(r) && OnlyIncrements(Log(r)) && -TWO_TO_31 <= First(r).cell < TWO_TO_31
    requires i < |Log(r)|
    ensures Log(r)[i].result == 0 <==> (First(r).cell + Sum(Log(r)[..i+1])) % TWO_TO_32 == 0
  {
    RunsConserveSum(r);
    WrapZero(First(r).cell + Sum(Log(r)[..i+1]));
  }

  // ----- swaps and exchanges -----

  ghost predicate OnlySwaps(log: seq<Event>, a: int, b: int) {
    forall i :: 0 <= i < |log| ==> log[i].Effect? && log[i].op == CompareAndSwap(a, b)
  }

  lemma {:induction false} SwapsOf(r: Run, a: int, b: int, i: nat)
    requires IsRun(r) && First(r).cell == a != b && OnlySwaps(Log(r), a, b)
    requires |History(r)| == |Log(r)| && i < |Log(r)|
    requires forall k :: 0 <= k < |Log(r)| ==> History(r)[k].event == Log(r)[k] && DoesItsOperation(History(r)[k])
    requires Continues(First(r).cell, History(r), Last(r).cell)
    ensures History(r)[i].before == (if i == 0 then a else b) && History(r)[i].after == b
  {
    assert History(r)[i].event == Log(r)[i] && DoesItsOperation(History(r)[i]);
    if i > 0 {
      SwapsOf(r, a, b, i - 1);
    }
  }

  /** Any number of threads swap a for b where the cell holds a: exactly the first to take
      effect is told a, and all others b.  It is how one thread comes to own something. */
  lemma {:induction false} OneSwapWins(r: Run, a: int, b: int, i: nat)
    requires IsRun(r) && First(r).cell == a != b && OnlySwaps(Log(r), a, b) && i < |Log(r)|
    ensures Log(r)[i].result == (if i == 0 then a else b)
    ensures Last(r).cell == b
  {
    RunsDoTheirOperations(r);
    SwapsOf(r, a, b, i);
    SwapsOf(r, a, b, |Log(r)| - 1);
    assert DoesItsOperation(History(r)[i]);
  }

  ghost predicate OnlyExchanges(log: seq<Event>) {
    forall i :: 0 <= i < |log| ==> log[i].Effect? && log[i].op.Exchange?
  }

  function Results(log: seq<Event>): multiset<int>
    requires OnlyExchanges(log)
  {
    if log == [] then multiset{} else Results(log[..|log|-1]) + multiset{log[|log|-1].result}
  }

  function Stored(log: seq<Event>): multiset<int>
    requires OnlyExchanges(log)
  {
    if log == [] then multiset{} else Stored(log[..|log|-1]) + multiset{log[|log|-1].op.desired}
  }

  lemma ExchangesMore(log: seq<Event>, e: Event)
    requires OnlyExchanges(log + [e])
    ensures OnlyExchanges(log) && e.Effect? && e.op.Exchange?
    ensures Results(log + [e]) == Results(log) + multiset{e.result}
    ensures Stored(log + [e]) == Stored(log) + multiset{e.op.desired}
  {
    var more := log + [e];
    assert more[|log|] == e && more[..|log|] == log;
    assert forall i :: 0 <= i < |log| ==> more[i] == log[i];
  }

  /** Exchanges hand values on: what the calls return, with what the cell ends with, is what
      it began with and what they stored. */
  lemma {:induction false} ExchangesConserve(r: Run)
    requires IsRun(r) && OnlyExchanges(Log(r))
    ensures Results(Log(r)) + multiset{Last(r).cell} == multiset{First(r).cell} + Stored(Log(r))
  {
    if r.More? {
      EffectDoesItsOperation(Last(r.before), r.step);
      match EventOf(Last(r.before), r.step) {
        case Some(e) => ExchangesMore(Log(r.before), e);
        case None =>
      }
      ExchangesConserve(r.before);
    }
  }

  // ----- progress -----

  function Alone(s: State, t: nat): (s': State)
    requires t < |s.threads|
    ensures |s'.threads| == |s.threads|
  {
    if Busy(s.threads[t]) then Next(s, Step(t, false)) else s
  }

  /** A loop left alone for three accesses returns. */
  lemma AloneFinishes(s: State, t: nat)
    requires t < |s.threads| && Busy(s.threads[t])
    ensures
      var a := Alone(Alone(Alone(s, t), t), t);
      a.threads[t].Returning?
  {
  }
}
