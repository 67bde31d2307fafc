/**
  The single-flight protocol of AsyncLazyValue as a labelled transition system.

  A state holds the fields of one AsyncLazyValue object, every future it ever handed out,
  every compute object it ever created, and three logs: calls of the wrapped callable,
  values returned by a compute or by the value itself, and, per future, how often the value
  completed it. A call into user code (the callable, a coroutine's send, throw or close) is
  cut into a Begin action and a Resume action, so anything may be interleaved with it.

  `Enabled` spells out what the code relies on from its environment: a compute is not driven
  while it is being driven, after it finished or after close(); callbacks do not run inside
  a notification; create_task is atomic; throw() gets a raisable exception.
*/
module LazyValueProtocol {
  import opened Basics

  type Val = int

  /** What `None` is, when an iterator without a `throw` method swallows a thrown exception. */
  const NONE: Val := 0

  datatype Exc = Exc(id: int, isCancelledError: bool)

  /** The exception raised by close() when the sub-iterator closed normally. */
  const GENERATOR_EXIT := Exc(0, false)

  datatype Outcome = Pending | Finished(v: Val) | Raised(e: Exc) | Cancelled

  /**
    How a notification loop goes wrong. At(i, landed) is a failing done() or setter at
    position i; asyncio's setters store the outcome before they schedule callbacks, so the
    future at i may be completed (landed) although the setter raised.
  */
  datatype Fault = NoFault | At(index: nat, landed: bool)

  /**
    A future handed out by the value: `flight` is the compute it waited for, `hits` counts
    completions by the value.
  */
  datatype Fut = Fut(outcome: Outcome, flight: nat, hits: nat)

  datatype AlvState = NotStarted | Running | Done

  datatype End =
    | Returned(v: Val)        // set_result succeeded
    | ReturnFault(v: Val)     // set_result failed while notifying
    | Failed(fan: Outcome)    // set_error succeeded: the error was delivered
    | ErrorFault(fan: Outcome) // set_error failed
    | Abandoned               // close() or throw() before the first step
    | Dropped(started: bool)  // deallocated unfinished

  datatype Phase =
    | Fresh                       // no coroutine yet
    | Calling                     // inside the wrapped callable
    | Idle                        // suspended at a yield
    | Sending
    | Closing
    | ThrowClosing(thrown: Exc)   // throw(GeneratorExit): closing the sub-iterator
    | Throwing
    | Ended(how: End)

  datatype Sys = Sys(
    state: AlvState,
    result: Option<Val>,
    list: Option<seq<nat>>,   // alv_futures: positions in futs
    args: bool,               // alv_args still present
    futs: seq<Fut>,
    comps: seq<Phase>,
    calls: seq<nat>,
    delivered: seq<Val>)

  datatype Alloc = AllocOk | NoObject | NoAppend

  datatype Drive = Send | Close | Throw(exc: Exc, isGeneratorExit: bool)

  datatype Reply = Ready | Yielded | Value(v: Val) | Error(e: Exc) | Closed | NoThrowMethod

  datatype Action =
    | Await(alloc: Alloc)
    | EnsureFuture(alloc: Alloc)
    | SendToValue
    | Begin(c: nat, drive: Drive)
    | Resume(c: nat, reply: Reply, classified: bool, fault: Fault)
    | Drop(c: nat)
    | Complete(f: nat, outcome: Outcome)   // somebody else completes or cancels a future

  const Init := Sys(NotStarted, None, None, true, [], [], [], [])

  // ----- the pieces of a step

  predicate Hit(fault: Fault, j: nat) {
    match fault
    case NoFault => true
    case At(i, landed) => j < i || (j == i && landed)
  }

  predicate Succeeds(fault: Fault, n: nat) {
    fault.NoFault? || n <= fault.index
  }

  ghost predicate Reached(list: Option<seq<nat>>, fault: Fault, id: nat) {
    list.Some? && exists j :: 0 <= j < |list.value| && list.value[j] == id && Hit(fault, j)
  }

  predicate NotifyOk(s: Sys, fault: Fault) {
    s.list.None? || Succeeds(fault, |s.list.value|)
  }

  ghost function FanOut(futs: seq<Fut>, list: Option<seq<nat>>, fan: Outcome, fault: Fault): seq<Fut> {
    seq(|futs|, id requires 0 <= id < |futs| =>
      if futs[id].outcome.Pending? && Reached(list, fault, id)
      then Fut(fan, futs[id].flight, futs[id].hits + 1) else futs[id])
  }

  function FanOutcome(e: Exc): Outcome {
    if e.isCancelledError then Cancelled else Raised(e)
  }

  ghost function SetResult(s: Sys, v: Val, fault: Fault): Sys {
    s.(state := Done, result := Some(v),
       futs := FanOut(s.futs, s.list, Finished(v), fault),
       args := s.args && !NotifyOk(s, fault))
  }

  ghost function SetError(s: Sys, e: Exc, classified: bool, fault: Fault): Sys {
    if !classified then s else
    var t := s.(futs := FanOut(s.futs, s.list, FanOutcome(e), fault));
    if NotifyOk(s, fault) then t.(list := None, state := NotStarted) else t
  }

  /** The coroutine returned v: publish it, then forget the compute. */
  ghost function FinishCompute(s: Sys, c: nat, v: Val, fault: Fault): Sys
    requires c < |s.comps|
  {
    var ok := NotifyOk(s, fault);
    SetResult(s, v, fault).(
      comps := s.comps[c := Ended(if ok then Returned(v) else ReturnFault(v))],
      delivered := if ok then s.delivered + [v] else s.delivered)
  }

  /** An error ends the compute: deliver it to the waiters. */
  ghost function FailCompute(s: Sys, c: nat, e: Exc, classified: bool, fault: Fault): Sys
    requires c < |s.comps|
  {
    SetError(s, e, classified, fault).(
      comps := s.comps[c := Ended(
        if classified && NotifyOk(s, fault) then Failed(FanOutcome(e)) else ErrorFault(FanOutcome(e)))])
  }

  function NewCompute(s: Sys): Sys {
    s.(state := Running, comps := s.comps + [Fresh])
  }

  /** The compute a waiter arriving now waits for. */
  function Newest(s: Sys): nat {
    if s.comps == [] then 0 else |s.comps| - 1
  }

  function NewFuture(s: Sys, alloc: Alloc): Sys {
    match alloc
    case NoObject => s
    case NoAppend => s.(list := if s.list.None? then Some([]) else s.list)
    case AllocOk =>
      s.(list := Some((if s.list.None? then [] else s.list.value) + [|s.futs|]),
         futs := s.futs + [Fut(Pending, Newest(s), 0)])
  }

  // ----- the environment rules and the step function

  ghost predicate Enabled(s: Sys, a: Action) {
    match a
    case Await(_) => true
    case EnsureFuture(_) => true
    case SendToValue => true
    case Begin(c, _) => c < |s.comps| && (s.comps[c].Fresh? || s.comps[c].Idle?)
    case Resume(c, reply, _, _) => c < |s.comps| && Answers(s.comps[c], reply)
    case Drop(c) => c < |s.comps| && (s.comps[c].Fresh? || s.comps[c].Idle?)
    case Complete(f, o) => f < |s.futs| && s.futs[f].outcome.Pending? && !o.Pending?
  }

  predicate Answers(p: Phase, reply: Reply) {
    match p
    case Calling => reply.Ready? || reply.Error?
    case Sending => reply.Yielded? || reply.Value? || reply.Error?
    case Closing => reply.Closed? || reply.Error?
    case ThrowClosing(_) => reply.Closed? || reply.Error?
    case Throwing => reply.Yielded? || reply.Value? || reply.Error? || reply.NoThrowMethod?
    case _ => false
  }

  ghost function BeginStep(s: Sys, c: nat, drive: Drive): Sys
    requires Enabled(s, Begin(c, drive))
  {
    if s.comps[c].Fresh? then
      if drive.Send? then s.(comps := s.comps[c := Calling], calls := s.calls + [c])
      else s.(comps := s.comps[c := Ended(Abandoned)])
    else
      s.(comps := s.comps[c :=
        match drive
        case Send => Sending
        case Close => Closing
        case Throw(e, exit) => if exit then ThrowClosing(e) else Throwing])
  }

  ghost function ResumeStep(s: Sys, c: nat, reply: Reply, classified: bool, fault: Fault): Sys
    requires Enabled(s, Resume(c, reply, classified, fault))
  {
    match reply
    case Ready => s.(comps := s.comps[c := Sending])
    case Yielded => s.(comps := s.comps[c := Idle])
    case Value(v) => FinishCompute(s, c, v, fault)
    case NoThrowMethod => FinishCompute(s, c, NONE, fault)
    case Error(e) => FailCompute(s, c, e, classified, fault)
    case Closed =>
      FailCompute(s, c, if s.comps[c].ThrowClosing? then s.comps[c].thrown else GENERATOR_EXIT, classified, fault)
  }

  ghost function Step(s: Sys, a: Action): Sys
    requires Enabled(s, a)
  {
    match a
    case Await(alloc) =>
      (match s.state
       case NotStarted => if alloc.AllocOk? then NewCompute(s) else s
       case Running => NewFuture(s, alloc)
       case Done => s)
    case EnsureFuture(alloc) =>
      (match s.state
       case NotStarted => if alloc.AllocOk? then NewCompute(s) else s
       case Running => NewFuture(s, alloc)
       case Done =>
         if alloc.AllocOk? && s.result.Some?
         then s.(futs := s.futs + [Fut(Finished(s.result.value), Newest(s), 1)]) else s)
    case SendToValue =>
      if s.state.Done? && s.result.Some? then s.(delivered := s.delivered + [s.result.value]) else s
    case Begin(c, drive) => BeginStep(s, c, drive)
    case Resume(c, reply, classified, fault) => ResumeStep(s, c, reply, classified, fault)
    case Drop(c) => s.(comps := s.comps[c := Ended(Dropped(s.comps[c].Idle?))])
    case Complete(f, o) => s.(futs := s.futs[f := s.futs[f].(outcome := o)])
  }

  // ----- runs

  /** The action list is a run: every action is enabled where it is taken. */
  ghost predicate IsRun(acts: seq<Action>)
    decreases |acts|, 0
  {
    acts == [] || (IsRun(acts[..|acts| - 1]) && Enabled(Exec(acts[..|acts| - 1]), acts[|acts| - 1]))
  }

  /** The state after a run. */
  ghost function Exec(acts: seq<Action>): Sys
    requires IsRun(acts)
    decreases |acts|, 1
  {
    if acts == [] then Init else Step(Exec(acts[..|acts| - 1]), acts[|acts| - 1])
  }

  // ----- the invariant of every reachable state

  predicate Live(p: Phase) { !p.Ended? }

  /** Has this compute called the wrapped callable? */
  predicate Called(p: Phase) {
    !p.Fresh? && !(p.Ended? && (p.how.Abandoned? || p.how == Dropped(false)))
  }

  /** Ended without telling the value: the value stays RUNNING for ever. */
  predicate Stuck(p: Phase) {
    p.Ended? && (p.how.Abandoned? || p.how.Dropped? || p.how.ErrorFault?)
  }

  /** What the value gives the waiters of a flight that ended this way. */
  function Announced(h: End): Option<Outcome> {
    match h
    case Returned(v) => Some(Finished(v))
    case ReturnFault(v) => Some(Finished(v))
    case Failed(fan) => Some(fan)
    case ErrorFault(fan) => Some(fan)
    case _ => None
  }

  predicate StateMatches(s: Sys) {
    if s.comps == [] then
      s.state.NotStarted? && s.result.None? && s.args
    else
      match s.comps[|s.comps| - 1]
      case Ended(Returned(v)) => s.state.Done? && s.result == Some(v) && !s.args
      case Ended(ReturnFault(v)) => s.state.Done? && s.result == Some(v) && s.args
      case Ended(Failed(_)) => s.state.NotStarted? && s.result.None? && s.args
      case _ => s.state.Running? && s.result.None? && s.args
  }

  predicate Errored(p: Phase) {
    p.Ended? && (p.how.Failed? || p.how.ErrorFault?)
  }

  ghost predicate FlightsInOrder(s: Sys) {
    && (forall i :: 0 <= i < |s.comps| - 1 ==> s.comps[i].Ended? && s.comps[i].how.Failed?)
    && (forall i :: 0 <= i < |s.comps| && Errored(s.comps[i]) ==>
          s.comps[i].how.fan.Raised? || s.comps[i].how.fan.Cancelled?)
    && |s.calls| == (if s.comps == [] then 0 else if Called(s.comps[|s.comps| - 1]) then |s.comps| else |s.comps| - 1)
    && (forall i :: 0 <= i < |s.calls| ==> s.calls[i] == i)
  }

  ghost predicate ListOk(s: Sys) {
    && (s.state.NotStarted? ==> s.list.None?)
    && (s.list.Some? ==>
        && (forall j :: 0 <= j < |s.list.value| ==>
            s.list.value[j] < |s.futs| && s.futs[s.list.value[j]].flight == |s.comps| - 1)
        && (forall j, k :: 0 <= j < k < |s.list.value| ==> s.list.value[j] < s.list.value[k]))
  }

  ghost predicate FutureOk(s: Sys, f: nat)
    requires f < |s.futs|
  {
    var fut := s.futs[f];
    && fut.flight < |s.comps|
    && fut.hits <= 1
    && (fut.hits == 1 ==>
        && !fut.outcome.Pending?
        && s.comps[fut.flight].Ended?
        && Announced(s.comps[fut.flight].how) == Some(fut.outcome))
    && (fut.outcome.Pending? ==>
        && fut.flight == |s.comps| - 1
        && s.list.Some? && f in s.list.value
        && (s.comps[fut.flight].Ended? ==> !s.comps[fut.flight].how.Returned? && !s.comps[fut.flight].how.Failed?))
  }

  ghost predicate FuturesOk(s: Sys) {
    forall f :: 0 <= f < |s.futs| ==> FutureOk(s, f)
  }

  ghost predicate DeliveredOk(s: Sys) {
    && (s.result.None? ==> s.delivered == [])
    && forall i :: 0 <= i < |s.delivered| ==> Some(s.delivered[i]) == s.result
  }

  ghost predicate Inv(s: Sys) {
    StateMatches(s) && FlightsInOrder(s) && ListOk(s) && FuturesOk(s) && DeliveredOk(s)
  }

  // ----- every action keeps the invariant

  lemma NewFutureKeepsInv(s: Sys, alloc: Alloc)
    requires Inv(s) && s.state.Running?
    ensures Inv(NewFuture(s, alloc))
  {
    var t := NewFuture(s, alloc);
    forall f | 0 <= f < |t.futs| ensures FutureOk(t, f) {
      if f < |s.futs| { assert FutureOk(s, f); }
    }
  }

  lemma NewComputeKeepsInv(s: Sys)
    requires Inv(s) && s.state.NotStarted?
    ensures Inv(NewCompute(s))
  {
    var t := NewCompute(s);
    forall f | 0 <= f < |t.futs| ensures FutureOk(t, f) {
      assert FutureOk(s, f);
    }
  }

  /** A live compute is the newest one, and the value is RUNNING without a result. */
  lemma LiveIsLast(s: Sys, c: nat)
    requires Inv(s) && c < |s.comps| && Live(s.comps[c])
    ensures c == |s.comps| - 1 && s.state.Running? && s.result.None? && s.args && s.delivered == []
  {
  }

  lemma BeginKeepsInv(s: Sys, c: nat, drive: Drive)
    requires Inv(s) && Enabled(s, Begin(c, drive))
    ensures Inv(BeginStep(s, c, drive))
  {
    LiveIsLast(s, c);
    RephaseKeepsFutures(s, BeginStep(s, c, drive), c);
  }

  /** Moving the live compute to another phase that announces nothing keeps the futures in order. */
  lemma RephaseKeepsFutures(s: Sys, t: Sys, c: nat)
    requires Inv(s) && c < |s.comps| && Live(s.comps[c])
    requires t.futs == s.futs && t.list == s.list && |t.comps| == |s.comps| && t.comps == s.comps[c := t.comps[c]]
    requires t.comps[c].Ended? ==> Announced(t.comps[c].how).None?
    ensures FuturesOk(t)
  {
    forall f | 0 <= f < |t.futs| ensures FutureOk(t, f) {
      assert FutureOk(s, f);
    }
  }

  lemma FinishKeepsInv(s: Sys, c: nat, v: Val, fault: Fault)
    requires Inv(s) && c < |s.comps| && Live(s.comps[c]) && Called(s.comps[c])
    ensures Inv(FinishCompute(s, c, v, fault))
  {
    LiveIsLast(s, c);
    var t := FinishCompute(s, c, v, fault);
    forall f | 0 <= f < |t.futs| ensures FutureOk(t, f) {
      assert FutureOk(s, f);
    }
  }

  lemma FailKeepsInv(s: Sys, c: nat, e: Exc, classified: bool, fault: Fault)
    requires Inv(s) && c < |s.comps| && Live(s.comps[c]) && Called(s.comps[c])
    ensures Inv(FailCompute(s, c, e, classified, fault))
  {
    LiveIsLast(s, c);
    var t := FailCompute(s, c, e, classified, fault);
    forall f | 0 <= f < |t.futs| ensures FutureOk(t, f) {
      assert FutureOk(s, f);
    }
  }

  lemma ResumeKeepsInv(s: Sys, c: nat, reply: Reply, classified: bool, fault: Fault)
    requires Inv(s) && Enabled(s, Resume(c, reply, classified, fault))
    ensures Inv(ResumeStep(s, c, reply, classified, fault))
  {
    match reply
    case Ready => LiveIsLast(s, c); RephaseKeepsFutures(s, ResumeStep(s, c, reply, classified, fault), c);
    case Yielded => LiveIsLast(s, c); RephaseKeepsFutures(s, ResumeStep(s, c, reply, classified, fault), c);
    case Value(v) => FinishKeepsInv(s, c, v, fault);
    case NoThrowMethod => FinishKeepsInv(s, c, NONE, fault);
    case Error(e) => FailKeepsInv(s, c, e, classified, fault);
    case Closed =>
      FailKeepsInv(s, c, if s.comps[c].ThrowClosing? then s.comps[c].thrown else GENERATOR_EXIT, classified, fault);
  }

  lemma CompleteKeepsInv(s: Sys, f: nat, o: Outcome)
    requires Inv(s) && Enabled(s, Complete(f, o))
    ensures Inv(Step(s, Complete(f, o)))
  {
    var t := Step(s, Complete(f, o));
    forall g | 0 <= g < |t.futs| ensures FutureOk(t, g) {
      assert FutureOk(s, g);
    }
  }

  lemma EnsureWhenDoneKeepsInv(s: Sys, alloc: Alloc)
    requires Inv(s) && s.state.Done?
    ensures Inv(Step(s, EnsureFuture(alloc))) && s.result.Some?
  {
    var t := Step(s, EnsureFuture(alloc));
    forall f | 0 <= f < |t.futs| ensures FutureOk(t, f) {
      if f < |s.futs| { assert FutureOk(s, f); }
    }
  }

  /** Every action allowed by the environment rules keeps the invariant. */
  lemma StepKeepsInv(s: Sys, a: Action)
    requires Inv(s) && Enabled(s, a)
    ensures Inv(Step(s, a))
  {
    match a
    case Await(alloc) =>
      if s.state.NotStarted? { NewComputeKeepsInv(s); }
      if s.state.Running? { NewFutureKeepsInv(s, alloc); }
    case EnsureFuture(alloc) =>
      if s.state.NotStarted? { NewComputeKeepsInv(s); }
      if s.state.Running? { NewFutureKeepsInv(s, alloc); }
      if s.state.Done? { EnsureWhenDoneKeepsInv(s, alloc); }
    case SendToValue => 
      var t := Step(s, a);
      forall f | 0 <= f < |t.futs| ensures FutureOk(t, f) { assert FutureOk(s, f); }
    case Begin(c, drive) => BeginKeepsInv(s, c, drive);
    case Resume(c, reply, classified, fault) => ResumeKeepsInv(s, c, reply, classified, fault);
    case Drop(c) => LiveIsLast(s, c); RephaseKeepsFutures(s, Step(s, a), c);
    case Complete(f, o) => CompleteKeepsInv(s, f, o);
  }

  /** Every run reaches only states that satisfy the invariant. */
  lemma {:induction false} RunsKeepInv(acts: seq<Action>)
    requires IsRun(acts)
    ensures Inv(Exec(acts))
    decreases |acts|
  {
    if acts != [] {
      RunsKeepInv(acts[..|acts| - 1]);
      StepKeepsInv(Exec(acts[..|acts| - 1]), acts[|acts| - 1]);
    }
  }
}
