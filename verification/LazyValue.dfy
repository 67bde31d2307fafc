/**
  AsyncLazyValue, its compute objects and its futures as objects updated in place.
  Each method below is one C function, or the part of one between two calls into user code,
  and is proved to take exactly the corresponding step of LazyValueProtocol. The ghost
  fields record every future handed out, every compute created and the protocol state.
*/
module LazyValue {
  import opened Basics
  import opened LazyValueProtocol

  class Future {
    var outcome: Outcome

    constructor (outcome: Outcome)
      ensures this.outcome == outcome
    {
      this.outcome := outcome;
    }
  }

  /** The loop shared by set_result and set_error: skip futures already done, stop at the first failure. */
  method NotifyFutures(futures: seq<Future>, fan: Outcome, fault: Fault) returns (ok: bool)
    requires forall j, k :: 0 <= j < k < |futures| ==> futures[j] != futures[k]
    requires !fan.Pending?
    modifies futures
    ensures ok <==> Succeeds(fault, |futures|)
    ensures forall j :: 0 <= j < |futures| ==>
      futures[j].outcome == if old(futures[j].outcome).Pending? && Hit(fault, j) then fan else old(futures[j].outcome)
  {
    var i := 0;
    while i < |futures|
      invariant 0 <= i <= |futures|
      invariant fault.At? ==> i <= fault.index
      invariant forall j :: 0 <= j < i ==>
        futures[j].outcome == if old(futures[j].outcome).Pending? then fan else old(futures[j].outcome)
      invariant forall j :: i <= j < |futures| ==> futures[j].outcome == old(futures[j].outcome)
    {
      var failsHere := fault.At? && fault.index == i;
      if !futures[i].outcome.Pending? {
        if failsHere { return false; }   // done() itself raised
        i := i + 1;
        continue;
      }
      if !failsHere || fault.landed {
        futures[i].outcome := fan;
      }
      if failsHere { return false; }
      i := i + 1;
    }
    return true;
  }

  class AsyncLazyValue {
    var alv_state: AlvState
    var alv_result: Option<Val>
    var alv_futures: Option<seq<Future>>
    var alv_args: bool

    ghost var issued: seq<Future>
    ghost var computes: seq<Compute>
    ghost var model: Sys

    ghost predicate FuturesMatch()
      reads this, issued
    {
      && |issued| == |model.futs|
      && (forall j, k :: 0 <= j < k < |issued| ==> issued[j] != issued[k])
      && (forall j :: 0 <= j < |issued| ==> issued[j].outcome == model.futs[j].outcome)
    }

    ghost predicate ListMatches()
      reads this
    {
      && |issued| == |model.futs|
      && alv_futures.Some? == model.list.Some?
      && (alv_futures.Some? ==>
          && |alv_futures.value| == |model.list.value|
          && forall j :: 0 <= j < |model.list.value| ==>
               model.list.value[j] < |issued| && alv_futures.value[j] == issued[model.list.value[j]])
    }

    ghost predicate ComputesMatch()
      reads this, computes
    {
      && |computes| == |model.comps|
      && (forall j, k :: 0 <= j < k < |computes| ==> computes[j] != computes[k])
      && (forall j :: 0 <= j < |computes| ==>
            computes[j].owner == this && computes[j].index == j && computes[j].Matches(model.comps[j]))
    }

    ghost predicate Valid()
      reads this, issued, computes
    {
      && Inv(model)
      && alv_state == model.state
      && alv_result == model.result
      && alv_args == model.args
      && FuturesMatch() && ListMatches() && ComputesMatch()
    }

    constructor ()
      ensures Valid() && model == Init
    {
      alv_state, alv_result, alv_futures, alv_args := NotStarted, None, None, true;
      issued, computes, model := [], [], Init;
    }

    /** Every future's outcome is what fanning out to the listed ones makes of it. */
    ghost predicate FannedOut(fan: Outcome, fault: Fault)
      reads this, issued
    {
      && |issued| == |model.futs|
      && forall j :: 0 <= j < |issued| ==> issued[j].outcome == FanOut(model.futs, model.list, fan, fault)[j].outcome
    }

    /** Notify the waiters in alv_futures, if there is a list. */
    method NotifyWaiters(fan: Outcome, fault: Fault) returns (ok: bool)
      requires Inv(model) && FuturesMatch() && ListMatches() && !fan.Pending?
      modifies issued
      ensures ok <==> NotifyOk(model, fault)
      ensures FannedOut(fan, fault)
    {
      if alv_futures.None? { return true; }
      ok := NotifyFutures(alv_futures.value, fan, fault);
      ghost var list := model.list.value;
      forall j | 0 <= j < |issued|
        ensures issued[j].outcome == FanOut(model.futs, model.list, fan, fault)[j].outcome
      {
        if k :| 0 <= k < |list| && list[k] == j {
          assert alv_futures.value[k] == issued[j];
          assert Reached(model.list, fault, j) <==> Hit(fault, k);
        } else {
          assert issued[j] !in alv_futures.value;
        }
      }
    }

    method SetResult(res: Val, fault: Fault) returns (ok: bool)
      requires Valid()
      modifies `alv_result, `alv_state, `alv_args, issued
      ensures ok <==> NotifyOk(model, fault)
      ensures alv_state.Done? && alv_result == Some(res) && alv_args == (old(alv_args) && !ok)
      ensures FannedOut(Finished(res), fault)
    {
      alv_result := Some(res);
      alv_state := Done;
      ok := NotifyWaiters(Finished(res), fault);
      if ok { alv_args := false; }
    }

    method SetError(exc: Exc, classified: bool, fault: Fault) returns (ok: bool)
      requires Valid()
      modifies `alv_futures, `alv_state, issued
      ensures ok <==> classified && NotifyOk(model, fault)
      ensures if ok then alv_state.NotStarted? && alv_futures.None?
              else alv_state == old(alv_state) && alv_futures == old(alv_futures)
      ensures if classified then FannedOut(FanOutcome(exc), fault) else FuturesMatch()
    {
      if !classified { return false; }   // no CancelledError type, or isinstance() raised
      ok := NotifyWaiters(FanOutcome(exc), fault);
      if ok {
        alv_futures := None;
        alv_state := NotStarted;
      }
    }

    method NewFuture(alloc: Alloc) returns (fut: Future?)
      requires Valid() && alv_state.Running?
      modifies this
      ensures Valid() && model == LazyValueProtocol.NewFuture(old(model), alloc)
      ensures fut != null <==> alloc.AllocOk?
      ensures computes == old(computes)
      ensures issued == if fut == null then old(issued) else old(issued) + [fut]
      ensures fut != null ==> fresh(fut) && fut.outcome.Pending?
    {
      hide Inv;
      NewFutureKeepsInv(model, alloc);
      fut := null;
      if alloc.NoObject? { return; }
      var f := new Future(Pending);
      if alv_futures.None? { alv_futures := Some([]); }
      if alloc.AllocOk? {
        alv_futures := Some(alv_futures.value + [f]);
        issued := issued + [f];
        fut := f;
      }
      model := LazyValueProtocol.NewFuture(model, alloc);
    }

    method NewComputeObj() returns (compute: Compute)
      requires Valid() && alv_state.NotStarted?
      modifies this
      ensures Valid() && model == NewCompute(old(model))
      ensures fresh(compute) && issued == old(issued) && computes == old(computes) + [compute]
    {
      hide Inv;
      NewComputeKeepsInv(model);
      compute := new Compute(this, |computes|);
      alv_state := Running;
      computes := computes + [compute];
      model := NewCompute(model);
    }

    method Await(alloc: Alloc) returns (r: Awaitable)
      requires Valid()
      modifies this
      ensures Valid() && model == Step(old(model), LazyValueProtocol.Await(alloc))
      ensures match old(alv_state)
        case NotStarted =>
          if alloc.AllocOk? then r.Computing? && computes == old(computes) + [r.compute] else r.Nothing?
        case Running => if alloc.AllocOk? then r.Waiting? && issued == old(issued) + [r.future] else r.Nothing?
        case Done => r.Itself?
    {
      match alv_state {
        case NotStarted =>
          if !alloc.AllocOk? { return Nothing; }
          var c := NewComputeObj();
          return Computing(c);
        case Running =>
          var f := NewFuture(alloc);
          if f == null { return Nothing; }
          return Waiting(f);
        case Done =>
          return Itself;
      }
    }

    /** A future that already holds the result. */
    method ResultFuture() returns (fut: Future)
      requires Valid() && alv_state.Done?
      modifies this
      ensures Valid() && model == Step(old(model), LazyValueProtocol.EnsureFuture(AllocOk))
      ensures issued == old(issued) + [fut] && fut.outcome.Finished? && alv_result == Some(fut.outcome.v)
      ensures alv_result == old(alv_result)
    {
      hide Inv;
      EnsureWhenDoneKeepsInv(model, AllocOk);
      fut := new Future(Finished(alv_result.value));
      model := Step(model, LazyValueProtocol.EnsureFuture(AllocOk));
      issued := issued + [fut];
    }

    /** ensure_future; when NOT_STARTED the task made by the loop wraps the new compute. */
    method EnsureFuture(alloc: Alloc) returns (r: Awaitable)
      requires Valid()
      modifies this
      ensures Valid() && model == Step(old(model), LazyValueProtocol.EnsureFuture(alloc))
      ensures r.Nothing? <==> !alloc.AllocOk?
      ensures alloc.AllocOk? ==> match old(alv_state)
        case NotStarted => r.Computing? && computes == old(computes) + [r.compute]
        case Running => r.Waiting? && issued == old(issued) + [r.future]
        case Done =>
          && r.Waiting? && issued == old(issued) + [r.future]
          && r.future.outcome.Finished? && alv_result == Some(r.future.outcome.v)
    {
      hide Inv;
      match alv_state {
        case Done =>
          if !alloc.AllocOk? { return Nothing; }
          var f := ResultFuture();
          return Waiting(f);
        case Running =>
          var f := NewFuture(alloc);
          if f == null { return Nothing; }
          return Waiting(f);
        case NotStarted =>
          if !alloc.AllocOk? { return Nothing; }
          var c := NewComputeObj();
          return Computing(c);
      }
    }

    /** am_send on the value itself: its result once DONE, a TypeError before. */
    method IterSend() returns (r: Option<Val>)
      requires Valid()
      modifies `model
      ensures Valid() && model == Step(old(model), SendToValue)
      ensures r == if alv_state.Done? then alv_result else None
    {
      StepKeepsInv(model, SendToValue);
      model := Step(model, SendToValue);
      return if alv_state.Done? then alv_result else None;
    }

    /** Somebody else completes or cancels a future they hold. */
    method CompleteElsewhere(fut: Future, ghost f: nat, outcome: Outcome)
      requires Valid() && Enabled(model, Complete(f, outcome)) && issued[f] == fut
      modifies `model, fut
      ensures Valid() && model == Step(old(model), Complete(f, outcome))
    {
      StepKeepsInv(model, Complete(f, outcome));
      fut.outcome := outcome;
      model := Step(model, Complete(f, outcome));
    }
  }

  datatype Awaitable = Nothing | Computing(compute: Compute) | Waiting(future: Future) | Itself

  class Compute {
    ghost const owner: AsyncLazyValue
    ghost const index: nat
    var alvc_target: AsyncLazyValue?
    var alvc_coroobj: bool          // is there a coroutine object

    constructor (target: AsyncLazyValue, ghost index: nat)
      ensures owner == target && this.index == index && alvc_target == target && !alvc_coroobj
    {
      owner, this.index := target, index;
      alvc_target, alvc_coroobj := target, false;
    }

    /** What the two fields look like in each phase; close() drops the coroutine while it is at work. */
    ghost predicate Matches(p: Phase)
      reads this
    {
      Live(p) ==>
        && alvc_target == owner
        && (p.Fresh? || p.Calling? ==> !alvc_coroobj)
        && (p.Idle? || p.Sending? || p.Throwing? ==> alvc_coroobj)
    }

    /** The value is in order and knows this compute. */
    ghost predicate Registered()
      reads this, owner, owner.issued, owner.computes
    {
      owner.Valid() && index < |owner.computes| && owner.computes[index] == this
    }

    ghost function Phase(): Phase
      requires Registered()
      reads this, owner, owner.issued, owner.computes
    {
      owner.model.comps[index]
    }

    /** Forget the target and the coroutine; done to a compute that has ended. */
    method Clear()
      requires Registered() && Phase().Ended?
      modifies this
      ensures Registered()
      ensures alvc_target == null && !alvc_coroobj
    {
      alvc_target, alvc_coroobj := null, false;
    }

    /** Forget the coroutine, as close and throw(GeneratorExit) do once it was closed. */
    method ClearCoroutine()
      requires Registered() && (Phase().Closing? || Phase().ThrowClosing?)
      modifies `alvc_coroobj
      ensures Registered() && !alvc_coroobj
    {
      alvc_coroobj := false;
    }

    /** Publish the returned value, as the end of send and of throw do. */
    method PublishResult(res: Val, fault: Fault) returns (ok: bool)
      requires Registered() && (Phase().Sending? || Phase().Throwing?)
      modifies owner, owner.issued
      ensures Registered() && owner.issued == old(owner.issued) && owner.computes == old(owner.computes)
      ensures owner.model == FinishCompute(old(owner.model), index, res, fault)
      ensures ok <==> NotifyOk(old(owner.model), fault)
    {
      hide Inv;
      FinishKeepsInv(owner.model, index, res, fault);
      ok := alvc_target.SetResult(res, fault);
      owner.model := FinishCompute(owner.model, index, res, fault);
    }

    /**
      handle_error: deliver the error to the waiters. Answers whether an exception leaves the
      caller: the original when asked to re-raise, or the one a failed notification raised,
      unless close() may swallow that one.
    */
    method HandleError(exc: Exc, reraise: bool, closing: bool, swallowable: bool, classified: bool, fault: Fault)
      returns (raises: bool)
      requires Registered() && Live(Phase()) && Called(Phase())
      modifies owner, owner.issued
      ensures Registered() && owner.issued == old(owner.issued) && owner.computes == old(owner.computes)
      ensures owner.model == FailCompute(old(owner.model), index, exc, classified, fault)
      ensures raises == if classified && NotifyOk(old(owner.model), fault) then reraise else !(closing && swallowable)
    {
      hide Inv;
      FailKeepsInv(owner.model, index, exc, classified, fault);
      var ok := alvc_target.SetError(exc, classified, fault);
      owner.model := FailCompute(owner.model, index, exc, classified, fault);
      return if ok then reraise else !(closing && swallowable);
    }

    /** The end of a send or throw that returned: publish, then forget everything. */
    method EndWithResult(res: Val, fault: Fault) returns (r: Sent)
      requires Registered() && (Phase().Sending? || Phase().Throwing?)
      modifies this, owner, owner.issued
      ensures Registered() && alvc_target == null
      ensures owner.model == FinishCompute(old(owner.model), index, res, fault)
      ensures r == if NotifyOk(old(owner.model), fault) then Return(res) else Raise
    {
      var ok := PublishResult(res, fault);
      Clear();
      return if ok then Return(res) else Raise;
    }

    /** The end of a send or throw that raised: deliver the error, forget everything, re-raise. */
    method EndWithError(exc: Exc, classified: bool, fault: Fault) returns (r: Sent)
      requires Registered() && Live(Phase()) && Called(Phase())
      modifies this, owner, owner.issued
      ensures Registered() && alvc_target == null && r == Raise
      ensures owner.model == FailCompute(old(owner.model), index, exc, classified, fault)
    {
      var _ := HandleError(exc, true, false, false, classified, fault);
      Clear();
      return Raise;
    }

    /** The coroutine yielded: the compute is suspended again. */
    ghost method Suspend(reply: Reply, classified: bool, fault: Fault)
      requires Registered() && Answers(Phase(), reply) && reply.Yielded?
      modifies owner`model
      ensures Registered() && owner.model == Step(old(owner.model), Resume(index, reply, classified, fault))
    {
      ResumeKeepsInv(owner.model, index, reply, classified, fault);
      owner.model := Step(owner.model, Resume(index, reply, classified, fault));
    }

    /** send(), up to the call into the callable (first step) or into the coroutine. */
    method BeginSend() returns (r: Sent)
      requires Registered() && Enabled(owner.model, Begin(index, Send))
      modifies owner`model
      ensures Registered() && owner.model == Step(old(owner.model), Begin(index, Send))
      ensures r == if old(Phase()).Fresh? then InCallable else InCoroutine
    {
      BeginKeepsInv(owner.model, index, Send);
      LiveIsLast(owner.model, index);
      if alvc_coroobj {
        r := InCoroutine;
      } else {
        assert alvc_target.alv_args;   // PyTuple_GET_SIZE(alv_args) is safe
        r := InCallable;
      }
      owner.model := Step(owner.model, Begin(index, Send));
    }

    /** The callable came back with an awaitable, or raised. */
    method CallReturned(reply: Reply, classified: bool, fault: Fault) returns (r: Sent)
      requires Registered() && Phase().Calling? && Answers(Phase(), reply)
      modifies this, owner, owner.issued
      ensures Registered() && owner.model == Step(old(owner.model), Resume(index, reply, classified, fault))
      ensures r == if reply.Ready? then InCoroutine else Raise
    {
      hide Inv, FanOut, SetError, LazyValueProtocol.SetResult;
      if reply.Ready? {
        ResumeKeepsInv(owner.model, index, reply, classified, fault);
        alvc_coroobj := true;
        owner.model := Step(owner.model, Resume(index, reply, classified, fault));
        return InCoroutine;
      }
      r := EndWithError(reply.e, classified, fault);
    }

    /** The coroutine came back from send. */
    method SendReturned(reply: Reply, classified: bool, fault: Fault) returns (r: Sent)
      requires Registered() && Phase().Sending? && Answers(Phase(), reply)
      modifies this, owner, owner.issued
      ensures Registered() && owner.model == Step(old(owner.model), Resume(index, reply, classified, fault))
      ensures r == match reply
        case Yielded => Next
        case Value(v) => if NotifyOk(old(owner.model), fault) then Return(v) else Raise
        case _ => Raise
      ensures !r.Next? ==> alvc_target == null
    {
      hide Inv, FanOut, SetError, LazyValueProtocol.SetResult;
      match reply {
        case Value(v) =>
          r := EndWithResult(v, fault);
        case Yielded =>
          Suspend(reply, classified, fault);
          return Next;
        case Error(e) =>
          r := EndWithError(e, classified, fault);
      }
    }

    /** close(): nothing happens to a compute that was never started. */
    method BeginClose() returns (r: Sent)
      requires Registered() && Enabled(owner.model, Begin(index, Close))
      modifies owner`model
      ensures Registered() && owner.model == Step(old(owner.model), Begin(index, Close))
      ensures r == if old(Phase()).Fresh? then Quiet else InCoroutine
    {
      BeginKeepsInv(owner.model, index, Close);
      r := if alvc_coroobj then InCoroutine else Quiet;
      owner.model := Step(owner.model, Begin(index, Close));
    }

    /** The sub-iterator closed, or raised while closing. On a quiet end the target is kept. */
    method CloseReturned(reply: Reply, swallowable: bool, classified: bool, fault: Fault) returns (r: Sent)
      requires Registered() && Phase().Closing? && Answers(Phase(), reply)
      modifies this, owner, owner.issued
      ensures Registered() && owner.model == Step(old(owner.model), Resume(index, reply, classified, fault))
      ensures r == if classified && NotifyOk(old(owner.model), fault)
        then (if reply.Error? then Raise else Quiet) else if swallowable then Quiet else Raise
      ensures !alvc_coroobj && alvc_target == if r.Raise? then null else owner
    {
      hide Inv, FanOut, SetError, LazyValueProtocol.SetResult;
      ClearCoroutine();
      var exc := if reply.Error? then reply.e else GENERATOR_EXIT;
      var raises := HandleError(exc, reply.Error?, true, swallowable, classified, fault);
      if raises {
        Clear();
        return Raise;
      }
      return Quiet;
    }

    /** throw(): a compute never started just raises and forgets its target; the value is not told. */
    method BeginThrow(exc: Exc, isGeneratorExit: bool) returns (r: Sent)
      requires Registered() && Enabled(owner.model, Begin(index, Throw(exc, isGeneratorExit)))
      modifies this, owner`model
      ensures Registered() && owner.model == Step(old(owner.model), Begin(index, Throw(exc, isGeneratorExit)))
      ensures r == if old(Phase()).Fresh? then Raise else InCoroutine
      ensures r.Raise? ==> alvc_target == null
    {
      BeginKeepsInv(owner.model, index, Throw(exc, isGeneratorExit));
      owner.model := Step(owner.model, Begin(index, Throw(exc, isGeneratorExit)));
      if !alvc_coroobj {
        Clear();
        return Raise;
      }
      return InCoroutine;
    }

    /** throw(GeneratorExit): the sub-iterator closed, or raised while closing. */
    method ThrowCloseReturned(thrown: Exc, reply: Reply, classified: bool, fault: Fault) returns (r: Sent)
      requires Registered() && Phase() == ThrowClosing(thrown) && Answers(Phase(), reply)
      modifies this, owner, owner.issued
      ensures Registered() && owner.model == Step(old(owner.model), Resume(index, reply, classified, fault))
      ensures r == Raise && alvc_target == null
    {
      hide Inv, FanOut, SetError, LazyValueProtocol.SetResult;
      ClearCoroutine();
      r := EndWithError(if reply.Error? then reply.e else thrown, classified, fault);
    }

    /** The coroutine came back from throw; one that has no throw method ends with None. */
    method ThrowReturned(reply: Reply, classified: bool, fault: Fault) returns (r: Sent)
      requires Registered() && Phase().Throwing? && Answers(Phase(), reply)
      modifies this, owner, owner.issued
      ensures Registered() && owner.model == Step(old(owner.model), Resume(index, reply, classified, fault))
      ensures r == match reply
        case Yielded => Next
        case Value(v) => if NotifyOk(old(owner.model), fault) then Return(v) else Raise
        case NoThrowMethod => if NotifyOk(old(owner.model), fault) then Return(NONE) else Raise
        case _ => Raise
      ensures !r.Next? ==> alvc_target == null
    {
      hide Inv, FanOut, SetError, LazyValueProtocol.SetResult;
      match reply {
        case Yielded =>
          Suspend(reply, classified, fault);
          return Next;
        case Error(e) =>
          r := EndWithError(e, classified, fault);
        case Value(v) =>
          r := EndWithResult(v, fault);
        case NoThrowMethod =>
          r := EndWithResult(NONE, fault);
      }
    }

    /** The last reference to an unfinished compute goes away: the value is not told. */
    method Dealloc()
      requires Registered() && Enabled(owner.model, LazyValueProtocol.Drop(index))
      modifies this, owner`model
      ensures Registered() && owner.model == Step(old(owner.model), LazyValueProtocol.Drop(index))
      ensures alvc_target == null
    {
      StepKeepsInv(owner.model, LazyValueProtocol.Drop(index));
      owner.model := Step(owner.model, LazyValueProtocol.Drop(index));
      Clear();
    }
  }

  /** Where a driven compute is after one of its methods came back. */
  datatype Sent = InCallable | InCoroutine | Next | Return(v: Val) | Raise | Quiet
}
