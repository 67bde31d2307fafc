/**
  What the AsyncLazyValue protocol guarantees over whole runs: single flight, agreement,
  no lost waiter in clean runs (and exactly which runs leave the value RUNNING for ever),
  and at-most-once fan-out even when notifications fail part-way.
*/
module LazyValueTheorems {
  import opened Basics
  import opened LazyValueProtocol

  // ----- single flight

  ghost predicate OneFlightAtATime(s: Sys) {
    && (forall c, d :: 0 <= c < |s.comps| && 0 <= d < |s.comps| && Live(s.comps[c]) && Live(s.comps[d]) ==> c == d)
    && (forall c :: 0 <= c < |s.comps| && Live(s.comps[c]) ==> s.state.Running?)
    && (forall d :: 0 <= d < |s.comps| - 1 ==> s.comps[d].Ended? && s.comps[d].how.Failed?)
  }

  ghost predicate CalledOncePerCompute(s: Sys) {
    && (forall i, j :: 0 <= i < j < |s.calls| ==> s.calls[i] < s.calls[j])
    && (forall c :: 0 <= c < |s.comps| ==> (c in s.calls <==> Called(s.comps[c])))
  }

  lemma CallsMatchComputes(s: Sys, c: nat)
    requires FlightsInOrder(s) && c < |s.comps|
    ensures c in s.calls <==> Called(s.comps[c])
  {
    if c < |s.calls| { assert s.calls[c] == c; }
  }

  /**
    At every reachable state at most one compute is unfinished, and then the value is
    RUNNING; every compute before the newest ended in an error that was delivered; the
    callable was called once by each compute that took a first step, in order of creation.
  */
  lemma SingleFlight(acts: seq<Action>)
    requires IsRun(acts)
    ensures OneFlightAtATime(Exec(acts)) && CalledOncePerCompute(Exec(acts))
  {
    RunsKeepInv(acts);
    var s := Exec(acts);
    OneLiveCompute(s);
    hide StateMatches, ListOk, FuturesOk, DeliveredOk;
    forall c | 0 <= c < |s.comps| ensures c in s.calls <==> Called(s.comps[c]) {
      CallsMatchComputes(s, c);
    }
  }

  lemma OneLiveCompute(s: Sys)
    requires Inv(s)
    ensures OneFlightAtATime(s)
  {
    hide ListOk, FuturesOk, DeliveredOk;
    forall c | 0 <= c < |s.comps| && Live(s.comps[c])
      ensures c == |s.comps| - 1 && s.state.Running?
    {
      LiveIsLast(s, c);
    }
  }

  /**
    The moment a compute takes its first step: the arguments are still there, no other
    compute is unfinished, and every earlier flight ended in a delivered error.
  */
  lemma FirstStepFindsArgs(acts: seq<Action>, c: nat)
    requires IsRun(acts) && Enabled(Exec(acts), Begin(c, Send)) && Exec(acts).comps[c].Fresh?
    ensures var s := Exec(acts);
      && s.args && s.state.Running? && s.result.None? && c !in s.calls
      && (forall d :: 0 <= d < |s.comps| && d != c ==> s.comps[d].Ended? && s.comps[d].how.Failed?)
  {
    RunsKeepInv(acts);
    LiveIsLast(Exec(acts), c);
  }

  // ----- what no action can undo

  /** DONE is never left, the result never changes, ended computes stay ended, finished futures stay as they are. */
  ghost predicate Extends(s: Sys, t: Sys) {
    && (s.state.Done? ==> t.state.Done? && t.result == s.result)
    && |s.comps| <= |t.comps|
    && (forall c :: 0 <= c < |s.comps| && s.comps[c].Ended? ==> t.comps[c] == s.comps[c])
    && |s.futs| <= |t.futs|
    && (forall f :: 0 <= f < |s.futs| ==>
          && t.futs[f].flight == s.futs[f].flight
          && s.futs[f].hits <= t.futs[f].hits
          && (!s.futs[f].outcome.Pending? ==> t.futs[f] == s.futs[f]))
    && s.calls <= t.calls
    && s.delivered <= t.delivered
  }

  lemma BeginExtends(s: Sys, c: nat, drive: Drive)
    requires Inv(s) && Enabled(s, Begin(c, drive))
    ensures Extends(s, BeginStep(s, c, drive))
  {
    LiveIsLast(s, c);
  }

  lemma ResumeExtends(s: Sys, c: nat, reply: Reply, classified: bool, fault: Fault)
    requires Inv(s) && Enabled(s, Resume(c, reply, classified, fault))
    ensures Extends(s, ResumeStep(s, c, reply, classified, fault))
  {
    LiveIsLast(s, c);
  }

  lemma StepExtends(s: Sys, a: Action)
    requires Inv(s) && Enabled(s, a)
    ensures Extends(s, Step(s, a))
  {
    match a
    case Begin(c, drive) => BeginExtends(s, c, drive);
    case Resume(c, reply, classified, fault) => ResumeExtends(s, c, reply, classified, fault);
    case Drop(c) => LiveIsLast(s, c);
    case _ =>
  }

  lemma {:induction false} RunExtends(acts: seq<Action>, more: seq<Action>)
    requires IsRun(acts + more)
    ensures IsRun(acts) && Extends(Exec(acts), Exec(acts + more))
    decreases |more|
  {
    if more == [] {
      assert acts + more == acts;
    } else {
      var pre := more[..|more| - 1];
      assert (acts + more)[..|acts + more| - 1] == acts + pre;
      RunExtends(acts, pre);
      RunsKeepInv(acts + pre);
      StepExtends(Exec(acts + pre), more[|more| - 1]);
    }
  }

  // ----- agreement

  /** Every value handed out in s, by whatever route, is the result in t. */
  ghost predicate Agrees(s: Sys, t: Sys) {
    && (s.result.Some? ==> s.state.Done? && t.state.Done? && t.result == s.result)
    && (forall i :: 0 <= i < |s.delivered| ==> t.result == Some(s.delivered[i]))
    && (forall f :: 0 <= f < |s.futs| && s.futs[f].hits > 0 && s.futs[f].outcome.Finished? ==>
          t.result == Some(s.futs[f].outcome.v))
  }

  lemma LaterStateAgrees(s: Sys, t: Sys)
    requires Inv(s) && Extends(s, t)
    ensures Agrees(s, t)
  {
    forall f | 0 <= f < |s.futs| && s.futs[f].hits > 0 && s.futs[f].outcome.Finished?
      ensures t.result == Some(s.futs[f].outcome.v)
    {
      assert FutureOk(s, f);
      assert s.comps[s.futs[f].flight].how.Returned? || s.comps[s.futs[f].flight].how.ReturnFault?;
    }
  }

  /**
    Everything delivered as a value, at any time and by any route, is the one result:
    returns of a compute, StopIteration from throw(), sends to the value itself, fanned-out
    futures and futures made by ensure_future once DONE. And once there is a result, no
    extension of the run ever leaves DONE or changes it.
  */
  lemma Agreement(acts: seq<Action>, more: seq<Action>)
    requires IsRun(acts + more)
    ensures IsRun(acts) && Agrees(Exec(acts), Exec(acts + more))
  {
    RunExtends(acts, more);
    RunsKeepInv(acts);
    LaterStateAgrees(Exec(acts), Exec(acts + more));
  }

  // ----- fan-out

  /**
    Over the whole run each future is completed by the value at most once, what is completed
    never changes again, and all futures of one flight that the value completed got the
    outcome that flight announced.
  */
  lemma FanOutAtMostOnce(acts: seq<Action>, more: seq<Action>, f: nat, g: nat)
    requires IsRun(acts + more) && IsRun(acts) && f < |Exec(acts).futs| && g < |Exec(acts).futs|
    ensures var s, t := Exec(acts), Exec(acts + more);
      && |s.futs| <= |t.futs|
      && t.futs[f].hits <= 1
      && (!s.futs[f].outcome.Pending? ==> t.futs[f] == s.futs[f])
      && (s.futs[f].flight == s.futs[g].flight && s.futs[f].hits == 1 && s.futs[g].hits == 1 ==>
            s.futs[f].outcome == s.futs[g].outcome)
      && (s.futs[f].hits == 1 ==>
            s.futs[f].flight < |s.comps| && s.comps[s.futs[f].flight].Ended?
            && Announced(s.comps[s.futs[f].flight].how) == Some(s.futs[f].outcome))
  {
    RunExtends(acts, more);
    RunsKeepInv(acts);
    RunsKeepInv(acts + more);
    assert FutureOk(Exec(acts), f) && FutureOk(Exec(acts), g) && FutureOk(Exec(acts + more), f);
  }

  /** Somebody other than the value completed or cancelled the future in the course of the run. */
  ghost predicate CompletedElsewhere(acts: seq<Action>, f: nat) {
    exists k :: 0 <= k < |acts| && acts[k].Complete? && acts[k].f == f
  }

  lemma UntouchedStep(s: Sys, a: Action, f: nat)
    requires Enabled(s, a) && f < |Step(s, a).futs|
    requires !Step(s, a).futs[f].outcome.Pending? && Step(s, a).futs[f].hits == 0
    ensures (a.Complete? && a.f == f) || (f < |s.futs| && s.futs[f] == Step(s, a).futs[f])
  {
    match a
    case Resume(c, reply, classified, fault) => UntouchedResume(s, c, reply, classified, fault, f);
    case _ =>
  }

  lemma UntouchedResume(s: Sys, c: nat, reply: Reply, classified: bool, fault: Fault, f: nat)
    requires Enabled(s, Resume(c, reply, classified, fault)) && f < |s.futs|
    ensures |ResumeStep(s, c, reply, classified, fault).futs| == |s.futs|
    ensures var fut := ResumeStep(s, c, reply, classified, fault).futs[f]; fut == s.futs[f] || fut.hits > 0
  {
  }

  /** Every completed future was completed by the value, or by a Complete action of somebody else. */
  lemma {:induction false} CompletionHasACause(acts: seq<Action>, f: nat)
    requires IsRun(acts) && f < |Exec(acts).futs| && !Exec(acts).futs[f].outcome.Pending?
    ensures Exec(acts).futs[f].hits > 0 || CompletedElsewhere(acts, f)
    decreases |acts|
  {
    if Exec(acts).futs[f].hits == 0 {
      var pre, a := acts[..|acts| - 1], acts[|acts| - 1];
      UntouchedStep(Exec(pre), a, f);
      if a.Complete? && a.f == f {
        assert acts[|acts| - 1].Complete?;
      } else {
        CompletionHasACause(pre, f);
        var k :| 0 <= k < |pre| && pre[k].Complete? && pre[k].f == f;
        assert acts[k] == pre[k];
      }
    }
  }

  /** What a compute that answered like this gives the waiters. */
  function OutcomeOf(p: Phase, reply: Reply): Outcome
    requires Answers(p, reply) && !reply.Ready? && !reply.Yielded?
  {
    match reply
    case Value(v) => Finished(v)
    case NoThrowMethod => Finished(NONE)
    case Error(e) => if e.isCancelledError then Cancelled else Raised(e)
    case Closed => if p.ThrowClosing? && p.thrown.isCancelledError then Cancelled
                   else if p.ThrowClosing? then Raised(p.thrown) else Raised(GENERATOR_EXIT)
  }

  predicate EndsFlight(reply: Reply) { !reply.Ready? && !reply.Yielded? }

  predicate Returns(reply: Reply) { reply.Value? || reply.NoThrowMethod? }

  /**
    Futures listed before position i are done, those after i are as before; the one at i is
    completed if that landed.
  */
  ghost predicate StoppedAt(s: Sys, t: Sys, fan: Outcome, i: nat, landed: bool)
    requires s.list.Some? && i < |s.list.value| && ListOk(s)
  {
    var list := s.list.value;
    && t.list == s.list && |t.futs| == |s.futs|
    && (forall j :: 0 <= j < i ==> !t.futs[list[j]].outcome.Pending?)
    && (forall j :: i < j < |list| ==> t.futs[list[j]] == s.futs[list[j]])
    && (t.futs[list[i]] == s.futs[list[i]] <==> !landed || !s.futs[list[i]].outcome.Pending?)
    && (forall f :: 0 <= f < |s.futs| && t.futs[f] != s.futs[f] ==>
          s.futs[f].outcome.Pending? && f in list && t.futs[f] == Fut(fan, s.futs[f].flight, s.futs[f].hits + 1))
  }

  /**
    In any run, when a flight ends and telling the waiters fails at position i: the waiters
    before i were told the outcome of the flight, those after i were not, and the list is
    kept. A result stays published, without releasing the arguments; after an error the
    value is still RUNNING, for ever.
  */
  lemma FaultStopsNotification(acts: seq<Action>, c: nat, reply: Reply, i: nat, landed: bool)
    requires IsRun(acts) && EndsFlight(reply) && Enabled(Exec(acts), Resume(c, reply, true, At(i, landed)))
    requires Exec(acts).list.Some? && i < |Exec(acts).list.value|
    ensures ListOk(Exec(acts))
    ensures var s, t := Exec(acts), Step(Exec(acts), Resume(c, reply, true, At(i, landed)));
      && StoppedAt(s, t, OutcomeOf(s.comps[c], reply), i, landed)
      && t.args && t.delivered == s.delivered
      && if Returns(reply)
         then t.state.Done? && t.result.Some? && Finished(t.result.value) == OutcomeOf(s.comps[c], reply)
         else t.state.Running? && t.result.None? && LastStuck(t)
  {
    hide FanOut, FlightsInOrder, FuturesOk, DeliveredOk;
    RunsKeepInv(acts);
    LiveIsLast(Exec(acts), c);
    FanOutStops(Exec(acts), OutcomeOf(Exec(acts).comps[c], reply), i, landed);
  }

  /** A failure past the end of the list never happens: the step is the one without a failure. */
  lemma FaultBeyondList(s: Sys, c: nat, reply: Reply, classified: bool, i: nat, landed: bool)
    requires Inv(s) && Enabled(s, Resume(c, reply, classified, NoFault)) && (s.list.Some? ==> i >= |s.list.value|)
    ensures Step(s, Resume(c, reply, classified, At(i, landed))) == Step(s, Resume(c, reply, classified, NoFault))
  {
    forall fan ensures FanOut(s.futs, s.list, fan, At(i, landed)) == FanOut(s.futs, s.list, fan, NoFault) {
      forall id | 0 <= id < |s.futs| ensures Reached(s.list, At(i, landed), id) <==> Reached(s.list, NoFault, id) {
        if s.list.Some? && id in s.list.value {
          var j :| 0 <= j < |s.list.value| && s.list.value[j] == id;
          assert Hit(At(i, landed), j) && Hit(NoFault, j);
        }
      }
    }
  }

  lemma FanOutStops(s: Sys, fan: Outcome, i: nat, landed: bool)
    requires ListOk(s) && s.list.Some? && i < |s.list.value| && !fan.Pending?
    ensures StoppedAt(s, s.(futs := FanOut(s.futs, s.list, fan, At(i, landed))), fan, i, landed)
  {
    var list := s.list.value;
    forall j | 0 <= j < |list| ensures Reached(s.list, At(i, landed), list[j]) <==> Hit(At(i, landed), j) { }
  }

  /** Every future that was pending now has this outcome, by one completion; all others are as they were. */
  ghost predicate AllWaitersGot(s: Sys, t: Sys, fan: Outcome) {
    && |t.futs| == |s.futs|
    && forall f :: 0 <= f < |s.futs| ==>
         t.futs[f] == if s.futs[f].outcome.Pending? then Fut(fan, s.futs[f].flight, s.futs[f].hits + 1) else s.futs[f]
  }

  lemma NotifyReachesAll(s: Sys, fan: Outcome, fault: Fault)
    requires Inv(s) && NotifyOk(s, fault)
    ensures AllWaitersGot(s, s.(futs := FanOut(s.futs, s.list, fan, fault)), fan)
  {
    forall f | 0 <= f < |s.futs| && s.futs[f].outcome.Pending? ensures Reached(s.list, fault, f) {
      assert FutureOk(s, f);
      var j :| 0 <= j < |s.list.value| && s.list.value[j] == f;
      assert Hit(fault, j);
    }
  }

  /**
    In any run, when a flight ends and the notification succeeds, every future ever handed out
    and still pending gets its outcome: the result returned, by send or by throw (None if
    there is no throw method); or the error raised, thrown or caused by closing, as a
    cancellation if it is a CancelledError. After a result the value is DONE and the
    arguments are released; after an error it can be computed again.
  */
  lemma FlightEndReachesEveryWaiter(acts: seq<Action>, c: nat, reply: Reply, fault: Fault)
    requires IsRun(acts) && EndsFlight(reply) && Enabled(Exec(acts), Resume(c, reply, true, fault)) &&
      NotifyOk(Exec(acts), fault)
    ensures var s, t := Exec(acts), Step(Exec(acts), Resume(c, reply, true, fault));
      && AllWaitersGot(s, t, OutcomeOf(s.comps[c], reply))
      && if Returns(reply)
         then t.state.Done? && t.result.Some? && Finished(t.result.value) == OutcomeOf(s.comps[c], reply) && !t.args
         else t.state.NotStarted? && t.list.None? && t.result.None? && t.args
  {
    RunsKeepInv(acts);
    LiveIsLast(Exec(acts), c);
    NotifyReachesAll(Exec(acts), OutcomeOf(Exec(acts).comps[c], reply), fault);
  }

  // ----- no lost waiter

  /** The action ends the newest compute without the value being told. */
  ghost predicate Abandons(s: Sys, a: Action)
    requires Enabled(s, a)
  {
    match a
    case Begin(c, drive) => s.comps[c].Fresh? && !drive.Send?
    case Drop(_) => true
    case Resume(_, reply, classified, fault) => (reply.Error? || reply.Closed?) && !(classified && NotifyOk(s, fault))
    case _ => false
  }

  /** A notification of a result failed part-way. */
  ghost predicate LosesWaiters(s: Sys, a: Action)
    requires Enabled(s, a)
  {
    a.Resume? && (a.reply.Value? || a.reply.NoThrowMethod?) && !NotifyOk(s, a.fault)
  }

  ghost predicate HasAbandoned(acts: seq<Action>)
    requires IsRun(acts)
    decreases |acts|
  {
    acts != [] && (HasAbandoned(acts[..|acts| - 1]) || Abandons(Exec(acts[..|acts| - 1]), acts[|acts| - 1]))
  }

  /**
    A clean run: every compute takes its first step before any throw or close, none is
    dropped unfinished, and notifications succeed.
  */
  ghost predicate Clean(acts: seq<Action>)
    requires IsRun(acts)
    decreases |acts|
  {
    acts == [] ||
    (&& Clean(acts[..|acts| - 1])
     && !Abandons(Exec(acts[..|acts| - 1]), acts[|acts| - 1])
     && !LosesWaiters(Exec(acts[..|acts| - 1]), acts[|acts| - 1]))
  }

  ghost predicate AllFinished(s: Sys) {
    forall c :: 0 <= c < |s.comps| ==> s.comps[c].Ended?
  }

  ghost predicate LastStuck(s: Sys) {
    s.comps != [] && Stuck(s.comps[|s.comps| - 1])
  }

  ghost predicate StuckLike(s: Sys, t: Sys) {
    LastStuck(t) && t.state.Running? && t.result.None? && t.comps == s.comps && t.calls == s.calls
  }

  /** Once the newest compute is stuck, the value is RUNNING for ever: no action creates another compute. */
  lemma StuckStays(s: Sys, a: Action)
    requires Inv(s) && Enabled(s, a) && LastStuck(s)
    ensures StuckLike(s, Step(s, a))
  {
    match a
    case Begin(c, _) => LiveIsLast(s, c);
    case Resume(c, _, _, _) => LiveIsLast(s, c);
    case Drop(c) => LiveIsLast(s, c);
    case _ =>
  }

  lemma StuckArises(s: Sys, a: Action)
    requires Inv(s) && Enabled(s, a) && !LastStuck(s)
    ensures LastStuck(Step(s, a)) <==> Abandons(s, a)
  {
    match a
    case Begin(c, _) => LiveIsLast(s, c);
    case Resume(c, _, _, _) => LiveIsLast(s, c);
    case Drop(c) => LiveIsLast(s, c);
    case _ =>
  }

  lemma {:induction false} StuckIffAbandoned(acts: seq<Action>)
    requires IsRun(acts)
    ensures HasAbandoned(acts) <==> LastStuck(Exec(acts))
    decreases |acts|
  {
    if acts != [] {
      var pre, a := acts[..|acts| - 1], acts[|acts| - 1];
      StuckIffAbandoned(pre);
      RunsKeepInv(pre);
      if LastStuck(Exec(pre)) { StuckStays(Exec(pre), a); } else { StuckArises(Exec(pre), a); }
    }
  }

  lemma StuckMeansRunningAlone(s: Sys)
    requires Inv(s)
    ensures (AllFinished(s) && s.state.Running?) <==> LastStuck(s)
  {
  }

  /**
    Exactly which runs leave the value RUNNING with nobody computing it: those in which some
    compute was closed or thrown into before its first step, was dropped unfinished, or whose
    error could not be delivered.
  */
  lemma RunningWithoutComputeIff(acts: seq<Action>)
    requires IsRun(acts)
    ensures var s := Exec(acts); (AllFinished(s) && s.state.Running?) <==> HasAbandoned(acts)
  {
    StuckIffAbandoned(acts);
    RunsKeepInv(acts);
    StuckMeansRunningAlone(Exec(acts));
  }

  /** ... and such a value never recovers, whatever happens next: no new compute, no call, no result. */
  lemma {:induction false} AbandonedForEver(acts: seq<Action>, more: seq<Action>)
    requires IsRun(acts + more) && IsRun(acts) && HasAbandoned(acts)
    ensures StuckLike(Exec(acts), Exec(acts + more))
    decreases |more|
  {
    if more == [] {
      assert acts + more == acts;
      StuckIffAbandoned(acts);
      RunsKeepInv(acts);
    } else {
      var pre := more[..|more| - 1];
      assert (acts + more)[..|acts + more| - 1] == acts + pre;
      AbandonedForEver(acts, pre);
      RunsKeepInv(acts + pre);
      StuckStays(Exec(acts + pre), more[|more| - 1]);
    }
  }

  /** The newest compute is unfinished, returned, or failed with its error delivered. */
  ghost predicate LastClean(s: Sys) {
    s.comps != [] && s.comps[|s.comps| - 1].Ended? ==>
      s.comps[|s.comps| - 1].how.Returned? || s.comps[|s.comps| - 1].how.Failed?
  }

  /** A notification of a result failed part-way at some time. */
  ghost predicate HasLostWaiters(acts: seq<Action>)
    requires IsRun(acts)
    decreases |acts|
  {
    acts != [] && (HasLostWaiters(acts[..|acts| - 1]) || LosesWaiters(Exec(acts[..|acts| - 1]), acts[|acts| - 1]))
  }

  /** The newest flight returned, but telling the waiters failed part-way. */
  ghost predicate LastLostWaiters(s: Sys) {
    s.comps != [] && s.comps[|s.comps| - 1].Ended? && s.comps[|s.comps| - 1].how.ReturnFault?
  }

  lemma LostStays(s: Sys, a: Action)
    requires Inv(s) && Enabled(s, a)
    ensures LastLostWaiters(Step(s, a)) <==> LastLostWaiters(s) || LosesWaiters(s, a)
  {
    match a
    case Begin(c, _) => LiveIsLast(s, c);
    case Resume(c, _, _, _) => LiveIsLast(s, c);
    case Drop(c) => LiveIsLast(s, c);
    case _ =>
  }

  lemma {:induction false} LostIffNotificationFailed(acts: seq<Action>)
    requires IsRun(acts)
    ensures HasLostWaiters(acts) <==> LastLostWaiters(Exec(acts))
    decreases |acts|
  {
    if acts != [] {
      var pre, a := acts[..|acts| - 1], acts[|acts| - 1];
      LostIffNotificationFailed(pre);
      RunsKeepInv(pre);
      LostStays(Exec(pre), a);
    }
  }

  lemma {:induction false} CleanMeans(acts: seq<Action>)
    requires IsRun(acts)
    ensures Clean(acts) <==> !HasAbandoned(acts) && !HasLostWaiters(acts)
    decreases |acts|
  {
    if acts != [] { CleanMeans(acts[..|acts| - 1]); }
  }

  /** A run is clean exactly when its newest compute is unfinished, returned, or failed with its error delivered. */
  lemma CleanIff(acts: seq<Action>)
    requires IsRun(acts)
    ensures Clean(acts) <==> LastClean(Exec(acts))
  {
    CleanMeans(acts);
    StuckIffAbandoned(acts);
    LostIffNotificationFailed(acts);
    NeitherStuckNorLost(Exec(acts));
  }

  lemma NeitherStuckNorLost(s: Sys)
    ensures LastClean(s) <==> !LastStuck(s) && !LastLostWaiters(s)
  {
  }

  ghost predicate NobodyLost(s: Sys) {
    && (AllFinished(s) ==> !s.state.Running? && forall f :: 0 <= f < |s.futs| ==> !s.futs[f].outcome.Pending?)
    && (s.state.NotStarted? ==> s.list.None?)
    && (s.state.Done? ==> !s.args && (s.list.Some? ==> forall j :: 0 <= j < |s.list.value| ==>
          s.list.value[j] < |s.futs| && !s.futs[s.list.value[j]].outcome.Pending?))
  }

  lemma CleanStateLosesNobody(s: Sys)
    requires Inv(s) && LastClean(s)
    ensures NobodyLost(s)
  {
    forall f | 0 <= f < |s.futs| && (AllFinished(s) || s.state.Done?) ensures !s.futs[f].outcome.Pending? {
      assert FutureOk(s, f);
    }
  }

  /**
    No lost waiter: in a clean run, whenever no compute is unfinished the value is not
    RUNNING and no future it ever handed out is pending. NOT_STARTED means there is no
    futures list; DONE means every listed future is done and the arguments are released.
  */
  lemma NoLostWaiter(acts: seq<Action>)
    requires IsRun(acts) && Clean(acts)
    ensures NobodyLost(Exec(acts))
  {
    CleanIff(acts);
    RunsKeepInv(acts);
    CleanStateLosesNobody(Exec(acts));
  }

  /**
    Exactly once: in a clean run, when no compute is unfinished, every future the value handed
    out was completed by the value once, unless somebody else completed it first.
  */
  lemma DeliveredExactlyOnce(acts: seq<Action>, f: nat)
    requires IsRun(acts) && Clean(acts) && AllFinished(Exec(acts)) && f < |Exec(acts).futs|
    ensures Exec(acts).futs[f].hits == 1 || (Exec(acts).futs[f].hits == 0 && CompletedElsewhere(acts, f))
  {
    NoLostWaiter(acts);
    RunsKeepInv(acts);
    assert FutureOk(Exec(acts), f);
    CompletionHasACause(acts, f);
  }

  /**
    In any run: a future still pending when no compute is unfinished waits for the newest
    flight, and some compute was abandoned or the notification of a result failed in the run.
  */
  lemma PendingOnlyAfterFault(acts: seq<Action>, f: nat)
    requires IsRun(acts) && f < |Exec(acts).futs|
    requires AllFinished(Exec(acts)) && Exec(acts).futs[f].outcome.Pending?
    ensures WaitsInVain(Exec(acts), f) && (HasAbandoned(acts) || HasLostWaiters(acts))
  {
    StuckIffAbandoned(acts);
    LostIffNotificationFailed(acts);
    RunsKeepInv(acts);
    PendingWaitsForNewest(Exec(acts), f);
  }

  /** f is listed, waits for the newest flight, and is pending. */
  ghost predicate WaitsInVain(s: Sys, f: nat) {
    && f < |s.futs| && s.futs[f].outcome.Pending?
    && s.futs[f].flight == |s.comps| - 1
    && s.list.Some? && f in s.list.value
  }

  lemma PendingWaitsForNewest(s: Sys, f: nat)
    requires Inv(s) && AllFinished(s) && f < |s.futs| && s.futs[f].outcome.Pending?
    ensures WaitsInVain(s, f) && (LastStuck(s) || LastLostWaiters(s))
  {
    assert FutureOk(s, f);
  }

  // ----- waiters in vain

  /** Nobody is computing and nobody ever will again: the value is RUNNING without a compute, or DONE. */
  ghost predicate Settled(s: Sys) {
    AllFinished(s) && !s.state.NotStarted?
  }

  /** f was pending in s or has been handed out since then as a waiter, and the value never completed it. */
  ghost predicate NeverServed(s: Sys, t: Sys, f: nat) {
    && |s.futs| <= |t.futs| && f < |t.futs|
    && ((if f < |s.futs| then s.futs[f].outcome.Pending? else s.state.Running?) ==> t.futs[f].hits == 0)
  }

  lemma SettledStays(s: Sys, t: Sys, a: Action)
    requires Settled(s) && Settled(t) && s.state == t.state && Enabled(t, a)
    requires forall f :: 0 <= f < |t.futs| ==> NeverServed(s, t, f)
    requires |s.futs| <= |t.futs|
    ensures var u := Step(t, a);
      && Settled(u) && u.state == t.state && u.comps == t.comps && u.calls == t.calls && u.result == t.result
      && |s.futs| <= |u.futs| && forall f :: 0 <= f < |u.futs| ==> NeverServed(s, u, f)
  {
    forall f | 0 <= f < |Step(t, a).futs| ensures NeverServed(s, Step(t, a), f) {
      if f < |t.futs| { assert NeverServed(s, t, f); }
    }
  }

  lemma {:induction false} SettledForEver(acts: seq<Action>, more: seq<Action>)
    requires IsRun(acts + more) && IsRun(acts) && Settled(Exec(acts))
    ensures var s, t := Exec(acts), Exec(acts + more);
      && Settled(t) && t.state == s.state && t.comps == s.comps && t.calls == s.calls && t.result == s.result
      && |s.futs| <= |t.futs| && forall f :: 0 <= f < |t.futs| ==> NeverServed(s, t, f)
    decreases |more|
  {
    RunsKeepInv(acts);
    if more == [] {
      assert acts + more == acts;
      forall f | 0 <= f < |Exec(acts).futs| ensures NeverServed(Exec(acts), Exec(acts), f) {
        assert FutureOk(Exec(acts), f);
      }
    } else {
      var pre := more[..|more| - 1];
      assert (acts + more)[..|acts + more| - 1] == acts + pre;
      SettledForEver(acts, pre);
      SettledStays(Exec(acts), Exec(acts + pre), more[|more| - 1]);
    }
  }

  lemma {:induction false} CompletedElsewhereStays(acts: seq<Action>, f: nat)
    requires IsRun(acts) && CompletedElsewhere(acts, f)
    ensures f < |Exec(acts).futs| && !Exec(acts).futs[f].outcome.Pending?
    decreases |acts|
  {
    var k :| 0 <= k < |acts| && acts[k].Complete? && acts[k].f == f;
    var pre, a := acts[..|acts| - 1], acts[|acts| - 1];
    RunsKeepInv(pre);
    if k < |pre| {
      assert pre[k] == acts[k];
      CompletedElsewhereStays(pre, f);
      StepExtends(Exec(pre), a);
    }
  }

  /**
    Once nobody is computing and the value is RUNNING or DONE, a future that is pending, or is
    handed out as a waiter later on, is never completed by the value, whatever happens next.
    It stays pending exactly until somebody else completes it.
  */
  lemma WaitsForEver(acts: seq<Action>, more: seq<Action>, f: nat)
    requires IsRun(acts + more) && IsRun(acts) && Settled(Exec(acts)) && f < |Exec(acts + more).futs|
    requires if f < |Exec(acts).futs| then Exec(acts).futs[f].outcome.Pending? else Exec(acts).state.Running?
    ensures Exec(acts + more).futs[f].hits == 0
    ensures Exec(acts + more).futs[f].outcome.Pending? <==> !CompletedElsewhere(acts + more, f)
  {
    SettledForEver(acts, more);
    assert NeverServed(Exec(acts), Exec(acts + more), f);
    if CompletedElsewhere(acts + more, f) {
      CompletedElsewhereStays(acts + more, f);
    } else if !Exec(acts + more).futs[f].outcome.Pending? {
      CompletionHasACause(acts + more, f);
    }
  }

  /** Waiters of an abandoned flight, and all that join later, wait until somebody else completes them. */
  lemma AbandonedWaitersWait(acts: seq<Action>, more: seq<Action>, f: nat)
    requires IsRun(acts + more) && IsRun(acts) && HasAbandoned(acts) && f < |Exec(acts + more).futs|
    requires f < |Exec(acts).futs| ==> Exec(acts).futs[f].outcome.Pending?
    ensures Exec(acts + more).futs[f].hits == 0
    ensures Exec(acts + more).futs[f].outcome.Pending? <==> !CompletedElsewhere(acts + more, f)
  {
    RunningWithoutComputeIff(acts);
    WaitsForEver(acts, more, f);
  }

  lemma {:induction false} RunOf(pre: seq<Action>, a: Action)
    requires IsRun(pre) && Enabled(Exec(pre), a)
    ensures IsRun(pre + [a]) && Exec(pre + [a]) == Step(Exec(pre), a)
  {
    hide Enabled, Step;
    assert (pre + [a])[..|pre|] == pre && (pre + [a])[|pre|] == a;
  }

  /**
    Two awaits, then the compute is closed before its first step: the waiter is pending and the
    value RUNNING, with nobody computing.
  */
  lemma AbandonedRun() returns (acts: seq<Action>)
    ensures IsRun(acts) && HasAbandoned(acts)
    ensures var s := Exec(acts);
      s.state.Running? && AllFinished(s) && |s.futs| == 1 && s.futs[0].outcome.Pending?
  {
    acts := [];
    RunOf(acts, Await(AllocOk));  acts := acts + [Await(AllocOk)];
    RunOf(acts, Await(AllocOk));  acts := acts + [Await(AllocOk)];
    RunOf(acts, Begin(0, Close)); acts := acts + [Begin(0, Close)];
    RunningWithoutComputeIff(acts);
  }

  /** A flight returns and the first notification raises: the value is DONE and its waiter still pending. */
  lemma LostWaiterRun() returns (acts: seq<Action>)
    ensures IsRun(acts) && !HasAbandoned(acts) && HasLostWaiters(acts)
    ensures var s := Exec(acts);
      s.state.Done? && AllFinished(s) && |s.futs| == 1 && s.futs[0].outcome.Pending?
  {
    acts := [];
    RunOf(acts, Await(AllocOk));  acts := acts + [Await(AllocOk)];
    RunOf(acts, Await(AllocOk));  acts := acts + [Await(AllocOk)];
    RunOf(acts, Begin(0, Send));  acts := acts + [Begin(0, Send)];
    var ready := Resume(0, Ready, true, NoFault);
    RunOf(acts, ready);           acts := acts + [ready];
    var lost := Resume(0, Value(1), true, At(0, false));
    RunOf(acts, lost);            acts := acts + [lost];
    RunningWithoutComputeIff(acts);
    LostIffNotificationFailed(acts);
  }

  // ----- driving a compute, said of runs and replies alone

  predicate IsAbout(a: Action, c: nat) {
    match a
    case Begin(d, _) => d == c
    case Resume(d, _, _, _) => d == c
    case Drop(d) => d == c
    case _ => false
  }

  /** The last thing that happened to compute c, if anything did since it was created. */
  function LastAbout(acts: seq<Action>, c: nat): Option<Action> {
    if acts == [] then None
    else if IsAbout(acts[|acts| - 1], c) then Some(acts[|acts| - 1])
    else LastAbout(acts[..|acts| - 1], c)
  }

  /** The coroutine of c yielded and nobody has driven or dropped c since. */
  predicate Suspended(acts: seq<Action>, c: nat) {
    var a := LastAbout(acts, c);
    a.Some? && a.value.Resume? && a.value.reply.Yielded?
  }

  /** c has been created and nobody has driven or dropped it yet. */
  ghost predicate Unstarted(acts: seq<Action>, c: nat)
    requires IsRun(acts)
  {
    c < |Exec(acts).comps| && LastAbout(acts, c).None?
  }

  /** The run can go on with this reply to the call in progress on c. */
  ghost predicate MayReply(acts: seq<Action>, c: nat, reply: Reply) {
    IsRun(acts + [Resume(c, reply, true, NoFault)])
  }

  /** It cannot, however the reply is classified and notified. */
  ghost predicate NeverReplies(acts: seq<Action>, c: nat, reply: Reply) {
    forall classified, fault :: !IsRun(acts + [Resume(c, reply, classified, fault)])
  }

  lemma ExtendedRun(acts: seq<Action>, a: Action)
    requires IsRun(acts)
    ensures IsRun(acts + [a]) <==> Enabled(Exec(acts), a)
    ensures IsRun(acts + [a]) ==> Exec(acts + [a]) == Step(Exec(acts), a)
  {
    hide Enabled, Step;
    assert (acts + [a])[..|acts|] == acts && (acts + [a])[|acts|] == a;
  }

  lemma RepliesAre(acts: seq<Action>, c: nat, reply: Reply)
    requires IsRun(acts) && c < |Exec(acts).comps|
    ensures MayReply(acts, c, reply) <==> Answers(Exec(acts).comps[c], reply)
    ensures NeverReplies(acts, c, reply) <==> !Answers(Exec(acts).comps[c], reply)
  {
    ExtendedRun(acts, Resume(c, reply, true, NoFault));
    forall classified, fault
      ensures IsRun(acts + [Resume(c, reply, classified, fault)]) <==> Answers(Exec(acts).comps[c], reply)
    {
      ExtendedRun(acts, Resume(c, reply, classified, fault));
    }
  }

  /** What a step on another object leaves alone. */
  lemma OthersKeepPhase(s: Sys, a: Action, c: nat)
    requires Enabled(s, a) && !IsAbout(a, c)
    ensures |s.comps| <= |Step(s, a).comps|
    ensures c < |s.comps| ==> Step(s, a).comps[c] == s.comps[c]
    ensures |s.comps| <= c < |Step(s, a).comps| ==> Step(s, a).comps[c].Fresh?
  {
  }

  lemma {:induction false} HistoryDecidesPhase(acts: seq<Action>, c: nat)
    requires IsRun(acts)
    ensures LastAbout(acts, c).Some? ==> c < |Exec(acts).comps|
    ensures c < |Exec(acts).comps| ==>
      && (LastAbout(acts, c).None? ==> Exec(acts).comps[c].Fresh?)
      && (Suspended(acts, c) ==> Exec(acts).comps[c].Idle?)
    decreases |acts|
  {
    if acts != [] {
      var pre, a := acts[..|acts| - 1], acts[|acts| - 1];
      HistoryDecidesPhase(pre, c);
      if !IsAbout(a, c) { OthersKeepPhase(Exec(pre), a, c); }
    }
  }

  /** The values a reply of each kind carries do not matter here. */
  predicate SameKind(r: Reply, q: Reply) {
    match r
    case Ready => q.Ready?
    case Yielded => q.Yielded?
    case Value(_) => q.Value?
    case Error(_) => q.Error?
    case Closed => q.Closed?
    case NoThrowMethod => q.NoThrowMethod?
  }

  /** Exactly the replies of these kinds are possible. */
  ghost predicate AnsweredBy(acts: seq<Action>, c: nat, kinds: seq<Reply>) {
    forall r: Reply ::
      if exists i :: 0 <= i < |kinds| && SameKind(r, kinds[i]) then MayReply(acts, c, r) else NeverReplies(acts, c, r)
  }

  lemma AnsweredByPhase(acts: seq<Action>, c: nat, kinds: seq<Reply>)
    requires IsRun(acts) && c < |Exec(acts).comps|
    requires forall r: Reply :: Answers(Exec(acts).comps[c], r) <==>
      exists i :: 0 <= i < |kinds| && SameKind(r, kinds[i])
    ensures AnsweredBy(acts, c, kinds)
  {
    forall r: Reply
      ensures if exists i :: 0 <= i < |kinds| && SameKind(r, kinds[i]) then MayReply(acts, c, r)
              else NeverReplies(acts, c, r)
    {
      RepliesAre(acts, c, r);
    }
  }

  const SOME_VALUE := Value(0)
  const SOME_ERROR := Error(Exc(0, false))

  /** Which replies the call behind a drive of a suspended compute can get. */
  function KindsAfter(drive: Drive): seq<Reply> {
    match drive
    case Send => [Yielded, SOME_VALUE, SOME_ERROR]
    case Close => [Closed, SOME_ERROR]
    case Throw(_, isGeneratorExit) =>
      if isGeneratorExit then [Closed, SOME_ERROR] else [Yielded, SOME_VALUE, SOME_ERROR, NoThrowMethod]
  }

  /**
    A suspended compute can be driven in every way. A send or a throw reaches the coroutine,
    which may yield, return or raise, and be without a throw method; close() and
    throw(GeneratorExit) close it, so it may only be closed or raise.
  */
  lemma SuspendedCanBeDriven(acts: seq<Action>, c: nat, drive: Drive)
    requires IsRun(acts) && Suspended(acts, c)
    ensures var driven := acts + [Begin(c, drive)];
      IsRun(driven) && AnsweredBy(driven, c, KindsAfter(drive))
  {
    HistoryDecidesPhase(acts, c);
    var a := Begin(c, drive);
    ExtendedRun(acts, a);
    var driven := acts + [a];
    var p := Exec(driven).comps[c];
    var kinds := KindsAfter(drive);
    forall r: Reply ensures Answers(p, r) <==> exists i :: 0 <= i < |kinds| && SameKind(r, kinds[i]) {
      assert (exists i :: 0 <= i < |kinds| && SameKind(r, kinds[i])) <==>
        || SameKind(r, kinds[0]) || SameKind(r, kinds[1])
        || (|kinds| > 2 && SameKind(r, kinds[2])) || (|kinds| > 3 && SameKind(r, kinds[3]));
    }
    AnsweredByPhase(driven, c, kinds);
  }

  /** What the waiters get when a drive of a suspended compute ends the flight with this reply. */
  function DeliveredBy(drive: Drive, reply: Reply): Outcome
    requires EndsFlight(reply)
  {
    match reply
    case Value(v) => Finished(v)
    case NoThrowMethod => Finished(NONE)
    case Error(e) => if e.isCancelledError then Cancelled else Raised(e)
    case Closed =>
      match drive
      case Throw(e, _) => if e.isCancelledError then Cancelled else Raised(e)
      case _ => Raised(GENERATOR_EXIT)
  }

  /**
    Where a drive ends the flight: a value is published and given to every waiter; an error
    raised by the coroutine, the exception thrown to close it, or the GeneratorExit of close()
    is given to every waiter and the value can be computed again.
  */
  lemma DriveEndsFlight(acts: seq<Action>, c: nat, drive: Drive, reply: Reply)
    requires IsRun(acts) && Suspended(acts, c) && EndsFlight(reply)
    requires MayReply(acts + [Begin(c, drive)], c, reply)
    ensures var ended := acts + [Begin(c, drive)] + [Resume(c, reply, true, NoFault)];
      && IsRun(ended)
      && var s, t, outcome := Exec(acts), Exec(ended), DeliveredBy(drive, reply);
      && AllWaitersGot(s, t, outcome)
      && if Returns(reply)
         then && t.state.Done? && t.result.Some? && Finished(t.result.value) == outcome
              && t.delivered == s.delivered + [t.result.value]
         else t.state.NotStarted? && t.result.None? && t.args && t.delivered == s.delivered
  {
    SuspendedCanBeDriven(acts, c, drive);
    HistoryDecidesPhase(acts, c);
    var driven := acts + [Begin(c, drive)];
    ExtendedRun(acts, Begin(c, drive));
    RepliesAre(driven, c, reply);
    ExtendedRun(driven, Resume(c, reply, true, NoFault));
    FlightEndReachesEveryWaiter(driven, c, reply, NoFault);
  }

  /**
    A new compute: the first send calls the callable, which comes back ready or raises, and
    when it is ready the send goes on into the coroutine. close() and throw() end the compute
    there and then, and leave the value as it is.
  */
  lemma UnstartedCanBeDriven(acts: seq<Action>, c: nat, drive: Drive)
    requires IsRun(acts) && Unstarted(acts, c)
    ensures var driven := acts + [Begin(c, drive)];
      && IsRun(driven)
      && if drive.Send? then
           var ready := driven + [Resume(c, Ready, true, NoFault)];
           && AnsweredBy(driven, c, [Ready, SOME_ERROR])
           && IsRun(ready) && AnsweredBy(ready, c, [Yielded, SOME_VALUE, SOME_ERROR])
         else
           && AnsweredBy(driven, c, []) && (forall next :: !IsRun(driven + [Begin(c, next)]))
           && Exec(driven).state == Exec(acts).state && Exec(driven).futs == Exec(acts).futs
  {
    HistoryDecidesPhase(acts, c);
    var driven := acts + [Begin(c, drive)];
    ExtendedRun(acts, Begin(c, drive));
    if drive.Send? {
      KindsOfTwo(driven, c);
      RepliesAre(driven, c, Ready);
      var ready := driven + [Resume(c, Ready, true, NoFault)];
      ExtendedRun(driven, Resume(c, Ready, true, NoFault));
      KindsOfThree(ready, c);
    } else {
      AnsweredByPhase(driven, c, []);
      forall next ensures !IsRun(driven + [Begin(c, next)]) { ExtendedRun(driven, Begin(c, next)); }
    }
  }

  lemma KindsOfTwo(acts: seq<Action>, c: nat)
    requires IsRun(acts) && c < |Exec(acts).comps| && Exec(acts).comps[c].Calling?
    ensures AnsweredBy(acts, c, [Ready, SOME_ERROR])
  {
    var kinds := [Ready, SOME_ERROR];
    forall r: Reply ensures Answers(Exec(acts).comps[c], r) <==> exists i :: 0 <= i < |kinds| && SameKind(r, kinds[i]) {
      assert (exists i :: 0 <= i < |kinds| && SameKind(r, kinds[i])) <==>
        SameKind(r, kinds[0]) || SameKind(r, kinds[1]);
    }
    AnsweredByPhase(acts, c, kinds);
  }

  lemma KindsOfThree(acts: seq<Action>, c: nat)
    requires IsRun(acts) && c < |Exec(acts).comps| && Exec(acts).comps[c].Sending?
    ensures AnsweredBy(acts, c, [Yielded, SOME_VALUE, SOME_ERROR])
  {
    var kinds := [Yielded, SOME_VALUE, SOME_ERROR];
    forall r: Reply ensures Answers(Exec(acts).comps[c], r) <==> exists i :: 0 <= i < |kinds| && SameKind(r, kinds[i]) {
      assert (exists i :: 0 <= i < |kinds| && SameKind(r, kinds[i])) <==>
        SameKind(r, kinds[0]) || SameKind(r, kinds[1]) || SameKind(r, kinds[2]);
    }
    AnsweredByPhase(acts, c, kinds);
  }

  /**
    A compute that is new or suspended may be dropped. The value is not told, and the compute
    is not driven again.
  */
  lemma MayBeDropped(acts: seq<Action>, c: nat)
    requires IsRun(acts) && (Unstarted(acts, c) || Suspended(acts, c))
    ensures var dropped := acts + [Drop(c)];
      && IsRun(dropped)
      && Exec(dropped) == Exec(acts).(comps := Exec(dropped).comps)
      && (forall drive :: !IsRun(dropped + [Begin(c, drive)])) && AnsweredBy(dropped, c, [])
  {
    HistoryDecidesPhase(acts, c);
    ExtendedRun(acts, Drop(c));
    var dropped := acts + [Drop(c)];
    forall drive ensures !IsRun(dropped + [Begin(c, drive)]) { ExtendedRun(dropped, Begin(c, drive)); }
    AnsweredByPhase(dropped, c, []);
  }

  /** The run goes on with a, and a new compute that nobody has driven yet is what the caller gets. */
  ghost predicate StartsCompute(acts: seq<Action>, a: Action) {
    && IsRun(acts) && IsRun(acts + [a])
    && var s, t := Exec(acts), Exec(acts + [a]);
      && |t.comps| == |s.comps| + 1 && Unstarted(acts + [a], |s.comps|)
      && t == s.(state := Running, comps := t.comps)
  }

  /** The run goes on with a, and a new future with this outcome is what the caller gets. */
  ghost predicate IssuesFuture(acts: seq<Action>, a: Action, outcome: Outcome) {
    && IsRun(acts) && IsRun(acts + [a])
    && var s, t := Exec(acts), Exec(acts + [a]);
      && |t.futs| == |s.futs| + 1 && t.futs[..|s.futs|] == s.futs && t.futs[|s.futs|].outcome == outcome
      && t == s.(futs := t.futs, list := t.list)
      && (outcome.Pending? ==> t.list.Some? && |s.futs| in t.list.value)
  }

  ghost predicate ChangesNothing(acts: seq<Action>, a: Action) {
    IsRun(acts) && IsRun(acts + [a]) && Exec(acts + [a]) == Exec(acts)
  }

  /**
    await and ensure_future when nothing fails to be allocated: they start a compute if there
    is none, wait for it if there is one, and after that await gives the value itself and
    ensure_future a future that already holds the result.
  */
  lemma AwaitAndEnsureFuture(acts: seq<Action>)
    requires IsRun(acts)
    ensures match Exec(acts).state
      case NotStarted => StartsCompute(acts, Await(AllocOk)) && StartsCompute(acts, EnsureFuture(AllocOk))
      case Running => IssuesFuture(acts, Await(AllocOk), Pending) && IssuesFuture(acts, EnsureFuture(AllocOk), Pending)
      case Done =>
        && ChangesNothing(acts, Await(AllocOk))
        && Exec(acts).result.Some? && IssuesFuture(acts, EnsureFuture(AllocOk), Finished(Exec(acts).result.value))
  {
    RunsKeepInv(acts);
    ExtendedRun(acts, Await(AllocOk));
    ExtendedRun(acts, EnsureFuture(AllocOk));
    var s := Exec(acts);
    if s.state.NotStarted? {
      HistoryDecidesPhase(acts, |s.comps|);
      NobodyIsAbout(acts, Await(AllocOk), |s.comps|);
      NobodyIsAbout(acts, EnsureFuture(AllocOk), |s.comps|);
    }
  }

  lemma NobodyIsAbout(acts: seq<Action>, a: Action, c: nat)
    requires IsRun(acts) && c >= |Exec(acts).comps| && !IsAbout(a, c)
    ensures LastAbout(acts + [a], c).None?
  {
    HistoryDecidesPhase(acts, c);
    assert (acts + [a])[..|acts|] == acts;
  }

  /** A send to the value itself delivers the result once there is one, and nothing before. */
  lemma SendToValueDelivers(acts: seq<Action>)
    requires IsRun(acts)
    ensures IsRun(acts + [SendToValue])
    ensures var s, t := Exec(acts), Exec(acts + [SendToValue]);
      if s.state.Done? then s.result.Some? && t == s.(delivered := s.delivered + [s.result.value]) else t == s
  {
    RunsKeepInv(acts);
    ExtendedRun(acts, SendToValue);
  }

  /** After a yield the compute is suspended again, with nothing changed for the value and its waiters. */
  lemma YieldSuspends(acts: seq<Action>, c: nat, classified: bool, fault: Fault)
    requires IsRun(acts + [Resume(c, Yielded, classified, fault)])
    ensures IsRun(acts)
    ensures var s, yielded := Exec(acts), acts + [Resume(c, Yielded, classified, fault)];
      Suspended(yielded, c) && Exec(yielded) == s.(comps := Exec(yielded).comps)
  {
    var yielded := acts + [Resume(c, Yielded, classified, fault)];
    assert yielded[..|yielded| - 1] == acts;
  }
}
