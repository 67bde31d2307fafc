/**
  The lifecycle of _cinderx module objects and of the global pointer to the module state.
  Executing a module is cut into construction of its state, publication through the global
  pointer and completion, and may fail at any point; modules of the main interpreter and of
  subinterpreters are created, executed and freed in any interleaving.
*/
module ModuleLifecycle {
  import opened Basics

  datatype Phase =
    | Created                    // module object exists, its exec slot has not run
    | Constructed                // state constructed, not yet published
    | Published                  // the global pointer was set to it
    | Failed(published: bool)    // exec returned an error
    | Ready                      // fully_initialized
    | Freed

  datatype Mod = Mod(isMain: bool, phase: Phase, constructions: nat, destructions: nat)

  /** module_free ran jit::finalize for `freer` while the global pointer was `owner`, and then reset the pointer. */
  datatype Cleanup = Cleanup(freer: nat, owner: Option<nat>)

  datatype Sys = Sys(global: Option<nat>, mods: seq<Mod>, cleanups: seq<Cleanup>)

  const Init := Sys(None, [], [])

  datatype Action =
    | Create(isMain: bool)
    | Construct(m: nat)    // placement new; a subinterpreter's exec fails right after it
    | Refuse(m: nat)       // wrong interpreter version, before publication
    | Publish(m: nat)      // setModuleState
    | Abort(m: nat)        // any later failure
    | Complete(m: nat)     // fully_initialized = true
    | Free(m: nat)         // module_free

  predicate Enabled(s: Sys, a: Action) {
    if a.Create? then true else
    a.m < |s.mods| &&
    var phase := s.mods[a.m].phase;
    match a
    case Construct(_) => phase.Created?
    case Refuse(_) => phase.Constructed?
    case Publish(_) => phase.Constructed?
    case Abort(_) => phase.Published?
    case Complete(_) => phase.Published?
    case Free(_) => phase.Failed? || phase.Ready?   // m_free is not called before the state exists
  }

  function Move(s: Sys, m: nat, phase: Phase): Sys
    requires m < |s.mods|
  {
    s.(mods := s.mods[m := s.mods[m].(phase := phase)])
  }

  /**
    module_free: a module never fully initialized cleans up globally only if it owns the
    pointer; a full one always.
  */
  function FreeStep(s: Sys, m: nat): Sys
    requires m < |s.mods|
  {
    var mod := s.mods[m];
    var cleans := mod.phase.Ready? || s.global == Some(m);
    Sys(if cleans then None else s.global,
        s.mods[m := mod.(phase := Freed, destructions := mod.destructions + 1)],
        if cleans then s.cleanups + [Cleanup(m, s.global)] else s.cleanups)
  }

  function Step(s: Sys, a: Action): Sys
    requires Enabled(s, a)
  {
    match a
    case Create(isMain) => s.(mods := s.mods + [Mod(isMain, Created, 0, 0)])
    case Construct(m) =>
      var mod := s.mods[m];
      var phase := if mod.isMain then Constructed else Failed(false);
      s.(mods := s.mods[m := mod.(phase := phase, constructions := mod.constructions + 1)])
    case Refuse(m) => Move(s, m, Failed(false))
    case Publish(m) => Move(s, m, Published).(global := Some(m))
    case Abort(m) => Move(s, m, Failed(true))
    case Complete(m) => Move(s, m, Ready)
    case Free(m) => FreeStep(s, m)
  }

  ghost predicate IsRun(acts: seq<Action>)
    decreases |acts|, 0
  {
    acts == [] || (IsRun(acts[..|acts| - 1]) && Enabled(Exec(acts[..|acts| - 1]), acts[|acts| - 1]))
  }

  ghost function Exec(acts: seq<Action>): Sys
    requires IsRun(acts)
    decreases |acts|, 1
  {
    if acts == [] then Init else Step(Exec(acts[..|acts| - 1]), acts[|acts| - 1])
  }

  // ----- safety in every interleaving

  /** Published at some time and not freed since. */
  predicate Exposed(p: Phase) { p.Published? || p == Failed(true) || p.Ready? }

  predicate ModOk(mod: Mod) {
    && mod.constructions == (if mod.phase.Created? then 0 else 1)
    && mod.destructions == (if mod.phase.Freed? then 1 else 0)
    && (!mod.isMain ==> mod.phase.Created? || mod.phase == Failed(false) || mod.phase.Freed?)
  }

  ghost predicate Inv(s: Sys) {
    && (forall m :: 0 <= m < |s.mods| ==> ModOk(s.mods[m]))
    && (s.global.Some? ==> s.global.value < |s.mods| && Exposed(s.mods[s.global.value].phase))
  }

  lemma {:induction false} RunsKeepInv(acts: seq<Action>)
    requires IsRun(acts)
    ensures Inv(Exec(acts))
    decreases |acts|
  {
    if acts != [] {
      RunsKeepInv(acts[..|acts| - 1]);
    }
  }

  predicate PointerUsable(s: Sys) {
    s.global.None? ||
    (&& s.global.value < |s.mods|
     && s.mods[s.global.value].isMain
     && s.mods[s.global.value].constructions == 1
     && s.mods[s.global.value].destructions == 0)
  }

  /**
    In every interleaving the global pointer is null or points to a state of the main
    interpreter that was constructed and not destroyed; no state is constructed or destroyed
    twice, and none is destroyed that was not constructed.
  */
  lemma SingletonSafety(acts: seq<Action>)
    requires IsRun(acts)
    ensures PointerUsable(Exec(acts))
    ensures forall m :: 0 <= m < |Exec(acts).mods| ==>
      Exec(acts).mods[m].destructions <= Exec(acts).mods[m].constructions <= 1
  {
    RunsKeepInv(acts);
  }

  // ----- who cleans up

  /** Since m was published, another module was published or a fully initialized one was freed. */
  ghost predicate Superseded(acts: seq<Action>, m: nat)
    requires IsRun(acts)
    decreases |acts|
  {
    acts != [] &&
    var pre, a := acts[..|acts| - 1], acts[|acts| - 1];
    if a == Publish(m) then false else
    || Superseded(pre, m)
    || (a.Publish? && a.m != m)
    || (a.Free? && a.m != m && Exec(pre).mods[a.m].phase.Ready?)
  }

  /** Exactly when a published, unfreed module still owns the global pointer. */
  lemma {:induction false} OwnsIffNotSuperseded(acts: seq<Action>, m: nat)
    requires IsRun(acts) && m < |Exec(acts).mods| && Exposed(Exec(acts).mods[m].phase)
    ensures Exec(acts).global == Some(m) <==> !Superseded(acts, m)
    decreases |acts|
  {
    var pre, a := acts[..|acts| - 1], acts[|acts| - 1];
    RunsKeepInv(pre);
    if a != Publish(m) {
      OwnsIffNotSuperseded(pre, m);
    }
  }

  /** A cleanup done by the module that owns the pointer. */
  predicate ByOwner(c: Cleanup) { c.owner == Some(c.freer) }

  /**
    module_free runs the global cleanup exactly when the module owns the pointer or is fully
    initialized, and it cleans up after somebody else exactly when it is fully initialized
    and was superseded.
  */
  lemma CleanupExactly(acts: seq<Action>, m: nat)
    requires IsRun(acts) && Enabled(Exec(acts), Free(m))
    ensures var s := Exec(acts);
      var t := Step(s, Free(m));
      && t.mods[m].phase.Freed?
      && (s.mods[m].phase == Failed(false) ==> t.global == s.global && t.cleanups == s.cleanups)
      && (s.mods[m].phase == Failed(true) ==>
            if Superseded(acts, m) then t.global == s.global && t.cleanups == s.cleanups
            else t.global == None && t.cleanups == s.cleanups + [Cleanup(m, Some(m))])
      && (s.mods[m].phase.Ready? ==>
            && t.global == None && t.cleanups == s.cleanups + [Cleanup(m, s.global)]
            && (ByOwner(Cleanup(m, s.global)) <==> !Superseded(acts, m)))
  {
    RunsKeepInv(acts);
    if Exposed(Exec(acts).mods[m].phase) { OwnsIffNotSuperseded(acts, m); }
  }

  /** At most one main-interpreter module is alive, that is created and not freed, at a time. */
  ghost predicate OneMainAtATime(acts: seq<Action>)
    requires IsRun(acts)
    decreases |acts|
  {
    acts == [] ||
    (&& OneMainAtATime(acts[..|acts| - 1])
     && (acts[|acts| - 1] == Create(true) ==> NoMainAlive(Exec(acts[..|acts| - 1]))))
  }

  ghost predicate NoMainAlive(s: Sys) {
    forall m :: 0 <= m < |s.mods| ==> !AliveMain(s.mods[m])
  }

  predicate AliveMain(mod: Mod) { mod.isMain && !mod.phase.Freed? }

  ghost predicate Orderly(s: Sys) {
    && (forall m, k :: 0 <= m < |s.mods| && 0 <= k < |s.mods| && AliveMain(s.mods[m]) && AliveMain(s.mods[k]) ==>
        m == k)
    && (forall m :: 0 <= m < |s.mods| && Exposed(s.mods[m].phase) ==> s.global == Some(m))
    && (forall i :: 0 <= i < |s.cleanups| ==> ByOwner(s.cleanups[i]))
  }

  lemma OrderlyFree(s: Sys, m: nat)
    requires Inv(s) && Orderly(s) && Enabled(s, Free(m))
    ensures Orderly(FreeStep(s, m))
  {
    var t := FreeStep(s, m);
    assert ModOk(s.mods[m]);
    assert s.mods[m].phase.Ready? ==> s.global == Some(m);
    forall k | 0 <= k < |t.mods| && Exposed(t.mods[k].phase) ensures t.global == Some(k) {
      assert t.mods[k] == s.mods[k];
    }
  }

  lemma OrderlyStep(s: Sys, a: Action)
    requires Inv(s) && Orderly(s) && Enabled(s, a)
    requires a == Create(true) ==> NoMainAlive(s)
    ensures Orderly(Step(s, a))
  {
    if a.Free? { OrderlyFree(s, a.m); }
  }

  /** With one main module at a time, only the owner of the global pointer ever runs the global cleanup. */
  lemma {:induction false} OnlyOwnerCleansUp(acts: seq<Action>)
    requires IsRun(acts) && OneMainAtATime(acts)
    ensures Orderly(Exec(acts))
    decreases |acts|
  {
    if acts != [] {
      OnlyOwnerCleansUp(acts[..|acts| - 1]);
      RunsKeepInv(acts[..|acts| - 1]);
      OrderlyStep(Exec(acts[..|acts| - 1]), acts[|acts| - 1]);
    }
  }

  lemma {:induction false} RunOf(pre: seq<Action>, a: Action)
    requires IsRun(pre) && Enabled(Exec(pre), a)
    ensures IsRun(pre + [a]) && Exec(pre + [a]) == Step(Exec(pre), a)
  {
    hide Enabled, Step;
    assert (pre + [a])[..|pre|] == pre && (pre + [a])[|pre|] == a;
  }

  /** Two main modules at once: freeing the first finalizes the JIT under the second and leaves it unreachable. */
  lemma TwoMainModules() returns (acts: seq<Action>)
    ensures IsRun(acts)
    ensures var s := Exec(acts);
      && |s.mods| == 2 && s.mods[1].phase.Ready? && s.global == None
      && s.cleanups == [Cleanup(0, Some(1))]
  {
    acts := [];
    RunOf(acts, Create(true));  acts := acts + [Create(true)];
    RunOf(acts, Construct(0));  acts := acts + [Construct(0)];
    RunOf(acts, Publish(0));    acts := acts + [Publish(0)];
    RunOf(acts, Complete(0));   acts := acts + [Complete(0)];
    RunOf(acts, Create(true));  acts := acts + [Create(true)];
    RunOf(acts, Construct(1));  acts := acts + [Construct(1)];
    RunOf(acts, Publish(1));    acts := acts + [Publish(1)];
    RunOf(acts, Complete(1));   acts := acts + [Complete(1)];
    RunOf(acts, Free(0));       acts := acts + [Free(0)];
  }

  // ----- the code, updating objects in place

  class ModuleState {
    var constructed: bool
    var fullyInitialized: bool
    var destroyed: bool

    /** Module storage as the interpreter allocates it. */
    constructor ()
      ensures !constructed && !fullyInitialized && !destroyed
    {
      constructed, fullyInitialized, destroyed := false, false, false;
    }
  }

  /** The process: the global pointer and, as ghosts, every module and the state of the machine above. */
  class Process {
    var globalState: ModuleState?
    ghost var states: seq<ModuleState>
    ghost var model: Sys

    ghost predicate Valid()
      reads this, states
    {
      && Inv(model)
      && |states| == |model.mods|
      && (forall i, j :: 0 <= i < j < |states| ==> states[i] != states[j])
      && (forall m :: 0 <= m < |states| ==> StateMatches(states[m], model.mods[m].phase))
      && globalState == (if model.global.None? then null else states[model.global.value])
    }

    static ghost predicate StateMatches(st: ModuleState, p: Phase)
      reads st
    {
      && (st.constructed <==> !p.Created?)
      && (st.destroyed <==> p.Freed?)
      && (st.fullyInitialized ==> p.Ready? || p.Freed?) && (p.Ready? ==> st.fullyInitialized)
    }

    constructor ()
      ensures Valid() && model == Init
    {
      globalState, states, model := null, [], Init;
    }

    method CreateModule(isMain: bool) returns (st: ModuleState)
      requires Valid()
      modifies this
      ensures Valid() && model == Step(old(model), Create(isMain)) && states == old(states) + [st]
    {
      st := new ModuleState();
      states := states + [st];
      model := Step(model, Create(isMain));
    }

    /**
      _cinderx_exec_impl up to setModuleState: construct the state, then bail out in a
      subinterpreter or on a version mismatch, otherwise publish it.
    */
    method ExecBegin(st: ModuleState, isMain: bool, versionOk: bool, ghost m: nat) returns (published: bool)
      requires Valid() && m < |states| && states[m] == st && model.mods[m].phase.Created? &&
        model.mods[m].isMain == isMain
      modifies this, st
      ensures Valid() && states == old(states)
      ensures published <==> isMain && versionOk
      ensures var s := Step(old(model), Construct(m));
        model == if !isMain then s else Step(s, if versionOk then Publish(m) else Refuse(m))
    {
      st.constructed := true;
      model := Step(model, Construct(m));
      if !isMain { return false; }
      if !versionOk {
        model := Step(model, Refuse(m));
        return false;
      }
      globalState := st;
      model := Step(model, Publish(m));
      return true;
    }

    /** The rest of _cinderx_exec_impl: fail somewhere, or mark the state fully initialized. */
    method ExecEnd(st: ModuleState, ok: bool, ghost m: nat)
      requires Valid() && m < |states| && states[m] == st && model.mods[m].phase.Published?
      modifies this, st
      ensures Valid() && states == old(states)
      ensures model == Step(old(model), if ok then Complete(m) else Abort(m))
    {
      if ok { st.fullyInitialized := true; }
      model := Step(model, if ok then Complete(m) else Abort(m));
    }

    /** module_free. */
    method ModuleFree(st: ModuleState, ghost m: nat) returns (finalized: bool)
      requires Valid() && m < |states| && states[m] == st && Enabled(model, Free(m))
      modifies this, st
      ensures Valid() && states == old(states) && model == Step(old(model), Free(m))
      ensures finalized <==> |model.cleanups| > |old(model.cleanups)|
    {
      if !st.fullyInitialized {
        var ownsGlobalState := globalState == st;
        finalized := ownsGlobalState;          // jit::finalize()
        st.destroyed := true;
        if ownsGlobalState { globalState := null; }
      } else {
        finalized := true;                     // jit::finalize()
        st.destroyed := true;
        globalState := null;
      }
      model := Step(model, Free(m));
    }
  }
}
