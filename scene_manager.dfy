// The scene manager of src/scene/scene_manager.cpp: scene transitions, either
// immediate or deferred through a loading scene, each finished by a few
// render calls that absorb the loading time.
//
// Scenes, loading scenes and listeners are references, with none for nullptr.
// What the manager asks of them and of the resource manager is recorded in the
// `effects` log; a scene's chain of attached scenes is one entry, since the
// manager walks every chain in full.  The one answer the manager reads back,
// whether `ResourceManager::PerformStep` has finished, is the parameter
// `stepDone`; the resource count passed to the listener is not modelled.

module SceneManagers {

  datatype Option<T> = None | Some(value: T)

  /** `kNone`, `kImmediate`, `kDeferred` and `kAsyncronous`. */
  datatype Transition = NoTransition | Immediate | Deferred | Asynchronous

  /** Render calls that finalization waits for. */
  const RequiredRenderCount: int := 2

  /** What the manager asks of the scene chains, the resource manager and the listener. */
  datatype Effect =
    | RequestUnloadChain(scene: nat)
    | RequestLoadChain(scene: nat)
    | PerformResources
    | PerformResourceStep
    | UnloadChain(scene: nat)
    | LoadChain(scene: nat)
    | ObtainCount
    | Step
    | Finish
    | UpdateScene(scene: nat)
    | UpdatePhysicsScene(scene: nat)
    | RenderScene(scene: nat)

  /** The transition bookkeeping: `transition_phase_`, `render_count_` and `transition_finalization_`. */
  datatype Progress = Progress(phase: int, renderCount: int, finalization: bool)

  const Idle := Progress(0, 0, false)

  /** The chain walk from a scene, which does nothing from nullptr. */
  function Chain(scene: Option<nat>, f: nat -> Effect): (r: seq<Effect>)
    ensures scene.None? <==> r == []
    ensures scene.Some? ==> r == [f(scene.value)]
  {
    if scene.Some? then [f(scene.value)] else []
  }

  /** The scene that Update, UpdatePhysics and Render drive: the loading scene if any, else the current one. */
  function Driven(loading: Option<nat>, current: Option<nat>): (r: Option<nat>)
    ensures loading.Some? ==> r == loading
    ensures loading.None? ==> r == current
  {
    if loading.Some? then loading else current
  }

  /** Render counts a call only during finalization. */
  function Rendered(p: Progress): (r: Progress)
    ensures r.phase == p.phase && r.finalization == p.finalization
    ensures r.renderCount == if p.finalization then p.renderCount + 1 else p.renderCount
  {
    if p.finalization then p.(renderCount := p.renderCount + 1) else p
  }

  /**
   * The bookkeeping of one ImmediateTransition call and whether it finished:
   * outside finalization it starts finalization; during finalization it
   * finishes, resetting, once enough renders were counted.
   */
  function ImmediateNext(p: Progress): (r: (Progress, bool))
  {
    if p.finalization then
      if p.renderCount >= RequiredRenderCount then (p.(renderCount := 0, finalization := false), true)
      else (p, false)
    else (p.(finalization := true), false)
  }

  /**
   * The bookkeeping of one DeferredTransition call and whether it finished:
   * phase 0 requests, phase 1 steps the resources until stepDone, phase 2
   * swaps the scenes, phase 3 finalizes; any other phase reports finished.
   */
  function DeferredNext(p: Progress, stepDone: bool): (r: (Progress, bool))
  {
    if p.phase == 0 || p.phase == 2 then (p.(phase := p.phase + 1), false)
    else if p.phase == 1 then (if stepDone then p.(phase := 2) else p, false)
    else if p.phase == 3 then
      if p.renderCount >= RequiredRenderCount then (Idle, true)
      else (p.(finalization := true), false)
    else (p, true)
  }

  /** The scene references and transition kind of the manager. */
  datatype Scenes = Scenes(current: Option<nat>, next: Option<nat>, loading: Option<nat>,
                           listener: Option<nat>, kind: Transition)

  /** The chains of the scenes leaving and arriving are asked to schedule their unload and load. */
  function RequestChains(current: Option<nat>, next: Option<nat>): seq<Effect>
  {
    Chain(current, (s: nat) => RequestUnloadChain(s)) + Chain(next, (s: nat) => RequestLoadChain(s))
  }

  /** The chain of the scene leaving is unloaded, then that of the scene arriving loaded. */
  function SwitchChains(current: Option<nat>, next: Option<nat>): seq<Effect>
  {
    Chain(current, (s: nat) => UnloadChain(s)) + Chain(next, (s: nat) => LoadChain(s))
  }

  /** What the first call of an immediate transition asks for, in order. */
  function ImmediateEffects(current: Option<nat>, next: Option<nat>): seq<Effect>
  {
    RequestChains(current, next)
    + [PerformResources]
    + SwitchChains(current, next)
  }

  /** What one call of a deferred transition in the given phase asks for, in order. */
  function PhaseEffects(phase: int, current: Option<nat>, next: Option<nat>, listener: Option<nat>,
                        stepDone: bool, renderCount: int): seq<Effect>
  {
    if phase == 0 then
      RequestChains(current, next)
      + (if listener.Some? then [ObtainCount] else [])
    else if phase == 1 then [PerformResourceStep] + (if !stepDone && listener.Some? then [Step] else [])
    else if phase == 2 then SwitchChains(current, next)
    else if phase == 3 then (if renderCount >= RequiredRenderCount && listener.Some? then [Finish] else [])
    else []
  }

  /**
   * One UpdateTransition: the scenes, the bookkeeping and the effects after
   * stepping the requested transition, with the next scene made current when
   * it finishes.
   */
  function TransitionNext(s: Scenes, p: Progress, stepDone: bool): (Scenes, Progress, seq<Effect>)
  {
    if s.kind == Immediate then
      var (q, done) := ImmediateNext(p);
      var e := if p.finalization then [] else ImmediateEffects(s.current, s.next);
      if done then (s.(current := s.next, next := None, kind := NoTransition), q, e)
      else (s.(current := if p.finalization then s.current else None), q, e)
    else if s.kind == Deferred then
      var (q, done) := DeferredNext(p, stepDone);
      var e := PhaseEffects(p.phase, s.current, s.next, s.listener, stepDone, p.renderCount);
      if done then (Scenes(s.next, None, None, None, NoTransition), q, e)
      else (s.(current := if p.phase == 2 then None else s.current), q, e)
    else (s, p, [])
  }

  /**
   * A transition that finishes makes the next scene current and forgets it,
   * a deferred one also its loading scene and listener, and it finishes only
   * after the required renders; without a requested transition (or with the
   * asynchronous kind, which is not implemented) nothing happens.
   */
  lemma TransitionCompletion(s: Scenes, p: Progress, stepDone: bool)
    requires 0 <= p.phase <= 3
    ensures var (s2, p2, e) := TransitionNext(s, p, stepDone);
      (s.kind != NoTransition && s2.kind == NoTransition ==>
        s2.current == s.next && s2.next.None? && p.renderCount >= RequiredRenderCount && p2.renderCount == 0)
      && (s.kind == Deferred && s2.kind == NoTransition ==> s2.loading.None? && s2.listener.None? && p2 == Idle)
      && (s.kind == NoTransition || s.kind == Asynchronous ==> s2 == s && p2 == p && e == [])
      && (s2.kind == s.kind || s2.kind == NoTransition)
  {
  }

  /** An immediate transition finishes only after the required renders, and then resets. */
  lemma ImmediateFinishesAfterRenders(p: Progress)
    ensures ImmediateNext(p).1 <==> p.finalization && p.renderCount >= RequiredRenderCount
    ensures ImmediateNext(p).1 ==> !ImmediateNext(p).0.finalization && ImmediateNext(p).0.renderCount == 0
    ensures ImmediateNext(p).0.phase == p.phase
  {
  }

  /**
   * The deferred phases advance 0, 1, 2, 3 in order and only phase 1 waits
   * for the resources; from phase 3 the transition finishes only after the
   * required renders, back at the idle bookkeeping.
   */
  lemma DeferredPhasesInOrder(p: Progress, stepDone: bool)
    requires 0 <= p.phase <= 3
    ensures var (r, done) := DeferredNext(p, stepDone);
      (p.phase == 1 ==> (r.phase == 2 <==> stepDone) && (r.phase == 1 <==> !stepDone))
      && (p.phase != 1 && p.phase != 3 ==> r.phase == p.phase + 1)
      && (done <==> p.phase == 3 && p.renderCount >= RequiredRenderCount)
      && (done ==> r == Idle)
      && (!done ==> 0 <= r.phase <= 3 && r.renderCount == p.renderCount)
  {
  }

  /**
   * From the idle bookkeeping, an immediate transition finishes on the call
   * after two renders: first call, two renders, second call.
   */
  lemma ImmediateTakesTwoRenders()
    ensures var p1 := ImmediateNext(Idle).0;
      !ImmediateNext(Idle).1
      && !ImmediateNext(Rendered(p1)).1
      && ImmediateNext(Rendered(Rendered(p1))) == (Idle, true)
  {
  }

  /**
   * From the idle bookkeeping a deferred transition with resources ready at
   * once needs the four phases and two renders: it is not finished after
   * four calls, and finished on the fifth after two renders.
   */
  lemma DeferredTakesFourPhases()
    ensures var p4 := DeferredNext(DeferredNext(DeferredNext(DeferredNext(Idle, true).0, true).0, true).0, true).0;
      p4 == Progress(3, 0, true)
      && !DeferredNext(p4, true).1
      && DeferredNext(Rendered(Rendered(p4)), true) == (Idle, true)
  {
  }

  /** A call on the manager during a transition: a Render, or an UpdateTransition seeing stepDone. */
  datatype Call = RenderCall | UpdateCall(stepDone: bool)

  /** The bookkeeping after one call and whether the call finished the transition of the given kind. */
  function CallNext(kind: Transition, p: Progress, c: Call): (r: (Progress, bool))
    requires kind == Immediate || kind == Deferred
  {
    match c
    case RenderCall => (Rendered(p), false)
    case UpdateCall(stepDone) => if kind == Immediate then ImmediateNext(p) else DeferredNext(p, stepDone)
  }

  /** The bookkeeping after a run of calls. */
  function Run(kind: Transition, p: Progress, calls: seq<Call>): Progress
    requires kind == Immediate || kind == Deferred
    decreases |calls|
  {
    if calls == [] then p else Run(kind, CallNext(kind, p, calls[0]).0, calls[1..])
  }

  /** No call of the run finishes the transition. */
  predicate Unfinished(kind: Transition, p: Progress, calls: seq<Call>)
    requires kind == Immediate || kind == Deferred
    decreases |calls|
  {
    calls == [] || (!CallNext(kind, p, calls[0]).1 && Unfinished(kind, CallNext(kind, p, calls[0]).0, calls[1..]))
  }

  /** The Render calls of a run made while finalization was on. */
  function FinalizingRenders(kind: Transition, p: Progress, calls: seq<Call>): nat
    requires kind == Immediate || kind == Deferred
    decreases |calls|
  {
    if calls == [] then 0
    else
      (if calls[0].RenderCall? && p.finalization then 1 else 0)
      + FinalizingRenders(kind, CallNext(kind, p, calls[0]).0, calls[1..])
  }

  /** A run that starts in one of the four phases stays in them. */
  lemma {:induction false} RunKeepsPhase(kind: Transition, p: Progress, calls: seq<Call>)
    requires kind == Immediate || kind == Deferred
    requires 0 <= p.phase <= 3
    ensures 0 <= Run(kind, p, calls).phase <= 3
    decreases |calls|
  {
    if calls != [] {
      if calls[0].UpdateCall? && kind == Deferred {
        DeferredPhasesInOrder(p, calls[0].stepDone);
      }
      RunKeepsPhase(kind, CallNext(kind, p, calls[0]).0, calls[1..]);
    }
  }

  /** Within one transition, render_count_ counts exactly the renders made during finalization. */
  lemma {:induction false} RenderCountCountsFinalizingRenders(kind: Transition, p: Progress, calls: seq<Call>)
    requires kind == Immediate || kind == Deferred
    requires Unfinished(kind, p, calls)
    ensures Run(kind, p, calls).renderCount == p.renderCount + FinalizingRenders(kind, p, calls)
    decreases |calls|
  {
    if calls != [] {
      RenderCountCountsFinalizingRenders(kind, CallNext(kind, p, calls[0]).0, calls[1..]);
    }
  }

  /**
   * Started from the idle bookkeeping, a transition finishes only on an
   * update that follows at least two renders made during its finalization.
   */
  lemma FinishesAfterTwoFinalizingRenders(kind: Transition, calls: seq<Call>, stepDone: bool)
    requires kind == Immediate || kind == Deferred
    requires Unfinished(kind, Idle, calls)
    requires CallNext(kind, Run(kind, Idle, calls), UpdateCall(stepDone)).1
    ensures FinalizingRenders(kind, Idle, calls) >= RequiredRenderCount
  {
    RenderCountCountsFinalizingRenders(kind, Idle, calls);
    RunKeepsPhase(kind, Idle, calls);
  }

  class SceneManager {
    var currentScene: Option<nat>
    var nextScene: Option<nat>
    var loadingScene: Option<nat>
    var listener: Option<nat>
    var transitionPhase: int
    var renderCount: int
    var transitionType: Transition
    var transitionFinalization: bool
    var effects: seq<Effect>

    function Bookkeeping(): Progress
      reads this
    {
      Progress(transitionPhase, renderCount, transitionFinalization)
    }

    function References(): Scenes
      reads this
    {
      Scenes(currentScene, nextScene, loadingScene, listener, transitionType)
    }

    constructor ()
      ensures currentScene.None? && nextScene.None? && loadingScene.None? && listener.None?
      ensures Bookkeeping() == Idle && transitionType == NoTransition && effects == []
    {
      currentScene, nextScene, loadingScene, listener := None, None, None, None;
      transitionPhase, renderCount, transitionType, transitionFinalization := 0, 0, NoTransition, false;
      effects := [];
    }

    /** Runs the transition, then updates the loading scene if any, else the current one. */
    method Update(stepDone: bool)
      modifies this
      ensures var (s, p, e) := TransitionNext(old(References()), old(Bookkeeping()), stepDone);
        References() == s && Bookkeeping() == p
        && effects == old(effects) + e + Chain(Driven(s.loading, s.current), (s: nat) => UpdateScene(s))
    {
      UpdateTransition(stepDone);
      if loadingScene.Some? {
        effects := effects + [UpdateScene(loadingScene.value)];
      } else if currentScene.Some? {
        effects := effects + [UpdateScene(currentScene.value)];
      }
    }

    method UpdatePhysics()
      modifies this
      ensures effects == old(effects) + Chain(Driven(loadingScene, currentScene), (s: nat) => UpdatePhysicsScene(s))
      ensures References() == old(References()) && Bookkeeping() == old(Bookkeeping())
    {
      if loadingScene.Some? {
        effects := effects + [UpdatePhysicsScene(loadingScene.value)];
      } else if currentScene.Some? {
        effects := effects + [UpdatePhysicsScene(currentScene.value)];
      }
    }

    /** Counts the call during finalization, then renders the loading scene if any, else the current one. */
    method Render()
      modifies this
      ensures Bookkeeping() == Rendered(old(Bookkeeping()))
      ensures effects == old(effects) + Chain(Driven(loadingScene, currentScene), (s: nat) => RenderScene(s))
      ensures References() == old(References())
    {
      if transitionFinalization {
        renderCount := renderCount + 1;
      }
      if loadingScene.Some? {
        effects := effects + [RenderScene(loadingScene.value)];
      } else if currentScene.Some? {
        effects := effects + [RenderScene(currentScene.value)];
      }
    }

    method RequestImmediateTransition(scene: Option<nat>)
      modifies this
      ensures nextScene == scene && loadingScene.None? && listener.None? && transitionType == Immediate
      ensures currentScene == old(currentScene) && Bookkeeping() == old(Bookkeeping()) && effects == old(effects)
    {
      nextScene, loadingScene, listener := scene, None, None;
      transitionType := Immediate;
    }

    method RequestDeferredTransition(scene: Option<nat>, loading: Option<nat>, listener: Option<nat>)
      modifies this
      ensures nextScene == scene && loadingScene == loading && this.listener == listener && transitionType == Deferred
      ensures currentScene == old(currentScene) && Bookkeeping() == old(Bookkeeping()) && effects == old(effects)
    {
      nextScene, loadingScene, this.listener := scene, loading, listener;
      transitionType := Deferred;
    }

    /**
     * One step of an immediate transition.  Outside finalization it requests
     * the current chain's unload and the next chain's load, performs the
     * resources, unloads and loads the chains, drops the current scene and
     * starts finalization.
     */
    method ImmediateTransition() returns (done: bool)
      modifies this
      ensures (Bookkeeping(), done) == ImmediateNext(old(Bookkeeping()))
      ensures old(transitionFinalization) ==> effects == old(effects) && currentScene == old(currentScene)
      ensures !old(transitionFinalization) ==>
        effects == old(effects) + ImmediateEffects(old(currentScene), nextScene) && currentScene.None?
      ensures nextScene == old(nextScene) && loadingScene == old(loadingScene) && listener == old(listener)
      ensures transitionType == old(transitionType)
    {
      if transitionFinalization {
        if renderCount >= RequiredRenderCount {
          renderCount := 0;
          transitionFinalization := false;
          return true;
        } else {
          return false;
        }
      }
      effects := effects + ImmediateEffects(currentScene, nextScene);
      currentScene := None;
      transitionFinalization := true;
      return false;
    }

    /** One step of a deferred transition: the phase switch. */
    method DeferredTransition(stepDone: bool) returns (done: bool)
      modifies this
      ensures (Bookkeeping(), done) == DeferredNext(old(Bookkeeping()), stepDone)
      ensures effects == old(effects) + PhaseEffects(old(transitionPhase), old(currentScene), nextScene, listener,
                                                     stepDone, old(renderCount))
      ensures old(transitionPhase) == 2 ==> currentScene.None?
      ensures old(transitionPhase) != 2 ==> currentScene == old(currentScene)
      ensures nextScene == old(nextScene) && loadingScene == old(loadingScene) && listener == old(listener)
      ensures transitionType == old(transitionType)
    {
      match transitionPhase
      case 0 =>
        var requested := RequestChains(currentScene, nextScene);
        transitionPhase := transitionPhase + 1;
        if listener.Some? {
          requested := requested + [ObtainCount];
        }
        effects := effects + requested;
        return false;
      case 1 =>
        effects := effects + [PerformResourceStep];
        if stepDone {
          transitionPhase := transitionPhase + 1;
        } else if listener.Some? {
          effects := effects + [Step];
        }
        return false;
      case 2 =>
        effects := effects + SwitchChains(currentScene, nextScene);
        currentScene := None;
        transitionPhase := transitionPhase + 1;
        return false;
      case 3 =>
        if !transitionFinalization {
          transitionFinalization := true;
        }
        if renderCount >= RequiredRenderCount {
          if listener.Some? {
            effects := effects + [Finish];
          }
          transitionPhase := 0;
          renderCount := 0;
          transitionFinalization := false;
          return true;
        } else {
          return false;
        }
      case _ =>
        return true;
    }

    /**
     * Steps the requested transition; when it finishes the next scene becomes
     * the current one, and a deferred transition also forgets its loading
     * scene and listener.
     */
    method UpdateTransition(stepDone: bool)
      modifies this
      ensures var (s, p, e) := TransitionNext(old(References()), old(Bookkeeping()), stepDone);
        References() == s && Bookkeeping() == p && effects == old(effects) + e
    {
      if transitionType == Immediate {
        var done := ImmediateTransition();
        if done {
          currentScene := nextScene;
          nextScene := None;
          transitionType := NoTransition;
        }
      } else if transitionType == Deferred {
        var done := DeferredTransition(stepDone);
        if done {
          currentScene := nextScene;
          nextScene := None;
          loadingScene := None;
          listener := None;
          transitionType := NoTransition;
        }
      }
    }
  }

  /** An immediate switch to scene 1: the first update loads it, two renders later it is current. */
  method ImmediateScenario()
  {
    var m := new SceneManager();
    m.RequestImmediateTransition(Some(1));
    m.Update(false);
    assert m.currentScene.None? && m.transitionFinalization;
    assert m.effects == [RequestLoadChain(1), PerformResources, LoadChain(1)];
    m.Render();
    m.Update(false);
    assert m.currentScene.None? && m.transitionType == Immediate;
    m.Render();
    m.Update(false);
    assert m.currentScene == Some(1) && m.transitionType == NoTransition && m.Bookkeeping() == Idle;
  }
}
