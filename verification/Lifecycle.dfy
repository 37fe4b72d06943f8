/** The workspace lifecycle: rules over one state (internal/orchestration/workspace/model.go) and the
    two activities they run (internal/orchestration/workspace/engine.go).

    The rule engine is foreign code.  What is taken for granted about it: events are handled one at a
    time; the assignments of a rule happen together; rules on a status change fire until none applies;
    an activity error ends the handling of the event.  Two points are left open, so everything below is
    proved for each choice: whether such an error undoes the event's own assignments, and whether
    setting the status to the value it already has counts as a change. */
module Lifecycle {
  import Text
  import opened Workspace
  import opened Reconcile

  datatype Engine = Engine(rollsBack: bool, equalCounts: bool)

  datatype State = State(
    status: Status, workspaceId: string, revision: string, operationKey: string, reached: int, total: int,
    failureCode: string)

  const INITIAL: State := State(Inactive, "", "", "", 0, 0, "")

  datatype Event =
    | Activate(workspaceId: string, revision: string, key: string)
    | Recover(key: string)
    | Resume(key: string)
    | Suspend
    | Close(key: string)

  /** Validated definitions by workspace id and revision. */
  type Store = map<(string, string), DesiredState>

  ghost predicate StoreOk(store: Store) {
    forall k :: k in store ==> Valid(store[k]) && k == (store[k].workspaceId, store[k].revision)
  }

  /** What the desktop does when an activity runs: it cannot be observed, or the observation after the
      actions and the failures collected on the way. */
  datatype World = Unobservable | World(after: ObservedState, failures: seq<Failure>)

  // ----- Activities -----

  datatype Output = Output(status: Status, reached: int, total: int, failureCode: string)

  datatype Ran<+T> = Done(value: T) | Error

  function ReconcileWorkspace(s: State, store: Store, w: World): Ran<Output> {
    var k := (s.workspaceId, s.revision);
    if k !in store then Done(Output(Failed, 0, 0, "definition_not_found"))
    else if !Valid(store[k]) || w.Unobservable? then Error
    else
      var e := EvaluationOf(store[k], w.after);
      Done(Output(TargetStatus(e), e.requiredReached, e.requiredTotal, FailureCode(e, w.failures)))
  }

  function CloseWorkspace(s: State, store: Store, w: World): Ran<Output> {
    var k := (s.workspaceId, s.revision);
    if k !in store then Done(Output(Failed, 0, 0, "definition_not_found"))
    else if !Valid(store[k]) || w.Unobservable? then Error
    else if w.failures != [] then Done(Output(Degraded, 0, 0, w.failures[0].code))
    else Done(Output(Inactive, 0, 0, ""))
  }

  // ----- Rules -----

  /** What the engine's callers are refused before an event is dispatched. */
  predicate Guard(e: Event) {
    match e
    case Activate(ws, rev, key) => ws != "" && rev != "" && key != ""
    case Resume(key) => key != ""
    case _ => true
  }

  /** activate, recover, resume, suspend, closeRequested. */
  function OnEvent(s: State, e: Event): State {
    match e
    case Activate(ws, rev, key) =>
      s.(workspaceId := ws, revision := rev, operationKey := key, failureCode := "", status := Preparing)
    case Recover(key) => s.(operationKey := key, status := Recovering)
    case Resume(key) => s.(operationKey := key, status := Preparing)
    case Suspend => s.(status := Inactive)
    case Close(key) => s.(operationKey := key, status := Closing)
  }

  predicate Transient(st: Status) {
    st.Preparing? || st.Recovering? || st.Closing?
  }

  /** reconcilePreparing, reconcileRecovering, closeManagedResources; only the rule whose status the
      state has applies. */
  function OnChange(s: State, store: Store, w: World): Ran<State>
    requires Transient(s.status)
  {
    if s.status.Closing? then
      match CloseWorkspace(s, store, w)
      case Error => Error
      case Done(o) => Done(s.(failureCode := o.failureCode, status := o.status))
    else
      match ReconcileWorkspace(s, store, w)
      case Error => Error
      case Done(o) => Done(s.(reached := o.reached, total := o.total, failureCode := o.failureCode, status := o.status))
  }

  lemma OutputsSettle(s: State, store: Store, w: World)
    requires Transient(s.status)
    ensures OnChange(s, store, w).Done? ==> !Transient(OnChange(s, store, w).value.status)
  {
  }

  datatype Settled = Settled(state: State, fired: nat, failed: bool)

  /** Status-change rules fire until none applies; the definition needs the fact that they soon do not. */
  function Settle(g: Engine, s: State, changed: bool, store: Store, w: World): Settled
    decreases if Transient(s.status) then 1 else 0
  {
    if !changed || !Transient(s.status) then Settled(s, 0, false)
    else
      OutputsSettle(s, store, w);
      match OnChange(s, store, w)
      case Error => Settled(s, 1, true)
      case Done(t) =>
        var r := Settle(g, t, t.status != s.status || g.equalCounts, store, w);
        Settled(r.state, r.fired + 1, r.failed)
  }

  /** The handling of one event; `fired` counts the rules that fired. */
  function Dispatch(g: Engine, s: State, e: Event, store: Store, w: World): Settled {
    if !Guard(e) then Settled(s, 0, false)
    else
      var t := OnEvent(s, e);
      var r := Settle(g, t, t.status != s.status || g.equalCounts, store, w);
      Settled(if r.failed && g.rollsBack then s else r.state, r.fired + 1, r.failed)
  }

  datatype Input = Input(event: Event, store: Store, world: World)

  function Run(g: Engine, inputs: seq<Input>): State {
    if inputs == [] then INITIAL
    else
      var i := inputs[|inputs| - 1];
      Dispatch(g, Run(g, inputs[..|inputs| - 1]), i.event, i.store, i.world).state
  }

  // ----- What every dispatch does -----

  /** The rules on status changes fire at most once in a row: whatever an activity returns, no rule is
      waiting for it. */
  lemma SettlesAtOnce(g: Engine, s: State, changed: bool, store: Store, w: World)
    ensures Settle(g, s, changed, store, w) ==
            if !changed || !Transient(s.status) then Settled(s, 0, false)
            else if OnChange(s, store, w).Error? then Settled(s, 1, true)
            else Settled(OnChange(s, store, w).value, 1, false)
    ensures Settle(g, s, changed, store, w).failed && StoreOk(store) ==> w.Unobservable?
  {
    if changed && Transient(s.status) {
      OutputsSettle(s, store, w);
      var r := OnChange(s, store, w);
      if r.Done? {
        assert Settle(g, r.value, r.value.status != s.status || g.equalCounts, store, w) == Settled(r.value, 0, false);
      }
    }
  }

  /** Handling an event takes at most two rules, the event's own and one activity; it fails only if that
      activity could not observe the desktop. */
  lemma AtMostTwoRules(g: Engine, s: State, e: Event, store: Store, w: World)
    ensures Dispatch(g, s, e, store, w).fired <= 2
    ensures Dispatch(g, s, e, store, w).failed && StoreOk(store) ==>
              Dispatch(g, s, e, store, w).fired == 2 && w.Unobservable? && Transient(OnEvent(s, e).status)
  {
    var t := OnEvent(s, e);
    SettlesAtOnce(g, t, t.status != s.status || g.equalCounts, store, w);
    hide Settle, OnChange, OnEvent, StoreOk;
  }

  /** A dispatch without an activity error leaves the status preparing, recovering or closing exactly when
      the status was already the one the event asks for and setting it again does not count as a change. */
  lemma LeftTransient(g: Engine, s: State, e: Event, store: Store, w: World)
    requires Guard(e) && !Dispatch(g, s, e, store, w).failed
    ensures Transient(Dispatch(g, s, e, store, w).state.status) <==>
            !g.equalCounts && Transient(s.status) && OnEvent(s, e).status == s.status
  {
    var t := OnEvent(s, e);
    SettlesAtOnce(g, t, t.status != s.status || g.equalCounts, store, w);
    if Transient(t.status) { OutputsSettle(t, store, w); }
    hide Settle, OnChange, OnEvent;
  }

  // ----- Whole runs -----

  predicate CountsOk(s: State) {
    0 <= s.reached <= s.total
  }

  ghost predicate Resolved(s: State, inputs: seq<Input>) {
    exists i :: 0 <= i < |inputs| && (s.workspaceId, s.revision) in inputs[i].store
  }

  ghost predicate StoresOk(inputs: seq<Input>) {
    forall i :: 0 <= i < |inputs| ==> StoreOk(inputs[i].store)
  }

  predicate ActiveIsComplete(s: State) {
    s.status.Active? ==> s.reached == s.total
  }

  lemma OnChangeOk(s: State, store: Store, w: World)
    requires Transient(s.status) && CountsOk(s) && OnChange(s, store, w).Done?
    ensures
      var t := OnChange(s, store, w).value;
      && CountsOk(t) && ActiveIsComplete(t) && t.workspaceId == s.workspaceId && t.revision == s.revision
      && (t.status.Active? ==> (t.workspaceId, t.revision) in store)
  {
    if (s.workspaceId, s.revision) in store && w.World? {
      StatusMeaning(store[(s.workspaceId, s.revision)], w.after);
    }
    hide EvaluationOf, FailureCode;
  }

  /** Where the state after a dispatch comes from. */
  lemma DispatchCases(g: Engine, s: State, e: Event, store: Store, w: World)
    ensures
      var r := Dispatch(g, s, e, store, w).state;
      var t := OnEvent(s, e);
      || r == s
      || (Guard(e) && r == t)
      || (Guard(e) && Transient(t.status) && OnChange(t, store, w) == Done(r))
  {
    var t := OnEvent(s, e);
    SettlesAtOnce(g, t, t.status != s.status || g.equalCounts, store, w);
    hide Settle, OnChange, OnEvent;
  }

  /** In every reachable state 0 <= reached <= total; an active workspace has all its required resources
      reached, a non-blank id, and a revision that was found in the store. */
  lemma {:induction false} ReachableOk(g: Engine, inputs: seq<Input>)
    requires StoresOk(inputs)
    ensures CountsOk(Run(g, inputs)) && ActiveIsComplete(Run(g, inputs))
    ensures Run(g, inputs).status.Active? ==>
              Resolved(Run(g, inputs), inputs) && !Text.Blank(Run(g, inputs).workspaceId)
  {
    hide Dispatch, OnChange, Resolved, Settle, Valid, Text.Blank, StoreOk;
    if inputs != [] {
      var n := |inputs| - 1;
      var i, init := inputs[n], inputs[..n];
      ReachableOk(g, init);
      var s := Run(g, init);
      var t := OnEvent(s, i.event);
      DispatchCases(g, s, i.event, i.store, i.world);
      if Transient(t.status) && OnChange(t, i.store, i.world).Done? { OnChangeOk(t, i.store, i.world); }
      ResolvedEarlier(Run(g, init), inputs, n);
      ResolvedNow(Run(g, inputs), inputs, n);
    }
  }

  lemma ResolvedEarlier(s: State, inputs: seq<Input>, n: nat)
    requires n <= |inputs|
    ensures Resolved(s, inputs[..n]) ==> Resolved(s, inputs)
  {
    if Resolved(s, inputs[..n]) {
      var i :| 0 <= i < |inputs[..n]| && (s.workspaceId, s.revision) in inputs[..n][i].store;
      assert (s.workspaceId, s.revision) in inputs[i].store;
    }
  }

  lemma ResolvedNow(s: State, inputs: seq<Input>, n: nat)
    requires n < |inputs| && StoreOk(inputs[n].store)
    ensures (s.workspaceId, s.revision) in inputs[n].store ==> Resolved(s, inputs) && !Text.Blank(s.workspaceId)
  {
    hide Text.Blank;
  }

  /** No event of the run ends in an activity error. */
  ghost predicate NeverFails(g: Engine, inputs: seq<Input>) {
    forall n :: 0 <= n < |inputs| ==>
      !Dispatch(g, Run(g, inputs[..n]), inputs[n].event, inputs[n].store, inputs[n].world).failed
  }

  /** While no activity reports an error, no state between events is preparing, recovering or closing;
      with rollback none ever is. */
  lemma {:induction false} NeverLeftTransient(g: Engine, inputs: seq<Input>)
    requires g.rollsBack || NeverFails(g, inputs)
    ensures !Transient(Run(g, inputs).status)
  {
    if inputs != [] {
      var n := |inputs| - 1;
      var i, init := inputs[n], inputs[..n];
      if NeverFails(g, inputs) {
        forall m | 0 <= m < |init|
          ensures !Dispatch(g, Run(g, init[..m]), init[m].event, init[m].store, init[m].world).failed
        {
          assert init[..m] == inputs[..m] && init[m] == inputs[m];
        }
      }
      NeverLeftTransient(g, init);
      var r := Dispatch(g, Run(g, init), i.event, i.store, i.world);
      if Guard(i.event) && !r.failed { LeftTransient(g, Run(g, init), i.event, i.store, i.world); }
      hide Settle, OnChange;
    }
  }

  /** Without rollback, and when setting the same status is no change, one activity error can leave a
      workspace preparing for good: Resume and Activate no longer run anything. */
  lemma CanBeStuck(key: string, store: Store)
    requires key != "" && ("w", "r") in store
    ensures
      var g := Engine(false, false);
      var broken := Input(Activate("w", "r", key), store, Unobservable);
      && Run(g, [broken]).status == Preparing
      && forall later: seq<Input> ::
           (forall i :: 0 <= i < |later| ==> later[i].event.Resume? || later[i].event.Activate?) ==>
             Run(g, [broken] + later).status == Preparing
  {
    var g := Engine(false, false);
    var broken := Input(Activate("w", "r", key), store, Unobservable);
    assert [broken][..0] == [];
    assert Run(g, [broken]) == Dispatch(g, INITIAL, broken.event, store, Unobservable).state;
    forall later: seq<Input> | forall i :: 0 <= i < |later| ==> later[i].event.Resume? || later[i].event.Activate?
      ensures Run(g, [broken] + later).status == Preparing
    {
      StaysStuck(g, [broken], later);
    }
  }

  lemma {:induction false} StaysStuck(g: Engine, before: seq<Input>, later: seq<Input>)
    requires !g.equalCounts && Run(g, before).status == Preparing
    requires forall i :: 0 <= i < |later| ==> later[i].event.Resume? || later[i].event.Activate?
    ensures Run(g, before + later).status == Preparing
  {
    if later == [] {
      assert before + later == before;
    } else {
      var init := later[..|later| - 1];
      StaysStuck(g, before, init);
      var all := before + later;
      assert all[..|all| - 1] == before + init;
      assert all[|all| - 1] == later[|later| - 1];
    }
  }

  // ----- Where each event leads -----

  /** The outcome of reconciling the definition against what was observed at the end. */
  ghost predicate Evaluated(r: State, d: DesiredState, w: World)
    requires w.World?
  {
    && r.status == (if AllRequiredReached(d.resources, w.after) then Active
                    else if SomeRequiredReached(d.resources, w.after) then Degraded else Failed)
    && r.total == |set q | q in d.resources && q.required|
    && r.reached + |set q | q in d.resources && q.required && !Reached(w.after, q.id)| == r.total
    && r.failureCode == (if w.failures != [] then w.failures[0].code
                         else if AllRequiredReached(d.resources, w.after) then "" else "required_resource_unreached")
  }

  lemma ReconciledIsEvaluated(s: State, store: Store, w: World)
    requires StoreOk(store) && (s.workspaceId, s.revision) in store && w.World?
    ensures
      var r := ReconcileWorkspace(s, store, w);
      && r.Done?
      && Evaluated(s.(status := r.value.status, reached := r.value.reached, total := r.value.total,
                      failureCode := r.value.failureCode), store[(s.workspaceId, s.revision)], w)
  {
    hide EvaluationOf, Reached, AllRequiredReached, SomeRequiredReached, ResourceValid, Text.Blank;
    var d := store[(s.workspaceId, s.revision)];
    StatusMeaning(d, w.after);
    EvaluationMeaning(d, w.after);
    FailureCodes(EvaluationOf(d, w.after), w.failures);
  }

  lemma FailureCodes(e: Evaluation, failures: seq<Failure>)
    ensures FailureCode(e, failures) == if failures != [] then failures[0].code else FailureCode(e, [])
    ensures FailureCode(e, []) == "" || FailureCode(e, []) == "required_resource_unreached"
  {
  }

  /** Activate takes a workspace at rest to what reconciling its definition gives: active, degraded or failed
      by the required resources that are reached; failed when there is no definition. */
  lemma ActivateLeadsTo(g: Engine, s: State, ws: string, rev: string, key: string, store: Store, w: World)
    requires ws != "" && rev != "" && key != "" && !Transient(s.status) && StoreOk(store) && w.World?
    ensures
      var r := Dispatch(g, s, Activate(ws, rev, key), store, w).state;
      && r.workspaceId == ws && r.revision == rev && r.operationKey == key
      && if (ws, rev) in store then Evaluated(r, store[(ws, rev)], w)
         else r.status == Failed && r.reached == 0 == r.total && r.failureCode == "definition_not_found"
  {
    hide Evaluated, EvaluationOf, Settle;
    var t := OnEvent(s, Activate(ws, rev, key));
    SettlesAtOnce(g, t, t.status != s.status || g.equalCounts, store, w);
    if (ws, rev) in store { ReconciledIsEvaluated(t, store, w); }
  }

  /** Recover and Resume do the same for the workspace that the state already names. */
  lemma ResumeLeadsTo(g: Engine, s: State, e: Event, store: Store, w: World)
    requires (e.Recover? || (e.Resume? && e.key != "")) && !Transient(s.status) && StoreOk(store) && w.World?
    ensures
      var r := Dispatch(g, s, e, store, w).state;
      && r.workspaceId == s.workspaceId && r.revision == s.revision && r.operationKey == e.key
      && if (s.workspaceId, s.revision) in store then Evaluated(r, store[(s.workspaceId, s.revision)], w)
         else r.status == Failed && r.reached == 0 == r.total && r.failureCode == "definition_not_found"
  {
    hide Evaluated, EvaluationOf, Settle;
    var t := OnEvent(s, e);
    SettlesAtOnce(g, t, t.status != s.status || g.equalCounts, store, w);
    if (s.workspaceId, s.revision) in store { ReconciledIsEvaluated(t, store, w); }
  }

  /** Suspend only makes the workspace inactive.  Close ends inactive, or degraded with the first failure;
      it keeps the counts. */
  lemma CloseLeadsTo(g: Engine, s: State, key: string, store: Store, w: World)
    requires !Transient(s.status) && StoreOk(store) && w.World?
    ensures Dispatch(g, s, Suspend, store, w).state == s.(status := Inactive)
    ensures
      Dispatch(g, s, Close(key), store, w).state ==
      if (s.workspaceId, s.revision) !in store then
        s.(operationKey := key, status := Failed, failureCode := "definition_not_found")
      else if w.failures != [] then s.(operationKey := key, status := Degraded, failureCode := w.failures[0].code)
      else s.(operationKey := key, status := Inactive, failureCode := "")
  {
    hide EvaluationOf, Settle, ResourceValid, Text.Blank;
    var t, u := OnEvent(s, Suspend), OnEvent(s, Close(key));
    SettlesAtOnce(g, t, t.status != s.status || g.equalCounts, store, w);
    SettlesAtOnce(g, u, u.status != s.status || g.equalCounts, store, w);
  }

  /** Activate and Resume are refused with an empty name or key.  An error comes exactly when the desktop cannot be
      observed and there is a definition to work on; it undoes the event, or leaves what the event set. */
  lemma ErrorLeaves(g: Engine, s: State, e: Event, store: Store, w: World)
    requires !Transient(s.status) && StoreOk(store)
    ensures
      var r := Dispatch(g, s, e, store, w);
      match e
      case Activate(ws, rev, key) =>
        if ws == "" || rev == "" || key == "" then r.state == s && !r.failed
        else
          && (r.failed <==> w.Unobservable? && (ws, rev) in store)
          && (r.failed ==> r.state == if g.rollsBack then s
                                      else State(Preparing, ws, rev, key, s.reached, s.total, ""))
      case Resume(key) =>
        if key == "" then r.state == s && !r.failed
        else
          && (r.failed <==> w.Unobservable? && (s.workspaceId, s.revision) in store)
          && (r.failed ==> r.state == if g.rollsBack then s else s.(operationKey := key, status := Preparing))
      case Recover(key) =>
        && (r.failed <==> w.Unobservable? && (s.workspaceId, s.revision) in store)
        && (r.failed ==> r.state == if g.rollsBack then s else s.(operationKey := key, status := Recovering))
      case Close(key) =>
        && (r.failed <==> w.Unobservable? && (s.workspaceId, s.revision) in store)
        && (r.failed ==> r.state == if g.rollsBack then s else s.(operationKey := key, status := Closing))
      case Suspend => !r.failed
  {
    hide EvaluationOf, Settle, ResourceValid, Text.Blank;
    var t := OnEvent(s, e);
    SettlesAtOnce(g, t, t.status != s.status || g.equalCounts, store, w);
  }
}
