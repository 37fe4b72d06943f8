/** The in-memory desktop (internal/adapters/fake/desktop.go) and the reconciler
    (internal/application/reconcile/reconciler.go) driving it. */
module FakeDesktop {
  import opened Sorting
  import opened Wrappers
  import opened Workspace
  import opened Reconcile

  const TOPOLOGY := "fake-topology-v1"

  type Resources = map<string, Observation>

  /** The desktop's fields as a value. */
  datatype Fake = Fake(
    resources: map<string, Resources>, failures: map<string, int>, attempts: map<string, int>, observeFails: bool)

  function ResourcesOf(f: Fake, ws: string): Resources {
    if ws in f.resources then f.resources[ws] else map[]
  }

  function ObservedBy(f: Fake, ws: string): ObservedState {
    ObservedState(ws, TOPOLOGY, ResourcesOf(f, ws))
  }

  function Budget(f: Fake, id: string): int {
    if id in f.failures then f.failures[id] else 0
  }

  function Attempts(f: Fake, id: string): int {
    if id in f.attempts then f.attempts[id] else 0
  }

  function Opened(f: Fake, ws: string): Fake {
    if ws in f.resources then f else f.(resources := f.resources[ws := map[]])
  }

  function StartedObservation(r: ResourceSpec): Observation {
    Observation(r.id, true, true, r.ownership, OtherSession("fake"), r.desktopAppId)
  }

  function Put(f: Fake, ws: string, id: string, o: Observation): Fake {
    f.(resources := f.resources[ws := ResourcesOf(f, ws)[id := o]])
  }

  function Ensured(f: Fake, ws: string, r: ResourceSpec): Fake {
    var g := f.(attempts := f.attempts[r.id := Attempts(f, r.id) + 1]);
    if Budget(f, r.id) > 0 then g.(failures := g.failures[r.id := Budget(f, r.id) - 1])
    else Put(g, ws, r.id, StartedObservation(r))
  }

  function Closed(f: Fake, ws: string, r: ResourceSpec, o: Observation): Fake {
    if !r.ownership.Managed? || !o.ownership.Managed? then f
    else f.(resources := f.resources[ws := ResourcesOf(f, ws) - {r.id}])
  }

  lemma PutOpened(f: Fake, ws: string, id: string, o: Observation)
    ensures Put(Opened(f, ws), ws, id, o) == Put(f, ws, id, o)
  {
    assert f.resources[ws := map[]][ws := map[id := o]] == f.resources[ws := map[id := o]];
  }

  class Desktop {
    var resources: map<string, Resources>
    var ensureFailures: map<string, int>
    var ensureAttempts: map<string, int>
    var observeFailure: bool

    function State(): Fake
      reads this
    {
      Fake(resources, ensureFailures, ensureAttempts, observeFailure)
    }

    constructor ()
      ensures State() == Fake(map[], map[], map[], false)
    {
      resources, ensureFailures, ensureAttempts, observeFailure := map[], map[], map[], false;
    }

    method FailEnsure(id: string, attempts: int)
      modifies this
      ensures Budget(State(), id) == attempts
      ensures forall x :: x != id ==> Budget(State(), x) == Budget(old(State()), x)
      ensures State() == old(State()).(failures := State().failures)
    {
      ensureFailures := ensureFailures[id := attempts];
    }

    method FailObserve(fails: bool)
      modifies this
      ensures State() == old(State()).(observeFails := fails)
    {
      observeFailure := fails;
    }

    method EnsureWorkspace(ws: string)
      modifies this
      ensures State() == Opened(old(State()), ws) && ws in resources
    {
      if ws !in resources { resources := resources[ws := map[]]; }
    }

    method Seed(ws: string, o: Observation)
      modifies this
      ensures State() == Put(old(State()), ws, o.resourceId, o)
    {
      EnsureWorkspace(ws);
      resources := resources[ws := resources[ws][o.resourceId := o]];
    }

    method Observe(d: DesiredState) returns (o: Option<ObservedState>)
      modifies this
      ensures observeFailure == old(observeFailure) && (o.None? <==> observeFailure)
      ensures o.Some? ==> o.value == ObservedBy(State(), d.workspaceId) == ObservedBy(old(State()), d.workspaceId)
      ensures State() == if observeFailure then old(State()) else Opened(old(State()), d.workspaceId)
    {
      if observeFailure { return None; }
      EnsureWorkspace(d.workspaceId);
      o := Some(ObservedState(d.workspaceId, TOPOLOGY, resources[d.workspaceId]));
    }

    method Ensure(d: DesiredState, r: ResourceSpec) returns (o: Option<Observation>)
      modifies this
      ensures State() == Ensured(old(State()), d.workspaceId, r)
      ensures o == if Budget(old(State()), r.id) > 0 then None else Some(StartedObservation(r))
    {
      ensureAttempts := ensureAttempts[r.id := (if r.id in ensureAttempts then ensureAttempts[r.id] else 0) + 1];
      var remaining := if r.id in ensureFailures then ensureFailures[r.id] else 0;
      if remaining > 0 {
        ensureFailures := ensureFailures[r.id := remaining - 1];
        return None;
      }
      var observation := Observation(r.id, true, true, r.ownership, OtherSession("fake"), r.desktopAppId);
      ghost var before := State();
      EnsureWorkspace(d.workspaceId);
      resources := resources[d.workspaceId := resources[d.workspaceId][r.id := observation]];
      PutOpened(before, d.workspaceId, r.id, observation);
      o := Some(observation);
    }

    method Close(d: DesiredState, r: ResourceSpec, observed: Observation)
      modifies this
      ensures State() == Closed(old(State()), d.workspaceId, r, observed)
    {
      if !r.ownership.Managed? || !observed.ownership.Managed? { return; }
      EnsureWorkspace(d.workspaceId);
      resources := resources[d.workspaceId := resources[d.workspaceId] - {r.id}];
    }
  }

  // ----- The reconciler's two operations -----

  function EnsureAll(f: Fake, ws: string, rs: seq<ResourceSpec>): Fake {
    if rs == [] then f else Ensured(EnsureAll(f, ws, rs[..|rs| - 1]), ws, rs[|rs| - 1])
  }

  function EnsureFailures(f: Fake, ws: string, rs: seq<ResourceSpec>): seq<Failure> {
    if rs == [] then []
    else
      var init, r := rs[..|rs| - 1], rs[|rs| - 1];
      EnsureFailures(f, ws, init) + if Budget(EnsureAll(f, ws, init), r.id) > 0 then [Failure(r.id, "ensure_failed")]
        else []
  }

  datatype Outcome = Refused(problem: Problem) | ObserveFailed | Reconciled(result: Result)

  function AfterReconcile(f: Fake, d: DesiredState): Fake {
    if !Valid(d) || f.observeFails then f
    else
      var ws := d.workspaceId;
      Opened(EnsureAll(Opened(f, ws), ws, PlanOf(d, ObservedBy(f, ws)).actions), ws)
  }

  method ReconcileOnce(desktop: Desktop, d: DesiredState) returns (r: Outcome)
    modifies desktop
    ensures desktop.State() == AfterReconcile(old(desktop.State()), d)
    ensures r.Refused? <==> !Valid(d)
    ensures r.ObserveFailed? <==> Valid(d) && old(desktop.observeFailure)
    ensures r.Reconciled? ==>
              var f, ws := old(desktop.State()), d.workspaceId;
              var after := ObservedBy(desktop.State(), ws);
              r.result == Result(after, EvaluationOf(d, after),
                                 EnsureFailures(Opened(f, ws), ws, PlanOf(d, ObservedBy(f, ws)).actions))
  {
    var ws := d.workspaceId;
    var problem := Validate(d);
    if problem.Some? { return Refused(problem.value); }
    var before := desktop.Observe(d);
    if before.None? { return ObserveFailed; }
    ghost var start := desktop.State();
    var plan := BuildReconcilePlan(d, before.value);
    var failures: seq<Failure> := [];
    for i := 0 to |plan.actions|
      invariant desktop.State() == EnsureAll(start, ws, plan.actions[..i])
      invariant failures == EnsureFailures(start, ws, plan.actions[..i])
      invariant !desktop.observeFailure
    {
      assert plan.actions[..i + 1][..i] == plan.actions[..i];
      var o := desktop.Ensure(d, plan.actions[i]);
      if o.None? { failures := failures + [Failure(plan.actions[i].id, "ensure_failed")]; }
    }
    assert plan.actions[..|plan.actions|] == plan.actions;
    var after := desktop.Observe(d);
    if after.None? { return ObserveFailed; }
    var e := EvaluateReconcile(d, after.value);
    r := Reconciled(Result(after.value, e, failures));
  }

  function CloseAll(f: Fake, ws: string, rs: seq<ResourceSpec>, o: Resources): Fake {
    if rs == [] then f
    else
      var g, r := CloseAll(f, ws, rs[..|rs| - 1], o), rs[|rs| - 1];
      if !r.ownership.Managed? || r.id !in o || !o[r.id].present then g else Closed(g, ws, r, o[r.id])
  }

  /** The fake desktop's Close never fails, so there are no failures to collect. */
  method CloseManaged(desktop: Desktop, d: DesiredState) returns (closed: bool)
    modifies desktop
    ensures closed <==> Valid(d) && !old(desktop.observeFailure)
    ensures desktop.State() ==
            if !closed then old(desktop.State())
            else
              var f, ws := old(desktop.State()), d.workspaceId;
              CloseAll(Opened(f, ws), ws, d.resources, ResourcesOf(f, ws))
  {
    var problem := Validate(d);
    if problem.Some? { return false; }
    var observed := desktop.Observe(d);
    if observed.None? { return false; }
    ghost var start := desktop.State();
    var o := observed.value.resources;
    for i := 0 to |d.resources|
      invariant desktop.State() == CloseAll(start, d.workspaceId, d.resources[..i], o)
    {
      assert d.resources[..i + 1][..i] == d.resources[..i];
      var r := d.resources[i];
      if !r.ownership.Managed? { continue; }
      if r.id !in o || !o[r.id].present { continue; }
      desktop.Close(d, r, o[r.id]);
    }
    assert d.resources[..|d.resources|] == d.resources;
    closed := true;
  }

  // ----- One reconcile, seen from one resource -----

  datatype View = View(reached: bool, budget: int, attempts: int)

  function ViewOf(f: Fake, ws: string, id: string): View {
    View(Reached(ObservedBy(f, ws), id), Budget(f, id), Attempts(f, id))
  }

  function Attempted(v: View): View {
    if v.budget > 0 then View(v.reached, v.budget - 1, v.attempts + 1) else View(true, v.budget, v.attempts + 1)
  }

  lemma EnsuredView(f: Fake, ws: string, r: ResourceSpec, id: string)
    ensures ViewOf(Ensured(f, ws, r), ws, id) == if id == r.id then Attempted(ViewOf(f, ws, id)) else ViewOf(f, ws, id)
  {
  }

  lemma {:induction false} EnsureAllView(f: Fake, ws: string, rs: seq<ResourceSpec>, id: string)
    requires DistinctIds(rs)
    ensures ViewOf(EnsureAll(f, ws, rs), ws, id) ==
            if id in Ids(rs) then Attempted(ViewOf(f, ws, id)) else ViewOf(f, ws, id)
  {
    if rs != [] {
      var n := |rs| - 1;
      EnsureAllView(f, ws, rs[..n], id);
      EnsuredView(EnsureAll(f, ws, rs[..n]), ws, rs[n], id);
      assert Ids(rs) == Ids(rs[..n]) + [rs[n].id];
      assert rs[n].id !in Ids(rs[..n]);
      hide ViewOf, Attempted, Ensured;
    }
  }

  lemma SortKeepsIdsDistinct(rs: seq<ResourceSpec>)
    requires DistinctIds(rs)
    ensures DistinctIds(Sort(ById, rs))
  {
    var s := Sort(ById, rs);
    NoDupPermutation(rs, s);
    MembersOfPermutation(rs, s);
    forall i, j | 0 <= i < j < |s| ensures s[i].id != s[j].id {
      assert s[i] in s && s[j] in s;
      var a :| 0 <= a < |rs| && rs[a] == s[i];
      var b :| 0 <= b < |rs| && rs[b] == s[j];
      assert s[i] != s[j];
    }
  }

  lemma {:induction false} PickKeepsIdsDistinct(o: ObservedState, g: Group, rs: seq<ResourceSpec>)
    requires DistinctIds(rs)
    ensures DistinctIds(Pick(o, g, rs))
  {
    if rs != [] {
      var n := |rs| - 1;
      PickKeepsIdsDistinct(o, g, rs[..n]);
      var p := Pick(o, g, rs[..n]);
      forall i | 0 <= i < |p| ensures p[i].id != rs[n].id {
        assert p[i] in rs[..n];
      }
    }
  }

  /** The definition lets HWS start the resource. */
  ghost predicate Startable(d: DesiredState, id: string) {
    exists r :: r in d.resources && r.id == id && !r.ownership.External?
  }

  lemma PlanMeaning(d: DesiredState, o: ObservedState, id: string)
    requires Valid(d)
    ensures DistinctIds(PlanOf(d, o).actions)
    ensures id in Ids(PlanOf(d, o).actions) <==> !Reached(o, id) && Startable(d, id)
  {
    var rs := Sort(ById, d.resources);
    SortKeepsIdsDistinct(d.resources);
    PickKeepsIdsDistinct(o, ToEnsure, rs);
    MembersOfPermutation(d.resources, rs);
    var actions := PlanOf(d, o).actions;
    hide Reached;
    if id in Ids(actions) {
      var i :| 0 <= i < |Ids(actions)| && Ids(actions)[i] == id;
      assert actions[i] in rs;
    }
    if !Reached(o, id) && Startable(d, id) {
      var r :| r in d.resources && r.id == id && !r.ownership.External?;
      assert r in actions;
      var i :| 0 <= i < |actions| && actions[i] == r;
      assert Ids(actions)[i] == id;
    }
  }

  predicate Observes(f: Fake, d: DesiredState) {
    Valid(d) && !f.observeFails
  }

  lemma {:induction false} EnsureAllObserves(f: Fake, ws: string, rs: seq<ResourceSpec>)
    ensures EnsureAll(f, ws, rs).observeFails == f.observeFails
  {
    if rs != [] { EnsureAllObserves(f, ws, rs[..|rs| - 1]); }
  }

  /** A reconcile attempts exactly the resources that are not reached and may be started, once each. */
  lemma RoundView(f: Fake, d: DesiredState, id: string)
    requires Observes(f, d)
    ensures
      var v := ViewOf(f, d.workspaceId, id);
      ViewOf(AfterReconcile(f, d), d.workspaceId, id) == if !v.reached && Startable(d, id) then Attempted(v) else v
    ensures Observes(AfterReconcile(f, d), d)
  {
    var ws := d.workspaceId;
    var o := ObservedBy(f, ws);
    PlanMeaning(d, o, id);
    EnsureAllView(Opened(f, ws), ws, PlanOf(d, o).actions, id);
    EnsureAllObserves(Opened(f, ws), ws, PlanOf(d, o).actions);
    hide EnsureAll, PlanOf, Attempted, Startable, Valid;
  }

  // ----- Many reconciles -----

  function Rounds(f: Fake, d: DesiredState, n: nat): Fake {
    if n == 0 then f else AfterReconcile(Rounds(f, d, n - 1), d)
  }

  function Failing(v: View): nat { if v.budget > 0 then v.budget else 0 }

  /** The view after n attempts-until-reached: closed form. */
  function ViewAfter(v: View, n: nat): View {
    var k := Failing(v);
    if n <= k then View(false, v.budget - n, v.attempts + n) else View(true, v.budget - k, v.attempts + k + 1)
  }

  /** The view after n reconciles of a resource that may (`starts`) or may not be started. */
  function ViewAt(v: View, starts: bool, n: nat): View {
    if !v.reached && starts then ViewAfter(v, n) else v
  }

  lemma ViewAtStep(v: View, starts: bool, n: nat)
    ensures ViewAt(v, starts, 0) == v
    ensures ViewAt(v, starts, n + 1) ==
            if !ViewAt(v, starts, n).reached && starts then Attempted(ViewAt(v, starts, n)) else ViewAt(v, starts, n)
  {
  }

  lemma {:induction false} RoundsView(f: Fake, d: DesiredState, n: nat, id: string)
    requires Observes(f, d)
    ensures ViewOf(Rounds(f, d, n), d.workspaceId, id) == ViewAt(ViewOf(f, d.workspaceId, id), Startable(d, id), n)
    ensures Observes(Rounds(f, d, n), d)
  {
    hide ViewOf, ViewAt, Attempted, Startable, AfterReconcile, Observes;
    ViewAtStep(ViewOf(f, d.workspaceId, id), Startable(d, id), if n > 0 then n - 1 else 0);
    if n > 0 {
      RoundsView(f, d, n - 1, id);
      RoundView(Rounds(f, d, n - 1), d, id);
    }
  }

  /** A resource with failure budget b that is not there yet is ensured exactly b + 1 times, however many
      further reconciles run, and is reached from the (b + 1)-st reconcile on. */
  lemma EnsuredExactlyBudgetPlusOne(f: Fake, d: DesiredState, r: ResourceSpec, n: nat)
    requires Observes(f, d) && r in d.resources && !r.ownership.External?
    requires !Reached(ObservedBy(f, d.workspaceId), r.id)
    ensures
      var b: nat := if Budget(f, r.id) > 0 then Budget(f, r.id) else 0;
      && Attempts(Rounds(f, d, n), r.id) == Attempts(f, r.id) + (if n <= b then n else b + 1)
      && (Reached(ObservedBy(Rounds(f, d, n), d.workspaceId), r.id) <==> n >= b + 1)
  {
    RoundsView(f, d, n, r.id);
    hide Rounds, Reached;
  }

  predicate WaitsFor(f: Fake, ws: string, r: ResourceSpec) {
    r.required && !r.ownership.External? && !Reached(ObservedBy(f, ws), r.id)
  }

  /** The largest failure budget among the resources the workspace waits for; -1 if it waits for none. */
  function MaxBudget(f: Fake, ws: string, rs: seq<ResourceSpec>): int {
    if rs == [] then -1
    else
      var rest, r := MaxBudget(f, ws, rs[..|rs| - 1]), rs[|rs| - 1];
      var b := if Budget(f, r.id) > 0 then Budget(f, r.id) else 0;
      if WaitsFor(f, ws, r) && b > rest then b else rest
  }

  ghost predicate Exceeds(f: Fake, ws: string, rs: seq<ResourceSpec>, n: nat) {
    forall r :: r in rs && WaitsFor(f, ws, r) ==> n > Failing(ViewOf(f, ws, r.id))
  }

  lemma {:induction false} MaxBudgetMeaning(f: Fake, ws: string, rs: seq<ResourceSpec>, n: nat)
    ensures n > MaxBudget(f, ws, rs) <==> Exceeds(f, ws, rs, n)
  {
    if rs != [] {
      var m := |rs| - 1;
      MaxBudgetMeaning(f, ws, rs[..m], n);
      assert rs == rs[..m] + [rs[m]];
      assert forall r :: r in rs <==> r in rs[..m] || r == rs[m];
      hide WaitsFor;
    }
  }

  ghost predicate MissesExternal(f: Fake, d: DesiredState) {
    exists r :: r in d.resources && r.required && r.ownership.External? && !Reached(ObservedBy(f, d.workspaceId), r.id)
  }

  lemma ReachedAfter(f: Fake, d: DesiredState, n: nat, r: ResourceSpec)
    requires Observes(f, d) && r in d.resources
    ensures Reached(ObservedBy(Rounds(f, d, n), d.workspaceId), r.id) <==>
            Reached(ObservedBy(f, d.workspaceId), r.id) ||
            (!r.ownership.External? && n > Failing(ViewOf(f, d.workspaceId, r.id)))
  {
    RoundsView(f, d, n, r.id);
    assert Startable(d, r.id) <==> !r.ownership.External? by {
      if Startable(d, r.id) {
        var q :| q in d.resources && q.id == r.id && !q.ownership.External?;
        assert q == r;
      }
    }
    hide Rounds, Reached, Startable;
  }

  lemma AllReachedAfter(f: Fake, d: DesiredState, n: nat)
    requires Observes(f, d)
    ensures AllRequiredReached(d.resources, ObservedBy(Rounds(f, d, n), d.workspaceId)) <==>
            !MissesExternal(f, d) && Exceeds(f, d.workspaceId, d.resources, n)
  {
    forall r | r in d.resources
      ensures Reached(ObservedBy(Rounds(f, d, n), d.workspaceId), r.id) <==>
              Reached(ObservedBy(f, d.workspaceId), r.id) ||
              (!r.ownership.External? && n > Failing(ViewOf(f, d.workspaceId, r.id)))
    {
      ReachedAfter(f, d, n, r);
    }
    hide Reached, Rounds, Failing;
  }

  /** Let k be the largest failure budget among the required resources that HWS may start and that are
      not reached.  The n-th reconcile (n > 0) reports the workspace active exactly when no required
      external resource is missing and n >= k + 1. */
  lemma ActiveExactlyAfterBudget(f: Fake, d: DesiredState, n: nat)
    requires Observes(f, d)
    ensures TargetStatus(EvaluationOf(d, ObservedBy(Rounds(f, d, n), d.workspaceId))) == Active <==>
            !MissesExternal(f, d) && n >= MaxBudget(f, d.workspaceId, d.resources) + 1
  {
    AllReachedAfter(f, d, n);
    StatusMeaning(d, ObservedBy(Rounds(f, d, n), d.workspaceId));
    MaxBudgetMeaning(f, d.workspaceId, d.resources, n);
    hide AllRequiredReached, MissesExternal, Exceeds, Rounds, MaxBudget, EvaluationOf, TargetStatus;
  }

  // ----- Closing -----

  /** What closing takes away: managed in the definition, and observed present and managed. */
  ghost predicate Closable(rs: seq<ResourceSpec>, o: Resources, id: string) {
    && id in o && o[id].present && o[id].ownership.Managed?
    && exists r :: r in rs && r.id == id && r.ownership.Managed?
  }

  /** `g` is `f` without the resources of `ws` that `gone` names. */
  ghost predicate Lost(f: Fake, g: Fake, ws: string, gone: set<string>) {
    && g == f.(resources := g.resources)
    && ResourcesOf(g, ws) == ResourcesOf(f, ws) - gone
    && (forall other :: other != ws ==> ResourcesOf(g, other) == ResourcesOf(f, other))
  }

  lemma LostMore(f: Fake, g: Fake, h: Fake, ws: string, a: set<string>, b: set<string>)
    requires Lost(f, g, ws, a) && Lost(g, h, ws, b)
    ensures Lost(f, h, ws, a + b)
  {
    hide ResourcesOf;
  }

  lemma ClosedLoses(f: Fake, ws: string, r: ResourceSpec, o: Observation)
    requires r.ownership.Managed? && o.ownership.Managed?
    ensures Lost(f, Closed(f, ws, r, o), ws, {r.id})
  {
  }

  ghost function Leaving(rs: seq<ResourceSpec>, o: Resources): set<string> {
    set id | id in o && Closable(rs, o, id)
  }

  lemma LeavingNext(rs: seq<ResourceSpec>, r: ResourceSpec, o: Resources)
    ensures Leaving(rs + [r], o) ==
            Leaving(rs, o) + if r.ownership.Managed? && r.id in o && o[r.id].present && o[r.id].ownership.Managed?
              then {r.id} else {}
  {
    assert forall q :: q in rs + [r] <==> q in rs || q == r;
  }

  lemma {:induction false} CloseAllLoses(f: Fake, ws: string, rs: seq<ResourceSpec>, o: Resources)
    ensures Lost(f, CloseAll(f, ws, rs, o), ws, Leaving(rs, o))
  {
    hide Lost, Leaving, Closed;
    if rs == [] {
      NothingLost(f, ws, o);
    } else {
      var m := |rs| - 1;
      var g, r := CloseAll(f, ws, rs[..m], o), rs[m];
      CloseAllLoses(f, ws, rs[..m], o);
      assert rs == rs[..m] + [r];
      LeavingNext(rs[..m], r, o);
      if r.ownership.Managed? && r.id in o && o[r.id].present && o[r.id].ownership.Managed? {
        ClosedLoses(g, ws, r, o[r.id]);
        LostMore(f, g, Closed(g, ws, r, o[r.id]), ws, Leaving(rs[..m], o), {r.id});
      } else {
        if r.id in o && !o[r.id].ownership.Managed? { NotClosed(g, ws, r, o); }
        assert Leaving(rs[..m], o) + {} == Leaving(rs[..m], o);
      }
    }
  }

  lemma NothingLost(f: Fake, ws: string, o: Resources)
    ensures Lost(f, f, ws, Leaving([], o))
  {
  }

  lemma NotClosed(f: Fake, ws: string, r: ResourceSpec, o: Resources)
    requires r.id in o && !o[r.id].ownership.Managed?
    ensures Closed(f, ws, r, o[r.id]) == f
  {
  }

  lemma CloseAllMeaning(f: Fake, ws: string, rs: seq<ResourceSpec>, o: Resources)
    ensures
      var g := CloseAll(f, ws, rs, o);
      && g == f.(resources := g.resources)
      && (forall id :: id in ResourcesOf(g, ws) <==> id in ResourcesOf(f, ws) && !Closable(rs, o, id))
      && (forall id :: id in ResourcesOf(g, ws) ==> ResourcesOf(g, ws)[id] == ResourcesOf(f, ws)[id])
      && (forall other :: other != ws ==> ResourcesOf(g, other) == ResourcesOf(f, other))
  {
    hide CloseAll, ResourcesOf;
    CloseAllLoses(f, ws, rs, o);
  }

  /** Closing a workspace removes exactly the resources that the definition manages and that were observed
      as present and managed; adopted and external ones, other workspaces, budgets and attempts stay. */
  lemma CloseIsExact(f: Fake, d: DesiredState)
    ensures
      var g := CloseAll(Opened(f, d.workspaceId), d.workspaceId, d.resources, ResourcesOf(f, d.workspaceId));
      && (forall id :: id in ResourcesOf(g, d.workspaceId) <==>
                       id in ResourcesOf(f, d.workspaceId) && !Closable(d.resources, ResourcesOf(f, d.workspaceId), id))
      && (forall id :: id in ResourcesOf(g, d.workspaceId) ==>
                       ResourcesOf(g, d.workspaceId)[id] == ResourcesOf(f, d.workspaceId)[id])
      && (forall other :: other != d.workspaceId ==> ResourcesOf(g, other) == ResourcesOf(f, other))
      && g.failures == f.failures && g.attempts == f.attempts
  {
    CloseAllMeaning(Opened(f, d.workspaceId), d.workspaceId, d.resources, ResourcesOf(f, d.workspaceId));
  }

  /** Reconciling one workspace leaves what is observed of every other one as it was. */
  lemma OtherWorkspacesUntouched(f: Fake, d: DesiredState, ws: string)
    requires ws != d.workspaceId
    ensures ResourcesOf(AfterReconcile(f, d), ws) == ResourcesOf(f, ws)
  {
    EnsureAllFrame(Opened(f, d.workspaceId), d.workspaceId, PlanOf(d, ObservedBy(f, d.workspaceId)).actions, ws);
  }

  lemma {:induction false} EnsureAllFrame(f: Fake, ws: string, rs: seq<ResourceSpec>, other: string)
    requires other != ws
    ensures ResourcesOf(EnsureAll(f, ws, rs), other) == ResourcesOf(f, other)
  {
    if rs != [] { EnsureAllFrame(f, ws, rs[..|rs| - 1], other); }
  }
}
