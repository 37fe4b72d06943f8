/** The GNOME Shell desktop adapter (internal/adapters/shelldesktop/desktop.go) under the reconciler
    (internal/application/reconcile/reconciler.go): which windows HWS may close.

    Everything the shell does is a parameter: the views the adapter reads and the replies to its
    requests.  A polling loop is given the views it sees before its context ends.  A history (`log`) of
    requests and outcomes is kept beside the adapter's `managed` map. */
module ShellDesktop {
  import Text
  import opened Sorting
  import opened Wrappers
  import opened Workspace
  import opened Reconcile
  import opened Placement

  datatype App = App(appId: string, desktopAppId: string, windows: seq<string>)

  datatype ShellApp = ShellApp(appId: string, desktopAppId: string, windows: seq<Window>)

  /** One look at the surface reader. */
  datatype View = View(surfaces: seq<App>, topology: Topology, apps: seq<ShellApp>)

  /** A resource of a workspace. */
  type Key = (string, string)

  datatype Reply = Reply(success: bool, changed: bool) | NoReply

  datatype Event =
    | EnsureReplied(key: Key, app: string, managed: bool, reply: Reply)
    | PlaceRequested(key: Key, window: string)
    | CloseRequested(key: Key, app: string, window: string)
    | CloseCompleted(key: Key)

  datatype Desk = Desk(managed: set<Key>, log: seq<Event>)

  const NEW_DESK: Desk := Desk({}, [])

  // ----- Observing -----

  function FindApplication(apps: seq<App>, id: string): Option<App> {
    if apps == [] then None
    else if apps[0].desktopAppId == id || apps[0].appId == id then Some(apps[0])
    else FindApplication(apps[1..], id)
  }

  function FindShellApplication(apps: seq<ShellApp>, id: string): Option<ShellApp> {
    if apps == [] then None
    else if apps[0].desktopAppId == id || apps[0].appId == id then Some(apps[0])
    else FindShellApplication(apps[1..], id)
  }

  predicate ByWindowId(a: Window, b: Window) {
    Text.Leq(a.id, b.id)
  }

  function AnchorWindow(v: View, id: string): Option<Window> {
    match FindShellApplication(v.apps, id)
    case None => None
    case Some(app) => if app.windows == [] then None else Some(Sort(ByWindowId, app.windows)[0])
  }

  predicate PlacementSeen(v: View, r: ResourceSpec) {
    match Resolve(r.placement, v.topology)
    case Err(_) => false
    case Ok(target) =>
      var w := AnchorWindow(v, r.desktopAppId);
      w.Some? && PlacementReached(target, w.value, v.topology.revision)
  }

  function Observed(managed: set<Key>, ws: string, r: ResourceSpec, v: View): Option<Observation> {
    if !r.kind.DesktopApp? then None
    else
      match FindApplication(v.surfaces, r.desktopAppId)
      case None => None
      case Some(app) =>
        var ownership := if r.ownership.Managed? && (ws, r.id) !in managed then Adopted else r.ownership;
        var ready := if r.placement.None? then app.windows != [] else PlacementSeen(v, r);
        Some(Observation(r.id, true, ready, ownership, WindowIds(app.windows), app.appId))
  }

  function ObservedAll(managed: set<Key>, ws: string, rs: seq<ResourceSpec>, v: View): map<string, Observation> {
    if rs == [] then map[]
    else
      var m, r := ObservedAll(managed, ws, rs[..|rs| - 1], v), rs[|rs| - 1];
      match Observed(managed, ws, r, v)
      case None => m
      case Some(o) => m[r.id := o]
  }

  function StateSeen(managed: set<Key>, d: DesiredState, v: View): ObservedState {
    ObservedState(d.workspaceId, v.topology.revision, ObservedAll(managed, d.workspaceId, d.resources, v))
  }

  // ----- Waiting -----

  predicate PresentIn(v: View, id: string) {
    FindApplication(v.surfaces, id).Some? && FindApplication(v.surfaces, id).value.windows != []
  }

  predicate WaitPresent(polls: seq<View>, id: string) {
    exists i :: 0 <= i < |polls| && PresentIn(polls[i], id)
  }

  /** The observation that ends the wait, unless the topology changes or the context ends first. */
  function WaitReady(managed: set<Key>, d: DesiredState, id: string, topology: string,
                     polls: seq<View>): Option<Observation>
  {
    if polls == [] then None
    else
      var o := StateSeen(managed, d, polls[0]);
      if topology != "" && o.topologyRevision != topology then None
      else if Reached(o, id) then Some(o.resources[id])
      else WaitReady(managed, d, id, topology, polls[1..])
  }

  predicate AbsentIn(v: View, id: string, windows: seq<string>) {
    FindApplication(v.surfaces, id).None? ||
    forall w :: w in FindApplication(v.surfaces, id).value.windows ==> w !in windows
  }

  predicate WaitAbsent(polls: seq<View>, id: string, windows: seq<string>) {
    windows == [] || exists i :: 0 <= i < |polls| && AbsentIn(polls[i], id, windows)
  }

  // ----- Ensuring and closing -----

  datatype EnsureAnswers = EnsureAnswers(
    reply: Reply, present: seq<View>, placing: View, placeReply: Reply, placed: seq<View>, ready: seq<View>)

  datatype CloseAnswers = CloseAnswers(replies: nat -> Reply, absent: seq<View>)

  /** The window to place, if the placement resolves, a window is there, and it is not in place. */
  function ToPlace(r: ResourceSpec, v: View): Option<(ResolvedPlacement, Window)> {
    match Resolve(r.placement, v.topology)
    case Err(_) => None
    case Ok(target) =>
      match AnchorWindow(v, r.desktopAppId)
      case None => None
      case Some(w) => if PlacementReached(target, w, v.topology.revision) then None else Some((target, w))
  }

  function PlaceEvents(ws: string, r: ResourceSpec, v: View): (events: seq<Event>)
    ensures events == [] || (|events| == 1 && events[0].PlaceRequested?)
  {
    if ToPlace(r, v).None? then [] else [PlaceRequested((ws, r.id), ToPlace(r, v).value.1.id)]
  }

  /** What follows the reply: a placement once the application is present. */
  function Placing(ws: string, r: ResourceSpec, a: EnsureAnswers): (events: seq<Event>)
    ensures events == [] || (|events| == 1 && events[0].PlaceRequested?)
  {
    if Accepted(a.reply) && WaitPresent(a.present, r.desktopAppId) && r.placement.Some?
      then PlaceEvents(ws, r, a.placing)
    else []
  }

  predicate Launches(e: Event, k: Key) {
    e.EnsureReplied? && e.key == k && e.managed && e.reply.Reply? && e.reply.success && e.reply.changed
  }

  function EnsureDesk(s: Desk, ws: string, r: ResourceSpec, a: EnsureAnswers): Desk {
    if !r.kind.DesktopApp? then s
    else
      var k := (ws, r.id);
      var e := EnsureReplied(k, r.desktopAppId, r.ownership.Managed?, a.reply);
      Desk(if Launches(e, k) then s.managed + {k} else s.managed, s.log + [e] + Placing(ws, r, a))
  }

  /** ensurePlacement succeeds: in place already, or an accepted request and then seen in place. */
  predicate PlacedOk(managed: set<Key>, d: DesiredState, r: ResourceSpec, a: EnsureAnswers) {
    match Resolve(r.placement, a.placing.topology)
    case Err(_) => false
    case Ok(target) =>
      match AnchorWindow(a.placing, r.desktopAppId)
      case None => false
      case Some(w) =>
        PlacementReached(target, w, a.placing.topology.revision) ||
        (Accepted(a.placeReply) && WaitReady(managed, d, r.id, target.topologyRevision, a.placed).Some?)
  }

  /** What Ensure returns, given the evidence it leaves. */
  function EnsureResult(managed: set<Key>, d: DesiredState, r: ResourceSpec, a: EnsureAnswers): Option<Observation> {
    if !r.kind.DesktopApp? || !Accepted(a.reply) || !WaitPresent(a.present, r.desktopAppId) then None
    else if r.placement.Some? && !PlacedOk(managed, d, r, a) then None
    else WaitReady(managed, d, r.id, "", a.ready)
  }

  predicate Accepted(reply: Reply) {
    reply.Reply? && reply.success
  }

  /** How many close requests are issued, from the i-th on: they stop at the first one not accepted. */
  function Issued(n: nat, replies: nat -> Reply, i: nat): (k: nat)
    requires i <= n
    ensures i <= k <= n
    decreases n - i
  {
    if i == n then n else if Accepted(replies(i)) then Issued(n, replies, i + 1) else i + 1
  }

  predicate AllAccepted(n: nat, replies: nat -> Reply) {
    forall i: nat :: i < n ==> Accepted(replies(i))
  }

  function Requests(k: Key, app: string, windows: seq<string>, n: nat): seq<Event>
    requires n <= |windows|
  {
    seq(n, i requires 0 <= i < n => CloseRequested(k, app, windows[i]))
  }

  function Windows(o: Observation): seq<string> {
    match o.session case WindowIds(ids) => ids case _ => []
  }

  /** The close goes ahead: a desktop application that the definition manages, observed as managed, with a
      readable window list. */
  predicate Closes(r: ResourceSpec, o: Observation) {
    r.kind.DesktopApp? && r.ownership.Managed? && o.ownership.Managed? && !o.session.OtherSession?
  }

  predicate Converges(r: ResourceSpec, o: Observation, a: CloseAnswers) {
    AllAccepted(|Windows(o)|, a.replies) && WaitAbsent(a.absent, r.desktopAppId, Windows(o))
  }

  function CloseDesk(s: Desk, ws: string, r: ResourceSpec, o: Observation, a: CloseAnswers): Desk {
    if !Closes(r, o) then s
    else
      var k, windows := (ws, r.id), Windows(o);
      var log := s.log + Requests(k, r.desktopAppId, windows, Issued(|windows|, a.replies, 0));
      if Converges(r, o, a) then Desk(s.managed - {k}, log + [CloseCompleted(k)]) else Desk(s.managed, log)
  }

  lemma {:induction false} AcceptedIssuesAll(n: nat, replies: nat -> Reply, i: nat)
    requires i <= n && forall j: nat :: i <= j < n ==> Accepted(replies(j))
    ensures Issued(n, replies, i) == n
    decreases n - i
  {
    if i < n { AcceptedIssuesAll(n, replies, i + 1); }
  }

  lemma {:induction false} RejectedStops(n: nat, replies: nat -> Reply, i: nat, at: nat)
    requires i <= at < n && !Accepted(replies(at)) && forall j: nat :: i <= j < at ==> Accepted(replies(j))
    ensures Issued(n, replies, i) == at + 1
    decreases at - i
  {
    if i < at { RejectedStops(n, replies, i + 1, at); }
  }

  class Desktop {
    var managed: set<Key>
    ghost var log: seq<Event>

    ghost function State(): Desk
      reads this
    {
      Desk(managed, log)
    }

    constructor ()
      ensures State() == NEW_DESK
    {
      managed, log := {}, [];
    }

    method Observe(d: DesiredState, v: View) returns (o: ObservedState)
      ensures o == StateSeen(managed, d, v)
    {
      hide Resolve, AnchorWindow, PlacementReached, FindApplication, Near;
      var resources: map<string, Observation> := map[];
      for i := 0 to |d.resources|
        invariant resources == ObservedAll(managed, d.workspaceId, d.resources[..i], v)
      {
        assert d.resources[..i + 1][..i] == d.resources[..i];
        var r := d.resources[i];
        if !r.kind.DesktopApp? { continue; }
        var app := FindApplication(v.surfaces, r.desktopAppId);
        if app.None? { continue; }
        var ownership := r.ownership;
        if r.ownership.Managed? && (d.workspaceId, r.id) !in managed { ownership := Adopted; }
        var ready := |app.value.windows| > 0;
        if r.placement.Some? {
          ready := false;
          var target := ResolvePlacement(r.placement, v.topology);
          var w := AnchorWindow(v, r.desktopAppId);
          if target.Ok? && w.Some? { ready := PlacementReached(target.value, w.value, v.topology.revision); }
        }
        resources := resources[r.id := Observation(r.id, true, ready, ownership, WindowIds(app.value.windows),
                                                   app.value.appId)];
      }
      assert d.resources[..|d.resources|] == d.resources;
      o := ObservedState(d.workspaceId, v.topology.revision, resources);
    }

    method PollPresent(polls: seq<View>, id: string) returns (seen: bool)
      ensures seen == WaitPresent(polls, id)
    {
      for i := 0 to |polls|
        invariant forall j :: 0 <= j < i ==> !PresentIn(polls[j], id)
      {
        if PresentIn(polls[i], id) { return true; }
      }
      return false;
    }

    method PollReady(d: DesiredState, id: string, topology: string, polls: seq<View>) returns (o: Option<Observation>)
      ensures o == WaitReady(managed, d, id, topology, polls)
    {
      for i := 0 to |polls|
        invariant WaitReady(managed, d, id, topology, polls) == WaitReady(managed, d, id, topology, polls[i..])
      {
        var seen := Observe(d, polls[i]);
        if topology != "" && seen.topologyRevision != topology { return None; }
        if Reached(seen, id) { return Some(seen.resources[id]); }
      }
      return None;
    }

    method PollAbsent(polls: seq<View>, id: string, windows: seq<string>) returns (gone: bool)
      ensures gone == WaitAbsent(polls, id, windows)
    {
      if |windows| == 0 { return true; }
      for i := 0 to |polls|
        invariant forall j :: 0 <= j < i ==> !AbsentIn(polls[j], id, windows)
      {
        if AbsentIn(polls[i], id, windows) { return true; }
      }
      return false;
    }

    method EnsurePlacement(d: DesiredState, r: ResourceSpec, a: EnsureAnswers) returns (ok: bool)
      modifies `log
      ensures log == old(log) + PlaceEvents(d.workspaceId, r, a.placing)
      ensures ok == PlacedOk(managed, d, r, a)
    {
      hide Resolve, AnchorWindow, PlacementReached, WaitReady;
      var target := ResolvePlacement(r.placement, a.placing.topology);
      if target.Err? { return false; }
      var w := AnchorWindow(a.placing, r.desktopAppId);
      if w.None? { return false; }
      if PlacementReached(target.value, w.value, a.placing.topology.revision) { return true; }
      log := log + [PlaceRequested((d.workspaceId, r.id), w.value.id)];
      if !Accepted(a.placeReply) { return false; }
      var o := PollReady(d, r.id, target.value.topologyRevision, a.placed);
      ok := o.Some?;
    }

    method Ensure(d: DesiredState, r: ResourceSpec, a: EnsureAnswers) returns (o: Option<Observation>)
      modifies this
      ensures State() == EnsureDesk(old(State()), d.workspaceId, r, a)
      ensures o == EnsureResult(managed, d, r, a)
    {
      hide PlaceEvents, WaitPresent, WaitReady, PlacedOk;
      if !r.kind.DesktopApp? { return None; }
      var k := (d.workspaceId, r.id);
      log := log + [EnsureReplied(k, r.desktopAppId, r.ownership.Managed?, a.reply)];
      if !Accepted(a.reply) { return None; }
      if a.reply.changed && r.ownership.Managed? { managed := managed + {k}; }
      var present := PollPresent(a.present, r.desktopAppId);
      if !present { return None; }
      if r.placement.Some? {
        var ok := EnsurePlacement(d, r, a);
        if !ok { return None; }
      }
      o := PollReady(d, r.id, "", a.ready);
    }

    method Close(d: DesiredState, r: ResourceSpec, o: Observation, a: CloseAnswers) returns (ok: bool)
      modifies this
      ensures State() == CloseDesk(old(State()), d.workspaceId, r, o, a)
      ensures ok <==> CloseOk(r, o, a)
    {
      if !r.kind.DesktopApp? { return false; }
      if !r.ownership.Managed? || !o.ownership.Managed? { return true; }
      if o.session.OtherSession? { return false; }
      var k, windows := (d.workspaceId, r.id), Windows(o);
      for i := 0 to |windows|
        invariant managed == old(managed) && log == old(log) + Requests(k, r.desktopAppId, windows, i)
        invariant forall j: nat :: j < i ==> Accepted(a.replies(j))
      {
        log := log + [CloseRequested(k, r.desktopAppId, windows[i])];
        assert Requests(k, r.desktopAppId, windows, i + 1) ==
               Requests(k, r.desktopAppId, windows, i) + [CloseRequested(k, r.desktopAppId, windows[i])];
        if !Accepted(a.replies(i)) {
          RejectedStops(|windows|, a.replies, 0, i);
          return false;
        }
      }
      AcceptedIssuesAll(|windows|, a.replies, 0);
      var gone := PollAbsent(a.absent, r.desktopAppId, windows);
      if !gone { return false; }
      managed := managed - {k};
      log := log + [CloseCompleted(k)];
      ok := true;
    }
  }

  /** An Ensure that returns an observation returns one of a present and ready resource. */
  lemma EnsuredIsReady(managed: set<Key>, d: DesiredState, r: ResourceSpec, a: EnsureAnswers)
    ensures EnsureResult(managed, d, r, a).Some? ==>
              EnsureResult(managed, d, r, a).value.present && EnsureResult(managed, d, r, a).value.ready
  {
    hide WaitReady, PlacedOk, WaitPresent;
    ReadyIsReady(managed, d, r.id, "", a.ready);
  }

  lemma {:induction false} ReadyIsReady(managed: set<Key>, d: DesiredState, id: string, topology: string,
                                        polls: seq<View>)
    ensures
      var o := WaitReady(managed, d, id, topology, polls);
      o.Some? ==> o.value.present && o.value.ready
  {
    if polls != [] { ReadyIsReady(managed, d, id, topology, polls[1..]); }
  }

  // ----- The reconciler's two operations -----

  datatype Operation =
    | ReconcileOp(d: DesiredState, before: View, answers: nat -> EnsureAnswers)
    | CloseOp(d: DesiredState, view: View, results: nat -> CloseAnswers)

  function EnsureAll(s: Desk, ws: string, rs: seq<ResourceSpec>, answers: nat -> EnsureAnswers): Desk {
    if rs == [] then s
    else EnsureDesk(EnsureAll(s, ws, rs[..|rs| - 1], answers), ws, rs[|rs| - 1], answers(|rs| - 1))
  }

  function EnsureFailures(s: Desk, d: DesiredState, rs: seq<ResourceSpec>, answers: nat -> EnsureAnswers): seq<Failure>
  {
    if rs == [] then []
    else
      var n := |rs| - 1;
      var after := EnsureAll(s, d.workspaceId, rs, answers);
      EnsureFailures(s, d, rs[..n], answers) +
      if EnsureResult(after.managed, d, rs[n], answers(n)).None? then [Failure(rs[n].id, "ensure_failed")] else []
  }

  /** Close returns no error. */
  predicate CloseOk(r: ResourceSpec, o: Observation, a: CloseAnswers) {
    r.kind.DesktopApp? && (!r.ownership.Managed? || !o.ownership.Managed? || (Closes(r, o) && Converges(r, o, a)))
  }

  function CloseFailures(rs: seq<ResourceSpec>, o: map<string, Observation>, answers: nat -> CloseAnswers): seq<Failure>
  {
    if rs == [] then []
    else
      var n := |rs| - 1;
      CloseFailures(rs[..n], o, answers) +
      if Wanted(rs[n], o) && !CloseOk(rs[n], o[rs[n].id], answers(n)) then [Failure(rs[n].id, "close_failed")] else []
  }

  predicate Wanted(r: ResourceSpec, o: map<string, Observation>) {
    r.ownership.Managed? && r.id in o && o[r.id].present
  }

  function CloseAll(s: Desk, ws: string, rs: seq<ResourceSpec>, o: map<string, Observation>,
                    answers: nat -> CloseAnswers): Desk
  {
    if rs == [] then s
    else
      var t, r := CloseAll(s, ws, rs[..|rs| - 1], o, answers), rs[|rs| - 1];
      if Wanted(r, o) then CloseDesk(t, ws, r, o[r.id], answers(|rs| - 1)) else t
  }

  function Step(s: Desk, op: Operation): Desk {
    var d := op.d;
    if !Valid(d) then s
    else
      match op
      case ReconcileOp(_, before, answers) =>
        EnsureAll(s, d.workspaceId, PlanOf(d, StateSeen(s.managed, d, before)).actions, answers)
      case CloseOp(_, view, answers) =>
        CloseAll(s, d.workspaceId, d.resources, StateSeen(s.managed, d, view).resources, answers)
  }

  method ReconcileOnce(desktop: Desktop, d: DesiredState, before: View, answers: nat -> EnsureAnswers, after: View)
    returns (r: Option<Result>)
    modifies desktop
    ensures desktop.State() == Step(old(desktop.State()), ReconcileOp(d, before, answers))
    ensures r.Some? <==> Valid(d)
    ensures r.Some? ==>
              var final := StateSeen(desktop.managed, d, after);
              var plan := PlanOf(d, StateSeen(old(desktop.managed), d, before));
              r.value == Result(final, EvaluationOf(d, final),
                                EnsureFailures(old(desktop.State()), d, plan.actions, answers))
  {
    hide Valid, EnsureDesk, EnsureResult, ObservedAll, EvaluationOf, PlanOf;
    var problem := Validate(d);
    if problem.Some? { return None; }
    var seen := desktop.Observe(d, before);
    var plan := BuildReconcilePlan(d, seen);
    var failures: seq<Failure> := [];
    for i := 0 to |plan.actions|
      invariant desktop.State() == EnsureAll(old(desktop.State()), d.workspaceId, plan.actions[..i], answers)
      invariant failures == EnsureFailures(old(desktop.State()), d, plan.actions[..i], answers)
    {
      assert plan.actions[..i + 1][..i] == plan.actions[..i];
      var o := desktop.Ensure(d, plan.actions[i], answers(i));
      if o.None? { failures := failures + [Failure(plan.actions[i].id, "ensure_failed")]; }
    }
    assert plan.actions[..|plan.actions|] == plan.actions;
    var final := desktop.Observe(d, after);
    var e := EvaluateReconcile(d, final);
    r := Some(Result(final, e, failures));
  }

  method CloseManaged(desktop: Desktop, d: DesiredState, view: View, answers: nat -> CloseAnswers)
    returns (r: Option<seq<Failure>>)
    modifies desktop
    ensures desktop.State() == Step(old(desktop.State()), CloseOp(d, view, answers))
    ensures r.Some? <==> Valid(d)
    ensures r.Some? ==> r.value == CloseFailures(d.resources, StateSeen(old(desktop.managed), d, view).resources,
                                                 answers)
  {
    hide Valid, CloseDesk, ObservedAll, CloseOk;
    var problem := Validate(d);
    if problem.Some? { return None; }
    var seen := desktop.Observe(d, view);
    var failures: seq<Failure> := [];
    for i := 0 to |d.resources|
      invariant desktop.State() == CloseAll(old(desktop.State()), d.workspaceId, d.resources[..i], seen.resources,
                                            answers)
      invariant failures == CloseFailures(d.resources[..i], seen.resources, answers)
    {
      assert d.resources[..i + 1][..i] == d.resources[..i];
      var r := d.resources[i];
      if !r.ownership.Managed? { continue; }
      if r.id !in seen.resources || !seen.resources[r.id].present { continue; }
      var ok := desktop.Close(d, r, seen.resources[r.id], answers(i));
      if !ok { failures := failures + [Failure(r.id, "close_failed")]; }
    }
    assert d.resources[..|d.resources|] == d.resources;
    r := Some(failures);
  }

  function Run(ops: seq<Operation>): Desk {
    if ops == [] then NEW_DESK else Step(Run(ops[..|ops| - 1]), ops[|ops| - 1])
  }

  // ----- What HWS has evidence of having launched -----

  /** The keys launched and not closed since. */
  function Evidence(log: seq<Event>): set<Key> {
    if log == [] then {}
    else
      var e, before := log[|log| - 1], Evidence(log[..|log| - 1]);
      if e.EnsureReplied? && Launches(e, e.key) then before + {e.key}
      else if e.CloseCompleted? then before - {e.key}
      else before
  }

  ghost predicate LaunchedAt(log: seq<Event>, k: Key, j: nat) {
    j < |log| && Launches(log[j], k) && forall i :: j < i < |log| ==> log[i] != CloseCompleted(k)
  }

  lemma {:induction false} EvidenceMeaning(log: seq<Event>, k: Key)
    ensures k in Evidence(log) <==> exists j: nat :: LaunchedAt(log, k, j)
  {
    if log != [] {
      var n := |log| - 1;
      var e, init := log[n], log[..n];
      EvidenceMeaning(init, k);
      if Launches(e, k) {
        assert LaunchedAt(log, k, n);
      } else if e == CloseCompleted(k) {
        assert forall j: nat :: LaunchedAt(log, k, j) ==> j == n;
      } else {
        forall j: nat ensures LaunchedAt(log, k, j) <==> LaunchedAt(init, k, j) {
          assert j < n ==> init[j] == log[j];
          if LaunchedAt(log, k, j) {
            forall i | j < i < |init| ensures init[i] != CloseCompleted(k) { assert init[i] == log[i]; }
          }
        }
      }
    }
  }

  /** Every close request in the log is for a key with evidence at that point. */
  ghost predicate Justified(log: seq<Event>) {
    forall i :: 0 <= i < |log| && log[i].CloseRequested? ==> log[i].key in Evidence(log[..i])
  }

  ghost predicate Inv(s: Desk) {
    s.managed == Evidence(s.log) && Justified(s.log)
  }

  lemma JustifiedMore(log: seq<Event>, e: Event)
    requires Justified(log) && (e.CloseRequested? ==> e.key in Evidence(log))
    ensures Justified(log + [e])
  {
    var more := log + [e];
    forall i | 0 <= i < |more| && more[i].CloseRequested? ensures more[i].key in Evidence(more[..i]) {
      assert more[..i] == log[..i];
      if i == |log| { assert log[..i] == log; } else { assert more[i] == log[i]; }
    }
  }

  lemma EvidenceMore(log: seq<Event>, e: Event)
    ensures Evidence(log + [e]) ==
            if e.EnsureReplied? && Launches(e, e.key) then Evidence(log) + {e.key}
            else if e.CloseCompleted? then Evidence(log) - {e.key}
            else Evidence(log)
  {
    assert (log + [e])[..|log|] == log;
  }

  lemma EnsureKeepsInv(s: Desk, ws: string, r: ResourceSpec, a: EnsureAnswers)
    requires Inv(s)
    ensures Inv(EnsureDesk(s, ws, r, a))
  {
    hide Evidence, Justified, Placing;
    if r.kind.DesktopApp? {
      var e := EnsureReplied((ws, r.id), r.desktopAppId, r.ownership.Managed?, a.reply);
      var events := Placing(ws, r, a);
      EvidenceMore(s.log, e);
      JustifiedMore(s.log, e);
      var log := s.log + [e];
      if events == [] {
        assert log + events == log;
      } else {
        EvidenceMore(log, events[0]);
        JustifiedMore(log, events[0]);
        assert events == [events[0]];
      }
    }
  }

  lemma {:induction false} RequestsKeepEvidence(log: seq<Event>, k: Key, app: string, windows: seq<string>, n: nat)
    requires n <= |windows| && Justified(log) && k in Evidence(log)
    ensures Evidence(log + Requests(k, app, windows, n)) == Evidence(log) &&
            Justified(log + Requests(k, app, windows, n))
  {
    hide Evidence, Justified;
    if n == 0 {
      assert log + Requests(k, app, windows, 0) == log;
    } else {
      var before, e := log + Requests(k, app, windows, n - 1), CloseRequested(k, app, windows[n - 1]);
      assert log + Requests(k, app, windows, n) == before + [e];
      hide *;
      RequestsKeepEvidence(log, k, app, windows, n - 1);
      EvidenceMore(before, e);
      JustifiedMore(before, e);
    }
  }

  lemma CloseKeepsInv(s: Desk, ws: string, r: ResourceSpec, o: Observation, a: CloseAnswers)
    requires Inv(s) && (Closes(r, o) ==> (ws, r.id) in s.managed)
    ensures Inv(CloseDesk(s, ws, r, o, a))
  {
    if Closes(r, o) {
      var k, windows := (ws, r.id), Windows(o);
      var n := Issued(|windows|, a.replies, 0);
      RequestsKeepEvidence(s.log, k, r.desktopAppId, windows, n);
      var log := s.log + Requests(k, r.desktopAppId, windows, n);
      EvidenceMore(log, CloseCompleted(k));
      JustifiedMore(log, CloseCompleted(k));
    }
    hide Evidence, Justified, Requests, Converges;
  }

  /** A close removes the evidence exactly when it converges: every request was accepted and the windows
      were seen to be gone.  One that does not keeps it, as it keeps that of every other resource. */
  lemma EvidenceGoesOnlyOnConvergence(s: Desk, ws: string, r: ResourceSpec, o: Observation, a: CloseAnswers, k: Key)
    ensures k in CloseDesk(s, ws, r, o, a).managed <==>
            k in s.managed && !(k == (ws, r.id) && Closes(r, o) && Converges(r, o, a))
  {
    hide Requests, Converges, Closes;
  }

  lemma {:induction false} EnsureAllKeepsInv(s: Desk, ws: string, rs: seq<ResourceSpec>, answers: nat -> EnsureAnswers)
    requires Inv(s)
    ensures Inv(EnsureAll(s, ws, rs, answers))
  {
    if rs != [] {
      EnsureAllKeepsInv(s, ws, rs[..|rs| - 1], answers);
      EnsureKeepsInv(EnsureAll(s, ws, rs[..|rs| - 1], answers), ws, rs[|rs| - 1], answers(|rs| - 1));
      hide Inv, EnsureDesk;
    }
  }

  /** An observation says a resource is managed only on evidence. */
  lemma {:induction false} ManagedMeansEvidence(managed: set<Key>, ws: string, rs: seq<ResourceSpec>, v: View,
                                                r: ResourceSpec)
    requires DistinctIds(rs) && r in rs && r.ownership.Managed?
    ensures
      var o := ObservedAll(managed, ws, rs, v);
      r.id in o && o[r.id].ownership.Managed? ==> (ws, r.id) in managed
  {
    var n := |rs| - 1;
    var last := rs[n];
    assert rs == rs[..n] + [last];
    if r == last {
      NotObserved(managed, ws, rs[..n], v, r.id);
    } else {
      assert r in rs[..n];
      ManagedMeansEvidence(managed, ws, rs[..n], v, r);
    }
    hide FindApplication, PlacementSeen;
  }

  lemma {:induction false} NotObserved(managed: set<Key>, ws: string, rs: seq<ResourceSpec>, v: View, id: string)
    requires forall i :: 0 <= i < |rs| ==> rs[i].id != id
    ensures id !in ObservedAll(managed, ws, rs, v)
  {
    if rs != [] {
      NotObserved(managed, ws, rs[..|rs| - 1], v, id);
      hide FindApplication, PlacementSeen;
    }
  }

  lemma {:induction false} CloseAllKeepsInv(
    s: Desk, ws: string, rs: seq<ResourceSpec>, o: map<string, Observation>, answers: nat -> CloseAnswers)
    requires Inv(s) && DistinctIds(rs)
    requires forall r :: r in rs && Wanted(r, o) && o[r.id].ownership.Managed? ==> (ws, r.id) in s.managed
    ensures Inv(CloseAll(s, ws, rs, o, answers))
    ensures forall k: Key :: k in s.managed && (forall i :: 0 <= i < |rs| ==> k != (ws, rs[i].id)) ==>
              k in CloseAll(s, ws, rs, o, answers).managed
  {
    if rs != [] {
      var n := |rs| - 1;
      var r := rs[n];
      assert rs == rs[..n] + [r];
      CloseAllKeepsInv(s, ws, rs[..n], o, answers);
      var t := CloseAll(s, ws, rs[..n], o, answers);
      if Wanted(r, o) {
        assert forall i :: 0 <= i < |rs[..n]| ==> (ws, r.id) != (ws, rs[..n][i].id);
        CloseKeepsInv(t, ws, r, o[r.id], answers(n));
        forall k: Key | k in t.managed && k != (ws, r.id)
          ensures k in CloseDesk(t, ws, r, o[r.id], answers(n)).managed
        {
          EvidenceGoesOnlyOnConvergence(t, ws, r, o[r.id], answers(n), k);
        }
      }
      hide Inv, CloseDesk;
    }
  }

  lemma StepKeepsInv(s: Desk, op: Operation)
    requires Inv(s)
    ensures Inv(Step(s, op))
  {
    var d := op.d;
    if Valid(d) {
      match op
      case ReconcileOp(_, before, answers) =>
        EnsureAllKeepsInv(s, d.workspaceId, PlanOf(d, StateSeen(s.managed, d, before)).actions, answers);
      case CloseOp(_, view, answers) =>
        var o := StateSeen(s.managed, d, view).resources;
        forall r | r in d.resources && Wanted(r, o) && o[r.id].ownership.Managed?
          ensures (d.workspaceId, r.id) in s.managed
        {
          ManagedMeansEvidence(s.managed, d.workspaceId, d.resources, view, r);
        }
        CloseAllKeepsInv(s, d.workspaceId, d.resources, o, answers);
    }
  }

  lemma {:induction false} RunKeepsInv(ops: seq<Operation>)
    ensures Inv(Run(ops))
  {
    if ops != [] {
      RunKeepsInv(ops[..|ops| - 1]);
      StepKeepsInv(Run(ops[..|ops| - 1]), ops[|ops| - 1]);
      hide Inv, Step;
    }
  }

  /** In every run of reconciles and closes of any definitions, whatever the shell does, a window of a
      resource is asked to close only if an earlier ensure of that resource, managed by its definition,
      succeeded and changed something, and no close of it has completed in between. */
  lemma ClosesOnlyWhatItLaunched(ops: seq<Operation>, i: nat)
    requires i < |Run(ops).log| && Run(ops).log[i].CloseRequested?
    ensures
      var log := Run(ops).log;
      exists j: nat :: j < i && Launches(log[j], log[i].key) &&
        forall m :: j < m < i ==> log[m] != CloseCompleted(log[i].key)
  {
    var log := Run(ops).log;
    RunKeepsInv(ops);
    var k := log[i].key;
    EvidenceMeaning(log[..i], k);
    var j: nat :| LaunchedAt(log[..i], k, j);
    assert log[..i][j] == log[j];
    forall m | j < m < i ensures log[m] != CloseCompleted(k) { assert log[..i][m] == log[m]; }
    hide Run, Evidence;
  }

  // ----- Evidence is kept by resource, not by application -----

  /** An operation without what the shell does during it. */
  datatype Act = Act(closing: bool, d: DesiredState)

  function ActOf(op: Operation): Act {
    Act(op.CloseOp?, op.d)
  }

  function Acts(ops: seq<Operation>): (acts: seq<Act>)
    ensures |acts| == |ops| && forall i :: 0 <= i < |ops| ==> acts[i] == ActOf(ops[i])
  {
    seq(|ops|, i requires 0 <= i < |ops| => ActOf(ops[i]))
  }

  /** The definition manages the resource as the desktop application `app`. */
  ghost predicate Manages(d: DesiredState, k: Key, app: string) {
    Valid(d) && exists r :: r in d.resources && ManagesAs(d, r, k, app)
  }

  predicate ManagesAs(d: DesiredState, r: ResourceSpec, k: Key, app: string) {
    k == (d.workspaceId, r.id) && r.kind.DesktopApp? && r.ownership.Managed? && r.desktopAppId == app
  }

  /** A close uses a definition that manages a resource as another application than an earlier reconcile. */
  ghost predicate Clash(acts: seq<Act>, i: nat, j: nat, k: Key, x: string, y: string) {
    i < j < |acts| && !acts[i].closing && acts[j].closing && Manages(acts[i].d, k, x) && Manages(acts[j].d, k, y) &&
      x != y
  }

  ghost predicate Consistent(acts: seq<Act>) {
    forall i: nat, j: nat, k, x, y :: !Clash(acts, i, j, k, x, y)
  }

  /** The i-th event asks to close a window of an application that was launched for the same resource. */
  ghost predicate LaunchedBefore(log: seq<Event>, i: nat) {
    i < |log| && log[i].CloseRequested? &&
    exists j: nat :: j < i && Launches(log[j], log[i].key) && log[j].app == log[i].app
  }

  ghost predicate OnlyLaunchedApps(log: seq<Event>) {
    forall i: nat :: i < |log| && log[i].CloseRequested? ==> LaunchedBefore(log, i)
  }

  /** What an operation may add to the log. */
  ghost predicate Fits(e: Event, a: Act) {
    && (Launches(e, e.key) ==> !a.closing && Manages(a.d, e.key, e.app))
    && (e.CloseRequested? ==> a.closing && Manages(a.d, e.key, e.app))
  }

  ghost predicate Extends(before: seq<Event>, after: seq<Event>, a: Act) {
    before <= after && forall i :: |before| <= i < |after| ==> Fits(after[i], a)
  }

  lemma EnsureFits(s: Desk, d: DesiredState, r: ResourceSpec, a: EnsureAnswers)
    requires Valid(d) && r in d.resources
    ensures Extends(s.log, EnsureDesk(s, d.workspaceId, r, a).log, Act(false, d))
  {
    var k := (d.workspaceId, r.id);
    assert ManagesAs(d, r, k, r.desktopAppId) || !r.ownership.Managed? || !r.kind.DesktopApp?;
    hide Placing, Valid;
  }

  lemma ExtendsTwice(a: seq<Event>, b: seq<Event>, c: seq<Event>, act: Act)
    requires Extends(a, b, act) && Extends(b, c, act)
    ensures Extends(a, c, act)
  {
    hide Fits;
    assert forall i :: 0 <= i < |b| ==> c[i] == b[i];
  }

  lemma {:induction false} EnsureAllFits(s: Desk, d: DesiredState, rs: seq<ResourceSpec>, answers: nat -> EnsureAnswers)
    requires Valid(d) && forall r :: r in rs ==> r in d.resources
    ensures Extends(s.log, EnsureAll(s, d.workspaceId, rs, answers).log, Act(false, d))
  {
    if rs != [] {
      var n := |rs| - 1;
      assert rs[n] in rs;
      var t := EnsureAll(s, d.workspaceId, rs[..n], answers);
      EnsureAllFits(s, d, rs[..n], answers);
      EnsureFits(t, d, rs[n], answers(n));
      ExtendsTwice(s.log, t.log, EnsureDesk(t, d.workspaceId, rs[n], answers(n)).log, Act(false, d));
      hide Extends, EnsureDesk, Valid;
    }
  }

  lemma CloseFits(s: Desk, d: DesiredState, r: ResourceSpec, o: Observation, a: CloseAnswers)
    requires Valid(d) && r in d.resources
    ensures Extends(s.log, CloseDesk(s, d.workspaceId, r, o, a).log, Act(true, d))
  {
    var k := (d.workspaceId, r.id);
    if Closes(r, o) {
      assert ManagesAs(d, r, k, r.desktopAppId);
      assert Manages(d, k, r.desktopAppId);
    }
    hide Valid, Converges, Issued, Manages;
  }

  lemma {:induction false} CloseAllFits(
    s: Desk, d: DesiredState, rs: seq<ResourceSpec>, o: map<string, Observation>, answers: nat -> CloseAnswers)
    requires Valid(d) && forall r :: r in rs ==> r in d.resources
    ensures Extends(s.log, CloseAll(s, d.workspaceId, rs, o, answers).log, Act(true, d))
  {
    if rs != [] {
      var n := |rs| - 1;
      var r := rs[n];
      assert r in rs;
      var t := CloseAll(s, d.workspaceId, rs[..n], o, answers);
      CloseAllFits(s, d, rs[..n], o, answers);
      if Wanted(r, o) {
        CloseFits(t, d, r, o[r.id], answers(n));
        ExtendsTwice(s.log, t.log, CloseDesk(t, d.workspaceId, r, o[r.id], answers(n)).log, Act(true, d));
      }
      hide Extends, CloseDesk, Valid;
    }
  }

  lemma StepFits(s: Desk, op: Operation)
    ensures Extends(s.log, Step(s, op).log, ActOf(op))
  {
    var d := op.d;
    if Valid(d) {
      match op
      case ReconcileOp(_, before, answers) =>
        MembersOfPermutation(d.resources, Sort(ById, d.resources));
        EnsureAllFits(s, d, PlanOf(d, StateSeen(s.managed, d, before)).actions, answers);
      case CloseOp(_, view, answers) =>
        CloseAllFits(s, d, d.resources, StateSeen(s.managed, d, view).resources, answers);
    }
  }

  /** Every launch in the log is of an application that some reconcile so far manages. */
  ghost predicate LaunchesKnown(log: seq<Event>, acts: seq<Act>) {
    forall i :: 0 <= i < |log| && Launches(log[i], log[i].key) ==> KnownLaunch(log[i], acts)
  }

  ghost predicate KnownLaunch(e: Event, acts: seq<Act>)
    requires e.EnsureReplied?
  {
    exists m: nat :: m < |acts| && !acts[m].closing && Manages(acts[m].d, e.key, e.app)
  }

  /** All launches before a close request, of the same resource, are of the application it closes. */
  ghost predicate AppsMatch(log: seq<Event>) {
    forall j, i :: 0 <= j < i < |log| && log[i].CloseRequested? && Launches(log[j], log[i].key) ==>
      log[j].app == log[i].app
  }

  lemma LaunchesStayKnown(log: seq<Event>, more: seq<Event>, acts: seq<Act>, n: nat)
    requires n < |acts| && LaunchesKnown(log, acts[..n]) && Extends(log, more, acts[n])
    ensures LaunchesKnown(more, acts)
  {
    forall i | 0 <= i < |more| && Launches(more[i], more[i].key) ensures KnownLaunch(more[i], acts) {
      if i < |log| {
        assert more[i] == log[i];
        var m: nat :| m < n && !acts[..n][m].closing && Manages(acts[..n][m].d, more[i].key, more[i].app);
        assert acts[..n][m] == acts[m];
      } else {
        assert Fits(more[i], acts[n]);
      }
    }
  }

  lemma AppsStillMatch(log: seq<Event>, more: seq<Event>, acts: seq<Act>, n: nat)
    requires n < |acts| && Consistent(acts) && LaunchesKnown(log, acts[..n]) && AppsMatch(log) &&
             Extends(log, more, acts[n])
    ensures AppsMatch(more)
  {
    forall j, i | 0 <= j < i < |more| && more[i].CloseRequested? && Launches(more[j], more[i].key)
      ensures more[j].app == more[i].app
    {
      if i < |log| {
        assert more[i] == log[i] && more[j] == log[j];
      } else {
        assert Fits(more[i], acts[n]);
        if j < |log| {
          assert more[j] == log[j];
          var m: nat :| m < n && !acts[..n][m].closing && Manages(acts[..n][m].d, log[j].key, log[j].app);
          assert acts[..n][m] == acts[m];
          assert !Clash(acts, m, n, more[i].key, more[j].app, more[i].app);
        }
      }
    }
  }

  lemma ConsistentPrefix(acts: seq<Act>, n: nat)
    requires n <= |acts| && Consistent(acts)
    ensures Consistent(acts[..n])
  {
    forall i: nat, j: nat, k, x, y ensures !Clash(acts[..n], i, j, k, x, y) {
      assert !Clash(acts, i, j, k, x, y);
    }
  }

  lemma {:induction false} RunMatches(ops: seq<Operation>)
    requires Consistent(Acts(ops))
    ensures LaunchesKnown(Run(ops).log, Acts(ops)) && AppsMatch(Run(ops).log)
  {
    if ops != [] {
      var n := |ops| - 1;
      var init := ops[..n];
      assert Acts(ops)[..n] == Acts(init);
      ConsistentPrefix(Acts(ops), n);
      RunMatches(init);
      StepFits(Run(init), ops[n]);
      LaunchesStayKnown(Run(init).log, Run(ops).log, Acts(ops), n);
      AppsStillMatch(Run(init).log, Run(ops).log, Acts(ops), n);
    }
  }

  /** When no close uses a definition that manages a resource as another application than an earlier
      reconcile did, HWS asks only windows of applications to close that it launched for that resource,
      whatever the shell does. */
  lemma ConsistentRunsCloseOnlyLaunchedApps(ops: seq<Operation>)
    requires Consistent(Acts(ops))
    ensures OnlyLaunchedApps(Run(ops).log)
  {
    RunMatches(ops);
    var log := Run(ops).log;
    forall i: nat | i < |log| && log[i].CloseRequested? ensures LaunchedBefore(log, i) {
      ClosesOnlyWhatItLaunched(ops, i);
      var j: nat :| j < i && Launches(log[j], log[i].key) &&
        forall m :: j < m < i ==> log[m] != CloseCompleted(log[i].key);
      assert log[j].app == log[i].app;
    }
  }

  // ----- A shell for which an inconsistent sequence goes wrong -----

  const NO_TOPOLOGY := Topology("", "", [])

  const NOTHING_RUNS := View([], NO_TOPOLOGY, [])

  function Runs(app: string): View {
    View([App(app, app, ["window"])], NO_TOPOLOGY, [])
  }

  function Answer(reply: Reply): EnsureAnswers {
    EnsureAnswers(reply, [], NOTHING_RUNS, NoReply, [], [])
  }

  function NoAnswer(): CloseAnswers {
    CloseAnswers((i: nat) => NoReply, [])
  }

  /** What a reconcile ensures when nothing runs. */
  function AllActions(d: DesiredState): seq<ResourceSpec> {
    PlanOf(d, ObservedState(d.workspaceId, "", map[])).actions
  }

  /** Nothing runs and the shell does not answer, except that it launches the resource `id` if asked to. */
  function Quiet(a: Act, id: Option<string>): Operation {
    if a.closing then CloseOp(a.d, NOTHING_RUNS, (i: nat) => NoAnswer())
    else
      var rs := AllActions(a.d);
      ReconcileOp(a.d, NOTHING_RUNS, (i: nat) => Answer(if i < |rs| && Some(rs[i].id) == id then Reply(true, true)
                                                        else NoReply))
  }

  /** The application runs when the workspace is closed. */
  function Shut(a: Act, app: string): Operation {
    CloseOp(a.d, Runs(app), (i: nat) => NoAnswer())
  }

  function Adversary(acts: seq<Act>, i: nat, j: nat, id: string, app: string): (ops: seq<Operation>)
    requires forall m :: 0 <= m < |acts| && m == j ==> acts[m].closing
    ensures Acts(ops) == acts
  {
    seq(|acts|, m requires 0 <= m < |acts| =>
      if m == j then Shut(acts[m], app) else Quiet(acts[m], if m == i then Some(id) else None))
  }

  /** Nothing was asked to close, and only `k` was launched, as `app`. */
  ghost predicate Calm(log: seq<Event>, k: Key, app: string) {
    forall i :: 0 <= i < |log| ==>
      !log[i].CloseRequested? && (Launches(log[i], log[i].key) ==> log[i].key == k && log[i].app == app)
  }

  lemma {:induction false} NothingObserved(managed: set<Key>, ws: string, rs: seq<ResourceSpec>)
    ensures ObservedAll(managed, ws, rs, NOTHING_RUNS) == map[]
  {
    if rs != [] { NothingObserved(managed, ws, rs[..|rs| - 1]); }
  }

  lemma {:induction false} NothingToClose(s: Desk, ws: string, rs: seq<ResourceSpec>, answers: nat -> CloseAnswers)
    ensures CloseAll(s, ws, rs, map[], answers) == s
  {
    if rs != [] { NothingToClose(s, ws, rs[..|rs| - 1], answers); }
  }

  /** The reply that ensures the i-th action, as `Quiet` gives it. */
  function QuietReply(rs: seq<ResourceSpec>, i: nat, id: Option<string>): Reply {
    if i < |rs| && Some(rs[i].id) == id then Reply(true, true) else NoReply
  }

  lemma {:induction false} QuietEnsures(
    s: Desk, ws: string, all: seq<ResourceSpec>, n: nat, answers: nat -> EnsureAnswers, id: Option<string>, k: Key,
    app: string)
    requires n <= |all| && Calm(s.log, k, app)
    requires forall i: nat :: answers(i) == Answer(QuietReply(all, i, id))
    requires forall r :: r in all && Some(r.id) == id && r.kind.DesktopApp? && r.ownership.Managed? ==>
               (ws, r.id) == k && r.desktopAppId == app
    ensures
      var t := EnsureAll(s, ws, all[..n], answers);
      Calm(t.log, k, app) && s.managed <= t.managed <= s.managed + (if id.Some? then {k} else {})
  {
    if n > 0 {
      assert all[..n][..n - 1] == all[..n - 1];
      QuietEnsures(s, ws, all, n - 1, answers, id, k, app);
      QuietEnsure(EnsureAll(s, ws, all[..n - 1], answers), ws, all[n - 1], answers(n - 1), id, k, app);
      hide Calm, EnsureDesk, Answer;
    }
  }

  lemma QuietEnsure(s: Desk, ws: string, r: ResourceSpec, a: EnsureAnswers, id: Option<string>, k: Key, app: string)
    requires Calm(s.log, k, app)
    requires a == Answer(if Some(r.id) == id then Reply(true, true) else NoReply)
    requires Some(r.id) == id && r.kind.DesktopApp? && r.ownership.Managed? ==> (ws, r.id) == k && r.desktopAppId == app
    ensures Calm(EnsureDesk(s, ws, r, a).log, k, app)
    ensures s.managed <= EnsureDesk(s, ws, r, a).managed <= s.managed + (if id.Some? then {k} else {})
    ensures Some(r.id) == id && r.kind.DesktopApp? && r.ownership.Managed? ==> k in EnsureDesk(s, ws, r, a).managed
  {
    assert Placing(ws, r, a) == [];
  }

  lemma {:induction false} QuietLaunches(
    s: Desk, ws: string, all: seq<ResourceSpec>, n: nat, answers: nat -> EnsureAnswers, id: Option<string>, k: Key,
    app: string, at: nat)
    requires n <= |all| && Calm(s.log, k, app)
    requires forall i: nat :: answers(i) == Answer(QuietReply(all, i, id))
    requires forall r :: r in all && Some(r.id) == id && r.kind.DesktopApp? && r.ownership.Managed? ==>
               (ws, r.id) == k && r.desktopAppId == app
    requires at < n && Some(all[at].id) == id && all[at].kind.DesktopApp? && all[at].ownership.Managed?
    ensures k in EnsureAll(s, ws, all[..n], answers).managed
  {
    assert all[..n][..n - 1] == all[..n - 1];
    assert all[n - 1] in all;
    QuietEnsures(s, ws, all, n - 1, answers, id, k, app);
    QuietEnsure(EnsureAll(s, ws, all[..n - 1], answers), ws, all[n - 1], answers(n - 1), id, k, app);
    if at < n - 1 { QuietLaunches(s, ws, all, n - 1, answers, id, k, app, at); }
    hide Calm, EnsureDesk, Answer;
  }

  /** The definition gives the resource `id` the key `k` and the application `app`, if it is one to launch. */
  ghost predicate Only(d: DesiredState, id: Option<string>, k: Key, app: string) {
    forall r :: r in d.resources && Some(r.id) == id && r.kind.DesktopApp? && r.ownership.Managed? ==>
      (d.workspaceId, r.id) == k && r.desktopAppId == app
  }

  lemma ManagesOnly(d: DesiredState, k: Key, app: string)
    requires Manages(d, k, app)
    ensures Only(d, Some(k.1), k, app)
  {
    var q :| q in d.resources && ManagesAs(d, q, k, app);
    forall r | r in d.resources && r.id == k.1 ensures r == q {
      var i :| 0 <= i < |d.resources| && d.resources[i] == q;
      var j :| 0 <= j < |d.resources| && d.resources[j] == r;
    }
    hide ResourceValid, Text.Blank;
  }

  lemma ActionsAreResources(d: DesiredState)
    ensures forall r :: r in AllActions(d) <==> r in d.resources && !r.ownership.External?
  {
    MembersOfPermutation(d.resources, Sort(ById, d.resources));
  }

  lemma QuietReconcile(s: Desk, d: DesiredState, id: Option<string>)
    requires Valid(d)
    ensures
      var op := Quiet(Act(false, d), id);
      Step(s, op) == EnsureAll(s, d.workspaceId, AllActions(d), op.answers) &&
      forall i: nat :: op.answers(i) == Answer(QuietReply(AllActions(d), i, id))
  {
    NothingObserved(s.managed, d.workspaceId, d.resources);
    hide Valid, EnsureAll, PlanOf, ObservedAll;
  }

  lemma QuietClose(s: Desk, a: Act, id: Option<string>)
    requires a.closing
    ensures Step(s, Quiet(a, id)) == s
  {
    hide Valid;
    NothingObserved(s.managed, a.d.workspaceId, a.d.resources);
    NothingToClose(s, a.d.workspaceId, a.d.resources, Quiet(a, id).results);
  }

  lemma QuietOpen(s: Desk, a: Act, id: Option<string>, k: Key, app: string)
    requires Calm(s.log, k, app) && Only(a.d, id, k, app) && Valid(a.d) && !a.closing
    ensures
      var t := Step(s, Quiet(a, id));
      Calm(t.log, k, app) && s.managed <= t.managed <= s.managed + (if id.Some? then {k} else {})
    ensures id == Some(k.1) && Manages(a.d, k, app) ==> k in Step(s, Quiet(a, id)).managed
  {
    hide Valid, EnsureAll, AllActions, Calm, Step, Answer;
    var d := a.d;
    assert a == Act(false, d);
    QuietReconcile(s, d, id);
    ActionsAreResources(d);
    var all, answers := AllActions(d), Quiet(a, id).answers;
    assert all[..|all|] == all;
    QuietEnsures(s, d.workspaceId, all, |all|, answers, id, k, app);
    if id == Some(k.1) && Manages(d, k, app) {
      var q :| q in d.resources && ManagesAs(d, q, k, app);
      assert q in all;
      var at :| 0 <= at < |all| && all[at] == q;
      QuietLaunches(s, d.workspaceId, all, |all|, answers, id, k, app, at);
    }
  }

  lemma QuietStep(s: Desk, a: Act, id: Option<string>, k: Key, app: string)
    requires Calm(s.log, k, app) && Only(a.d, id, k, app)
    ensures
      var t := Step(s, Quiet(a, id));
      Calm(t.log, k, app) && s.managed <= t.managed <= s.managed + (if id.Some? then {k} else {})
    ensures !a.closing && id == Some(k.1) && Manages(a.d, k, app) ==> k in Step(s, Quiet(a, id)).managed
  {
    hide Valid, Calm, Only, EnsureAll, CloseAll, ManagesAs;
    if a.closing {
      QuietClose(s, a, id);
    } else if Valid(a.d) {
      QuietOpen(s, a, id, k, app);
    }
  }

  lemma {:induction false} ObservedLookup(managed: set<Key>, ws: string, rs: seq<ResourceSpec>, v: View,
                                          r: ResourceSpec)
    requires DistinctIds(rs) && r in rs && Observed(managed, ws, r, v).Some?
    ensures r.id in ObservedAll(managed, ws, rs, v)
    ensures ObservedAll(managed, ws, rs, v)[r.id] == Observed(managed, ws, r, v).value
  {
    var n := |rs| - 1;
    assert rs == rs[..n] + [rs[n]];
    assert Observed(managed, ws, r, v).value.resourceId == r.id;
    if r != rs[n] {
      assert r in rs[..n];
      ObservedLookup(managed, ws, rs[..n], v, r);
    }
    hide Observed;
  }

  lemma {:induction false} ShutCloses(
    s: Desk, ws: string, rs: seq<ResourceSpec>, o: map<string, Observation>, answers: nat -> CloseAnswers,
    q: ResourceSpec, e: Event)
    requires forall i: nat :: answers(i) == NoAnswer()
    requires DistinctIds(rs) && Wanted(q, o) && o[q.id].ownership.Managed? &&
             o[q.id].session == WindowIds(["window"]) && q.kind.DesktopApp?
    requires e == CloseRequested((ws, q.id), q.desktopAppId, "window")
    requires forall r :: r in rs && Wanted(r, o) && o[r.id].ownership.Managed? ==> r == q
    ensures CloseAll(s, ws, rs, o, answers) == if q in rs then Desk(s.managed, s.log + [e]) else s
  {
    if rs != [] {
      var n := |rs| - 1;
      var r := rs[n];
      assert rs == rs[..n] + [r];
      ShutCloses(s, ws, rs[..n], o, answers, q, e);
      if r == q {
        assert q !in rs[..n];
        assert Issued(1, answers(n).replies, 0) == 1;
        assert Requests((ws, q.id), q.desktopAppId, ["window"], 1) == [e];
        assert !Accepted(answers(n).replies(0));
      }
    }
  }

  lemma ShutStep(s: Desk, a: Act, k: Key, app: string)
    requires s.managed == {k} && a.closing && Manages(a.d, k, app)
    ensures Step(s, Shut(a, app)) == Desk({k}, s.log + [CloseRequested(k, app, "window")])
  {
    var d, v, op := a.d, Runs(app), Shut(a, app);
    var q :| q in d.resources && ManagesAs(d, q, k, app);
    var o := ObservedAll(s.managed, d.workspaceId, d.resources, v);
    ObservedLookup(s.managed, d.workspaceId, d.resources, v, q);
    forall r | r in d.resources && Wanted(r, o) && o[r.id].ownership.Managed? ensures r == q {
      ManagedMeansEvidence(s.managed, d.workspaceId, d.resources, v, r);
      var i :| 0 <= i < |d.resources| && d.resources[i] == q;
      var j :| 0 <= j < |d.resources| && d.resources[j] == r;
    }
    ShutCloses(s, d.workspaceId, d.resources, o, op.results, q, CloseRequested(k, app, "window"));
    hide ResourceValid, Text.Blank, ObservedAll, CloseAll;
  }

  lemma AdversaryAt(acts: seq<Act>, i: nat, j: nat, k: Key, x: string, y: string, m: nat)
    requires Clash(acts, i, j, k, x, y) && m < j
    ensures
      var id := if m == i then Some(k.1) else None;
      && Adversary(acts, i, j, k.1, y)[m] == Quiet(acts[m], id) && Only(acts[m].d, id, k, x)
      && (m == i ==> !acts[m].closing && Manages(acts[m].d, k, x))
  {
    hide Manages;
    if m == i { ManagesOnly(acts[i].d, k, x); }
  }

  lemma RunNext(ops: seq<Operation>, n: nat)
    requires 0 < n <= |ops|
    ensures Run(ops[..n]) == Step(Run(ops[..n - 1]), ops[n - 1])
  {
    hide Step;
    assert ops[..n][..n - 1] == ops[..n - 1];
  }

  lemma {:induction false} AdversaryRun(acts: seq<Act>, i: nat, j: nat, k: Key, x: string, y: string, n: nat)
    requires Clash(acts, i, j, k, x, y) && n <= j
    ensures
      var s := Run(Adversary(acts, i, j, k.1, y)[..n]);
      Calm(s.log, k, x) && s.managed == if n <= i then {} else {k}
  {
    hide Step, Quiet, Shut, Manages, Only;
    if n > 0 {
      AdversaryRun(acts, i, j, k, x, y, n - 1);
      var ops := Adversary(acts, i, j, k.1, y);
      AdversaryAt(acts, i, j, k, x, y, n - 1);
      RunNext(ops, n);
      QuietStep(Run(ops[..n - 1]), acts[n - 1], if n - 1 == i then Some(k.1) else None, k, x);
    }
  }

  lemma {:induction false} LogGrows(ops: seq<Operation>, n: nat)
    requires n <= |ops|
    ensures Run(ops[..n]).log <= Run(ops).log
  {
    if n == |ops| {
      assert ops[..n] == ops;
    } else {
      var init := ops[..|ops| - 1];
      assert init[..n] == ops[..n];
      LogGrows(init, n);
      StepFits(Run(init), ops[|ops| - 1]);
      hide Step, Fits;
    }
  }

  lemma AdversaryCloses(acts: seq<Act>, ops: seq<Operation>, i: nat, j: nat, k: Key, x: string, y: string)
    requires Clash(acts, i, j, k, x, y) && ops == Adversary(acts, i, j, k.1, y)
    ensures Calm(Run(ops[..j]).log, k, x)
    ensures Run(ops[..j]).log + [CloseRequested(k, y, "window")] <= Run(ops).log
  {
    AdversaryRun(acts, i, j, k, x, y, j);
    hide Calm, Manages;
    assert ops[j] == Shut(acts[j], y) && ops[..j + 1][..j] == ops[..j];
    hide Shut, Quiet, Acts;
    assert Run(ops[..j + 1]) == Step(Run(ops[..j]), ops[j]);
    hide Run, Step;
    ShutStep(Run(ops[..j]), acts[j], k, y);
    LogGrows(ops, j + 1);
  }

  /** When some close does use such a definition, there is a shell for which HWS asks a window of an
      application to close that it never launched for that resource. */
  lemma InconsistentRunsCanCloseOthers(acts: seq<Act>) returns (ops: seq<Operation>)
    requires !Consistent(acts)
    ensures Acts(ops) == acts && !OnlyLaunchedApps(Run(ops).log)
  {
    var i: nat, j: nat, k, x, y :| Clash(acts, i, j, k, x, y);
    ops := Adversary(acts, i, j, k.1, y);
    hide Consistent, Calm, OnlyLaunchedApps, Manages, Run, Shut, Quiet;
    AdversaryCloses(acts, ops, i, j, k, x, y);
    CalmThenClosed(Run(ops[..j]).log, k, x, y, Run(ops).log);
  }

  lemma CalmThenClosed(before: seq<Event>, k: Key, x: string, y: string, log: seq<Event>)
    requires Calm(before, k, x) && x != y && before + [CloseRequested(k, y, "window")] <= log
    ensures !OnlyLaunchedApps(log)
  {
    var p := |before|;
    assert log[p] == (before + [CloseRequested(k, y, "window")])[p];
    forall m: nat | m < p && Launches(log[m], k) ensures log[m].app != y {
      assert log[m] == (before + [CloseRequested(k, y, "window")])[m] == before[m];
    }
    assert !LaunchedBefore(log, p);
  }

  // ----- Whose windows are closed -----

  /** The window is one of the first application of the view that goes by the definition's application id,
      as its own id or as that of its desktop file. */
  ghost predicate WindowSeen(e: Event, v: View) {
    e.CloseRequested? ==>
      FindApplication(v.surfaces, e.app).Some? && e.window in FindApplication(v.surfaces, e.app).value.windows
  }

  ghost predicate AddsSeen(before: seq<Event>, after: seq<Event>, v: View) {
    before <= after && forall i :: |before| <= i < |after| ==> WindowSeen(after[i], v)
  }

  lemma SeenTwice(a: seq<Event>, b: seq<Event>, c: seq<Event>, v: View)
    requires AddsSeen(a, b, v) && AddsSeen(b, c, v)
    ensures AddsSeen(a, c, v)
  {
    hide WindowSeen;
    assert forall i :: 0 <= i < |b| ==> c[i] == b[i];
  }

  lemma CloseSeen(s: Desk, managed: set<Key>, ws: string, r: ResourceSpec, v: View, a: CloseAnswers)
    requires Observed(managed, ws, r, v).Some?
    ensures AddsSeen(s.log, CloseDesk(s, ws, r, Observed(managed, ws, r, v).value, a).log, v)
  {
    hide Converges, Issued, PlacementSeen, FindApplication;
  }

  lemma {:induction false} ObservedOnlyIf(managed: set<Key>, ws: string, rs: seq<ResourceSpec>, v: View,
                                          r: ResourceSpec)
    requires DistinctIds(rs) && r in rs && r.id in ObservedAll(managed, ws, rs, v)
    ensures Observed(managed, ws, r, v).Some?
  {
    var n := |rs| - 1;
    assert rs == rs[..n] + [rs[n]];
    if r == rs[n] {
      NotObserved(managed, ws, rs[..n], v, r.id);
    } else {
      assert r in rs[..n];
      if Observed(managed, ws, rs[n], v).None? || rs[n].id != r.id { ObservedOnlyIf(managed, ws, rs[..n], v, r); }
    }
  }

  lemma {:induction false} CloseAllSeen(
    s: Desk, managed: set<Key>, ws: string, all: seq<ResourceSpec>, n: nat, v: View, answers: nat -> CloseAnswers)
    requires DistinctIds(all) && n <= |all|
    ensures AddsSeen(s.log, CloseAll(s, ws, all[..n], ObservedAll(managed, ws, all, v), answers).log, v)
  {
    hide Observed, ObservedAll, CloseDesk, AddsSeen;
    if n == 0 {
      NothingAdded(s.log, v);
    } else {
      var o, r := ObservedAll(managed, ws, all, v), all[n - 1];
      assert all[..n][..n - 1] == all[..n - 1];
      var t := CloseAll(s, ws, all[..n - 1], o, answers);
      CloseAllSeen(s, managed, ws, all, n - 1, v, answers);
      if Wanted(r, o) {
        ObservedOnlyIf(managed, ws, all, v, r);
        ObservedLookup(managed, ws, all, v, r);
        CloseSeen(t, managed, ws, r, v, answers(n - 1));
        SeenTwice(s.log, t.log, CloseDesk(t, ws, r, o[r.id], answers(n - 1)).log, v);
      }
    }
  }

  lemma NothingAdded(log: seq<Event>, v: View)
    ensures AddsSeen(log, log, v)
  {
  }

  /** A close asks only windows to close that the reader shows, when the close begins, as windows of the
      application that the definition names; it never takes them from another resource or an older view. */
  lemma ClosesWindowsItSaw(s: Desk, d: DesiredState, v: View, answers: nat -> CloseAnswers, i: nat)
    requires |s.log| <= i < |Step(s, CloseOp(d, v, answers)).log|
    ensures WindowSeen(Step(s, CloseOp(d, v, answers)).log[i], v)
  {
    hide CloseAll, WindowSeen, ResourceValid, Text.Blank, ObservedAll;
    CloseAllSeen(s, s.managed, d.workspaceId, if Valid(d) then d.resources else [],
                 if Valid(d) then |d.resources| else 0, v, answers);
    assert d.resources[..|d.resources|] == d.resources;
  }

  function Editor(app: string): ResourceSpec {
    ResourceSpec("editor", DesktopApp, true, Managed, app, "", None)
  }

  function Definition(revision: string, app: string): DesiredState {
    DesiredState("work", revision, [Editor(app)])
  }

  lemma DefinitionManages(revision: string, app: string)
    requires !Text.Blank(revision) && !Text.Blank(app)
    ensures Manages(Definition(revision, app), ("work", "editor"), app)
  {
    assert !Text.Blank("work") by { assert "work"[0] == 'w'; }
    assert !Text.Blank("editor") by { assert "editor"[0] == 'e'; }
    assert Editor(app) in Definition(revision, app).resources;
  }

  /** Two revisions of a definition that name different applications for one resource are such a case. */
  lemma TwoRevisionsClash()
    ensures !Consistent([Act(false, Definition("1", "a")), Act(true, Definition("2", "b"))])
  {
    assert !Text.Blank("1") && !Text.Blank("a") by { assert "1"[0] == '1' && "a"[0] == 'a'; }
    assert !Text.Blank("2") && !Text.Blank("b") by { assert "2"[0] == '2' && "b"[0] == 'b'; }
    DefinitionManages("1", "a");
    DefinitionManages("2", "b");
    var acts := [Act(false, Definition("1", "a")), Act(true, Definition("2", "b"))];
    assert Clash(acts, 0, 1, ("work", "editor"), "a", "b");
  }
}
