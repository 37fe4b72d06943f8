/** Shell action requests on their way from the broker to the shell: the JSON form, which leaves out
    empty strings and zero integers (internal/shellaction/broker.go), and the shell's own validation
    (shell-extension/shellActionModel.js). */
module ShellAction {
  import Text
  import opened Wrappers
  import opened Workspace
  import Broker
  import Placement

  /** A request as sent; None is a field that is not there. */
  datatype Message = Message(
    schema: nat, id: string, kind: string, workspaceId: string, resourceId: string,
    desktopAppId: Option<string>, windowId: Option<string>, topologyRevision: Option<string>,
    monitorRef: Option<string>, monitorIndex: Option<int>, targetWorkspace: Option<int>, rect: LogicalRect)

  /** A request as the shell acts on it. */
  datatype Action = Action(
    id: string, kind: string, workspaceId: string, resourceId: string, desktopAppId: string, windowId: string,
    topologyRevision: string, monitorRef: string, monitorIndex: int, targetWorkspace: int, rect: LogicalRect)

  function KindName(k: Broker.Kind): string {
    match k
    case EnsureDesktopApp => "ensure_desktop_app"
    case CloseWindow => "close_window"
    case PlaceWindow => "place_window"
    case OtherKind(name) => name
  }

  function OmitEmpty(s: string): Option<string> { if s == "" then None else Some(s) }

  function OmitZero(n: int): Option<int> { if n == 0 then None else Some(n) }

  function Encode(r: Broker.Request): Message {
    Message(
      Broker.SCHEMA_VERSION, r.id, KindName(r.kind), r.workspaceId, r.resourceId, OmitEmpty(r.desktopAppId),
      OmitEmpty(r.windowId), OmitEmpty(r.topologyRevision), OmitEmpty(r.monitorRef), OmitZero(r.monitorIndex),
      OmitZero(r.targetWorkspace), r.rect)
  }

  function Trimmed(s: Option<string>): string {
    match s case None => "" case Some(t) => Text.TrimSpace(t)
  }

  function Index(n: Option<int>): int {
    match n case None => -1 case Some(i) => i
  }

  /** validateShellAction; None where it throws. */
  function Validate(m: Message): Option<Action> {
    if m.schema != Broker.SCHEMA_VERSION || Text.Blank(m.id) || Text.Blank(m.kind) || Text.Blank(m.workspaceId) ||
      Text.Blank(m.resourceId)
    then None
    else
      var a := Action(
        Text.TrimSpace(m.id), Text.TrimSpace(m.kind), Text.TrimSpace(m.workspaceId), Text.TrimSpace(m.resourceId),
        Trimmed(m.desktopAppId), Trimmed(m.windowId), Trimmed(m.topologyRevision), Trimmed(m.monitorRef),
        Index(m.monitorIndex), Index(m.targetWorkspace), m.rect);
      if a.kind == "ensure_desktop_app" then (if a.desktopAppId == "" then None else Some(a))
      else if a.kind == "close_window" then (if a.windowId == "" then None else Some(a))
      else if a.kind == "place_window" then
        if a.windowId == "" || a.topologyRevision == "" || a.monitorRef == "" ||
           a.monitorIndex < 0 || a.targetWorkspace < 0 || !a.rect.Valid()
        then None else Some(a)
      else None
  }

  lemma KindNamesAreTrimmed(k: Broker.Kind)
    requires !k.OtherKind?
    ensures Text.TrimSpace(KindName(k)) == KindName(k) && !Text.Blank(KindName(k))
  {
    var s := KindName(k);
    assert s[0] != ' ' && s[|s| - 1] != ' ';
  }

  lemma OmittingKeepsTrimmed(s: string)
    ensures Trimmed(OmitEmpty(s)) == Text.TrimSpace(s)
  {
  }

  /** The placement is on the monitor or the workspace whose number is zero. */
  predicate NamesZero(r: Broker.Request) {
    r.kind.PlaceWindow? && (r.monitorIndex == 0 || r.targetWorkspace == 0)
  }

  /** Of the requests the broker sends, the shell accepts all but the placements on monitor 0 or on
      workspace 0, whose number is lost on the way. */
  lemma ShellAcceptsAllButZero(r: Broker.Request)
    requires Broker.ValidRequest(r)
    ensures Validate(Encode(r)).Some? <==> !NamesZero(r)
  {
    KindNamesAreTrimmed(r.kind);
    OmittingKeepsTrimmed(r.desktopAppId);
    OmittingKeepsTrimmed(r.windowId);
    OmittingKeepsTrimmed(r.topologyRevision);
    OmittingKeepsTrimmed(r.monitorRef);
    hide Text.TrimSpace, Trimmed, OmitEmpty;
  }

  /** What the shell acts on is what the daemon asked for, with surrounding white space removed. */
  lemma AcceptedActionIsTheRequest(r: Broker.Request)
    requires Broker.ValidRequest(r) && !NamesZero(r)
    ensures Validate(Encode(r)).Some?
    ensures
      var a := Validate(Encode(r)).value;
      && a.id == Text.TrimSpace(r.id) && a.kind == KindName(r.kind)
      && a.workspaceId == Text.TrimSpace(r.workspaceId) && a.resourceId == Text.TrimSpace(r.resourceId)
      && a.desktopAppId == Text.TrimSpace(r.desktopAppId) && a.windowId == Text.TrimSpace(r.windowId)
      && (r.kind.PlaceWindow? ==>
           a.topologyRevision == Text.TrimSpace(r.topologyRevision) && a.monitorRef == Text.TrimSpace(r.monitorRef) &&
           a.monitorIndex == r.monitorIndex && a.targetWorkspace == r.targetWorkspace && a.rect == r.rect)
  {
    ShellAcceptsAllButZero(r);
    KindNamesAreTrimmed(r.kind);
    OmittingKeepsTrimmed(r.desktopAppId);
    OmittingKeepsTrimmed(r.windowId);
    OmittingKeepsTrimmed(r.topologyRevision);
    OmittingKeepsTrimmed(r.monitorRef);
    hide Text.TrimSpace, Trimmed, OmitEmpty, Text.Blank;
  }

  /** The request of ensurePlacement (internal/adapters/shelldesktop/desktop.go). */
  function PlaceRequest(id: string, ws: string, resource: string, window: string,
                        p: Placement.ResolvedPlacement): Broker.Request
  {
    Broker.Request(
      id, Broker.PlaceWindow, ws, resource, "", window, p.topologyRevision, p.monitorRef, p.monitorIndex, p.workspace,
      p.rect)
  }

  /** A placement that resolved makes a request the broker sends, and the shell refuses it exactly when it
      is on monitor 0 or workspace 0. */
  lemma PlacementsOnZeroAreLost(id: string, ws: string, resource: string, window: string, intent: PlacementIntent,
                                t: Placement.Topology)
    requires !Text.Blank(id) && !Text.Blank(ws) && !Text.Blank(resource) && !Text.Blank(window)
    requires intent.workspace >= 0 && Placement.Resolve(Some(intent), t).Ok?
    ensures
      var p := Placement.Resolve(Some(intent), t).value;
      var r := PlaceRequest(id, ws, resource, window, p);
      Broker.ValidRequest(r) && (Validate(Encode(r)).Some? <==> p.monitorIndex != 0 && intent.workspace != 0)
  {
    var p := Placement.Resolve(Some(intent), t).value;
    Placement.ResolvedIsComplete(intent, t);
    hide Text.Blank, Validate, Encode, Placement.Resolve;
    assert Broker.ValidRequest(PlaceRequest(id, ws, resource, window, p));
    ShellAcceptsAllButZero(PlaceRequest(id, ws, resource, window, p));
  }

  // ----- Such placements arise -----

  const SCREEN := LogicalRect(0, 0, 100, 100)

  /** One monitor, which is the primary one and has index 0. */
  function OneMonitor(): Placement.Topology {
    Placement.Topology("t", "m", [Placement.Monitor("m", 0, true, 1.0, SCREEN, SCREEN)])
  }

  function WholeScreen(): PlacementIntent {
    PlacementIntent("primary", 1, NormalizedRect(0.0, 0.0, 1.0, 1.0))
  }

  lemma OneMonitorIsValid()
    ensures Placement.TopologyValid(OneMonitor())
  {
    var ms := OneMonitor().monitors;
    assert !Text.Blank("t") && !Text.Blank("m") by { assert "t"[0] == 't' && "m"[0] == 'm'; }
    assert ms[..0] == [] && Placement.PrimaryCount([]) == 0;
    assert ms[0].ref == OneMonitor().primaryRef;
  }

  /** On a desktop with one monitor the primary role resolves to monitor 0, so every such placement is
      refused by the shell, on any workspace. */
  lemma OnlyMonitorIsLost(id: string, ws: string, resource: string, window: string)
    requires !Text.Blank(id) && !Text.Blank(ws) && !Text.Blank(resource) && !Text.Blank(window)
    ensures
      var p := Placement.Resolve(Some(WholeScreen()), OneMonitor());
      && p == Placement.Ok(Placement.ResolvedPlacement("t", "m", 0, 1, SCREEN))
      && Broker.ValidRequest(PlaceRequest(id, ws, resource, window, p.value))
      && Validate(Encode(PlaceRequest(id, ws, resource, window, p.value))).None?
  {
    OneMonitorIsValid();
    OneMonitorResolves();
    PlacementsOnZeroAreLost(id, ws, resource, window, WholeScreen(), OneMonitor());
    hide Text.Blank, Validate, Encode, Placement.Resolve, Placement.TopologyValid;
  }

  lemma OneMonitorResolves()
    ensures Placement.Resolve(Some(WholeScreen()), OneMonitor()) ==
            Placement.Ok(Placement.ResolvedPlacement("t", "m", 0, 1, SCREEN))
  {
    OneMonitorIsValid();
    TrimmedPrimary();
    Placement.MonitorForIsLowest("primary", OneMonitor());
    WholeScreenFits();
    hide Placement.TopologyValid, Placement.MonitorFor, Placement.Placed, Text.TrimSpace;
    var m := Placement.MonitorFor("primary", OneMonitor()).value;
    assert m == OneMonitor().monitors[0];
  }

  lemma TrimmedPrimary()
    ensures Text.TrimSpace("primary") == "primary"
  {
    assert "primary"[0] == 'p' && "primary"[6] == 'y';
  }

  lemma WholeScreenFits()
    ensures Placement.Placed(WholeScreen().rect, SCREEN) == Placement.Ok(SCREEN)
  {
    assert Placement.Round(0.0) == 0 && Placement.Round(100.0) == 100;
  }
}
