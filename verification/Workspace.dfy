/** Workspace definitions and what is observed of them (internal/domain/workspace.go). */
module Workspace {
  import Text
  import opened Wrappers

  datatype Ownership = Managed | Adopted | External | OtherOwnership(name: string)

  datatype ResourceKind = DesktopApp | Process | Terminal | OtherKind(name: string)

  /** A part of a monitor's work area, each side as a fraction of that of the area. */
  datatype NormalizedRect = NormalizedRect(x: real, y: real, width: real, height: real) {
    predicate Valid() {
      x >= 0.0 && y >= 0.0 && width > 0.0 && height > 0.0 && x + width <= 1.0 && y + height <= 1.0
    }
  }

  datatype LogicalRect = LogicalRect(x: int, y: int, width: int, height: int) {
    predicate Valid() { width > 0 && height > 0 }
  }

  datatype PlacementIntent = PlacementIntent(monitorRole: string, workspace: int, rect: NormalizedRect)

  datatype ResourceSpec = ResourceSpec(
    id: string, kind: ResourceKind, required: bool, ownership: Ownership,
    desktopAppId: string, executable: string, placement: Option<PlacementIntent>)

  datatype DesiredState = DesiredState(workspaceId: string, revision: string, resources: seq<ResourceSpec>)

  datatype SessionRef = NoSession | WindowIds(ids: seq<string>) | OtherSession(reference: string)

  datatype Observation = Observation(
    resourceId: string, present: bool, ready: bool, ownership: Ownership, session: SessionRef, appId: string)

  datatype ObservedState = ObservedState(
    workspaceId: string, topologyRevision: string, resources: map<string, Observation>)

  /** Why a definition is refused; the argument is the offending resource's id. */
  datatype Problem =
    | WorkspaceIdRequired
    | RevisionRequired
    | ResourceIdRequired
    | DuplicateResource(id: string)
    | InvalidOwnership(id: string)
    | AppIdRequired(id: string)
    | ExecutableRequired(id: string)
    | UnsupportedKind(id: string)
    | InvalidPlacement(id: string)
    | InvalidWorkspaceIndex(id: string)

  predicate KindValid(r: ResourceSpec) {
    match r.kind
    case DesktopApp => !Text.Blank(r.desktopAppId)
    case Process => !Text.Blank(r.executable)
    case Terminal => !Text.Blank(r.executable)
    case OtherKind(_) => false
  }

  predicate PlacementValid(r: ResourceSpec) {
    r.placement.Some? ==> r.placement.value.rect.Valid() && r.placement.value.workspace >= 0
  }

  predicate ResourceValid(r: ResourceSpec) {
    !Text.Blank(r.id) && !r.ownership.OtherOwnership? && KindValid(r) && PlacementValid(r)
  }

  predicate DistinctIds(rs: seq<ResourceSpec>) {
    forall i, j :: 0 <= i < j < |rs| ==> rs[i].id != rs[j].id
  }

  predicate Valid(d: DesiredState) {
    && !Text.Blank(d.workspaceId) && !Text.Blank(d.revision) && DistinctIds(d.resources)
    && forall i :: 0 <= i < |d.resources| ==> ResourceValid(d.resources[i])
  }

  /** The defects of one resource on its own, in the order they are looked for. */
  function ResourceProblem(r: ResourceSpec): (p: Option<Problem>)
    ensures p.None? <==> r.ownership.OtherOwnership? == false && KindValid(r) && PlacementValid(r)
  {
    if r.ownership.OtherOwnership? then Some(InvalidOwnership(r.id))
    else if r.kind.OtherKind? then Some(UnsupportedKind(r.id))
    else if !KindValid(r) then Some(if r.kind.DesktopApp? then AppIdRequired(r.id) else ExecutableRequired(r.id))
    else if r.placement.None? then None
    else if !r.placement.value.rect.Valid() then Some(InvalidPlacement(r.id))
    else if r.placement.value.workspace < 0 then Some(InvalidWorkspaceIndex(r.id))
    else None
  }

  /** The problem is a real defect of the definition. */
  ghost predicate Diagnoses(d: DesiredState, p: Problem) {
    match p
    case WorkspaceIdRequired => Text.Blank(d.workspaceId)
    case RevisionRequired => Text.Blank(d.revision)
    case ResourceIdRequired => exists i :: 0 <= i < |d.resources| && Text.Blank(d.resources[i].id)
    case DuplicateResource(id) =>
      exists i, j :: 0 <= i < j < |d.resources| && d.resources[i].id == id == d.resources[j].id
    case _ => exists i :: 0 <= i < |d.resources| && ResourceProblem(d.resources[i]) == Some(p)
  }

  /** DesiredState.Validate accepts exactly the valid definitions, and what it complains about is a real defect. */
  method Validate(d: DesiredState) returns (problem: Option<Problem>)
    ensures problem.None? <==> Valid(d)
    ensures problem.Some? ==> Diagnoses(d, problem.value)
  {
    if Text.Blank(d.workspaceId) { return Some(WorkspaceIdRequired); }
    if Text.Blank(d.revision) { return Some(RevisionRequired); }
    var seen: set<string> := {};
    for i := 0 to |d.resources|
      invariant forall id :: id in seen <==> exists j :: 0 <= j < i && d.resources[j].id == id
      invariant forall j, k :: 0 <= j < k < i ==> d.resources[j].id != d.resources[k].id
      invariant forall j :: 0 <= j < i ==> ResourceValid(d.resources[j])
    {
      var r := d.resources[i];
      if Text.Blank(r.id) { return Some(ResourceIdRequired); }
      if r.id in seen { return Some(DuplicateResource(r.id)); }
      seen := seen + {r.id};
      var p := ResourceProblem(r);
      if p.Some? { return p; }
    }
    return None;
  }

  /** The defects that a definition can have, one by one. */
  ghost predicate HasDefect(d: DesiredState, p: Problem) {
    match p
    case WorkspaceIdRequired => Text.TrimSpace(d.workspaceId) == ""
    case RevisionRequired => Text.TrimSpace(d.revision) == ""
    case ResourceIdRequired => exists r :: r in d.resources && Text.TrimSpace(r.id) == ""
    case DuplicateResource(id) =>
      exists i, j :: 0 <= i < j < |d.resources| && d.resources[i].id == id == d.resources[j].id
    case InvalidOwnership(id) =>
      exists r :: r in d.resources && r.id == id &&
                  r.ownership != Managed && r.ownership != Adopted && r.ownership != External
    case AppIdRequired(id) =>
      exists r :: r in d.resources && r.id == id && r.kind == DesktopApp && Text.TrimSpace(r.desktopAppId) == ""
    case ExecutableRequired(id) =>
      exists r :: r in d.resources && r.id == id && (r.kind == Process || r.kind == Terminal) &&
                  Text.TrimSpace(r.executable) == ""
    case UnsupportedKind(id) =>
      exists r :: r in d.resources && r.id == id && r.kind != DesktopApp && r.kind != Process && r.kind != Terminal
    case InvalidPlacement(id) =>
      exists r :: r in d.resources && r.id == id && r.placement.Some? && OutsideUnit(r.placement.value.rect)
    case InvalidWorkspaceIndex(id) =>
      exists r :: r in d.resources && r.id == id && r.placement.Some? && r.placement.value.workspace < 0
  }

  predicate OutsideUnit(r: NormalizedRect) {
    r.x < 0.0 || r.y < 0.0 || r.width <= 0.0 || r.height <= 0.0 || r.x + r.width > 1.0 || r.y + r.height > 1.0
  }

  lemma ProblemIsDefect(d: DesiredState, r: ResourceSpec)
    requires r in d.resources
    ensures ResourceProblem(r).Some? ==> HasDefect(d, ResourceProblem(r).value)
  {
    hide Text.TrimSpace;
  }

  /** A definition is valid exactly when it has none of these defects, and what is diagnosed is one of them. */
  lemma ValidExactly(d: DesiredState, p: Problem)
    ensures Valid(d) <==> forall q :: !HasDefect(d, q)
    ensures Diagnoses(d, p) ==> HasDefect(d, p)
  {
    hide Text.TrimSpace, ResourceProblem;
    if Valid(d) {
      forall q ensures !HasDefect(d, q) { ValidHasNoDefect(d, q); }
    } else {
      var q := DefectOf(d);
      assert HasDefect(d, q);
    }
    if Diagnoses(d, p) { DiagnosedIsDefect(d, p); }
  }

  lemma ValidHasNoDefect(d: DesiredState, p: Problem)
    requires Valid(d)
    ensures !HasDefect(d, p)
  {
    hide Text.TrimSpace;
    assert forall r :: r in d.resources ==> ResourceValid(r);
  }

  lemma DiagnosedIsDefect(d: DesiredState, p: Problem)
    requires Diagnoses(d, p)
    ensures HasDefect(d, p)
  {
    hide Text.TrimSpace, ResourceProblem;
    if p.ResourceIdRequired? {
      var i :| 0 <= i < |d.resources| && Text.Blank(d.resources[i].id);
      assert d.resources[i] in d.resources;
    } else if !p.WorkspaceIdRequired? && !p.RevisionRequired? && !p.DuplicateResource? {
      var i :| 0 <= i < |d.resources| && ResourceProblem(d.resources[i]) == Some(p);
      ProblemIsDefect(d, d.resources[i]);
    }
  }

  lemma DefectOf(d: DesiredState) returns (p: Problem)
    requires !Valid(d)
    ensures HasDefect(d, p)
  {
    hide Text.TrimSpace, ResourceProblem;
    if Text.Blank(d.workspaceId) {
      p := WorkspaceIdRequired;
    } else if Text.Blank(d.revision) {
      p := RevisionRequired;
    } else if i, j :| 0 <= i < j < |d.resources| && d.resources[i].id == d.resources[j].id {
      p := DuplicateResource(d.resources[i].id);
    } else {
      var i :| 0 <= i < |d.resources| && !ResourceValid(d.resources[i]);
      assert d.resources[i] in d.resources;
      if Text.Blank(d.resources[i].id) {
        p := ResourceIdRequired;
      } else {
        p := ResourceProblem(d.resources[i]).value;
        ProblemIsDefect(d, d.resources[i]);
      }
    }
  }
}
