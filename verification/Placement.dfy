/** Resolving a normalised placement to logical pixels and recognising it
    (internal/adapters/shelldesktop/placement.go, internal/providers/gnomeshell/protocol.go). */
module Placement {
  import Text
  import opened Sorting
  import opened Wrappers
  import opened Workspace

  datatype Monitor = Monitor(ref: string, index: int, primary: bool, scale: real, geometry: LogicalRect,
                             workArea: LogicalRect)

  datatype Topology = Topology(revision: string, primaryRef: string, monitors: seq<Monitor>)

  /** `workspace` is Some(n) when the window's workspace id is the one that a target workspace n has. */
  datatype Window = Window(id: string, workspace: Option<int>, monitorRef: string, frame: LogicalRect)

  datatype ResolvedPlacement = ResolvedPlacement(
    topologyRevision: string, monitorRef: string, monitorIndex: int, workspace: int, rect: LogicalRect)

  datatype Error = IntentRequired | TopologyUnavailable | MonitorUnavailable | OutsideWorkArea

  datatype Outcome<+T> = Ok(value: T) | Err(error: Error)

  // ----- The topology -----

  predicate MonitorValid(m: Monitor) {
    !Text.Blank(m.ref) && m.index >= 0 && m.scale > 0.0 && m.geometry.Valid() && m.workArea.Valid()
  }

  function PrimaryCount(ms: seq<Monitor>): nat {
    if ms == [] then 0 else PrimaryCount(ms[..|ms| - 1]) + if ms[|ms| - 1].primary then 1 else 0
  }

  predicate TopologyValid(t: Topology) {
    && !Text.Blank(t.revision) && t.monitors != []
    && (forall i :: 0 <= i < |t.monitors| ==> MonitorValid(t.monitors[i]))
    && (forall i, j :: 0 <= i < j < |t.monitors| ==> t.monitors[i].ref != t.monitors[j].ref)
    && PrimaryCount(t.monitors) == 1
    && exists i :: 0 <= i < |t.monitors| && t.monitors[i].ref == t.primaryRef
  }

  lemma MonitorChecks(m: Monitor)
    ensures MonitorValid(m) <==>
            !(Text.Blank(m.ref) || m.index < 0 || m.scale <= 0.0 || !m.geometry.Valid() || !m.workArea.Valid())
  {
  }

  lemma NoPrimary()
    ensures PrimaryCount([]) == 0
  {
  }

  lemma PrimaryNext(ms: seq<Monitor>, i: nat)
    requires i < |ms|
    ensures PrimaryCount(ms[..i + 1]) == PrimaryCount(ms[..i]) + if ms[i].primary then 1 else 0
  {
    assert ms[..i + 1][..i] == ms[..i];
  }

  method ValidateTopology(t: Topology) returns (ok: bool)
    ensures ok <==> TopologyValid(t)
  {
    hide MonitorValid, PrimaryCount, Text.Blank;
    if Text.Blank(t.revision) || |t.monitors| == 0 { return false; }
    var seen: set<string> := {};
    var primaries := 0;
    NoPrimary();
    for i := 0 to |t.monitors|
      invariant forall r :: r in seen <==> exists j :: 0 <= j < i && t.monitors[j].ref == r
      invariant forall j :: 0 <= j < i ==> MonitorValid(t.monitors[j])
      invariant forall j, k :: 0 <= j < k < i ==> t.monitors[j].ref != t.monitors[k].ref
      invariant primaries == PrimaryCount(t.monitors[..i])
    {
      var m := t.monitors[i];
      MonitorChecks(m);
      PrimaryNext(t.monitors, i);
      if Text.Blank(m.ref) || m.index < 0 || m.scale <= 0.0 || !m.geometry.Valid() || !m.workArea.Valid() {
        return false;
      }
      if m.ref in seen { return false; }
      seen := seen + {m.ref};
      if m.primary { primaries := primaries + 1; }
    }
    assert t.monitors[..|t.monitors|] == t.monitors;
    if primaries != 1 { return false; }
    return t.primaryRef in seen;
  }

  // ----- The monitor -----

  predicate ByIndex(a: Monitor, b: Monitor) {
    a.index <= b.index
  }

  const MONITOR_PREFIX := "monitor:"

  /** What a role asks for; the number after the prefix may be malformed. */
  datatype Role = Primary | Secondary | Numbered(index: Option<int>) | Named

  function RoleOf(role: string): Role {
    if role == "" || role == "primary" then Primary
    else if role == "secondary" then Secondary
    else if MONITOR_PREFIX <= role then Numbered(Text.Atoi(role[|MONITOR_PREFIX|..]))
    else Named
  }

  predicate Malformed(role: string) {
    match RoleOf(role)
    case Numbered(index) => index.None? || index.value < 0
    case _ => false
  }

  predicate IsPrimary(m: Monitor, t: Topology) {
    m.ref == t.primaryRef || m.primary
  }

  /** The monitor fits the role. */
  predicate Plays(m: Monitor, role: string, t: Topology) {
    match RoleOf(role)
    case Primary => IsPrimary(m, t)
    case Secondary => !IsPrimary(m, t)
    case Numbered(index) => m.ref == role || index == Some(m.index)
    case Named => m.ref == role
  }

  function FirstPlaying(ms: seq<Monitor>, role: string, t: Topology): (r: Option<Monitor>)
    ensures r.None? <==> forall i :: 0 <= i < |ms| ==> !Plays(ms[i], role, t)
    ensures r.Some? ==> r.value in ms && Plays(r.value, role, t)
  {
    if ms == [] then None
    else if Plays(ms[0], role, t) then Some(ms[0])
    else
      assert ms == [ms[0]] + ms[1..];
      FirstPlaying(ms[1..], role, t)
  }

  function MonitorFor(role: string, t: Topology): Option<Monitor> {
    if Malformed(role) then None else FirstPlaying(Sort(ByIndex, t.monitors), role, t)
  }

  lemma {:induction false} FirstPlayingAt(ms: seq<Monitor>, role: string, t: Topology, i: nat)
    requires i < |ms| && Plays(ms[i], role, t) && forall j :: 0 <= j < i ==> !Plays(ms[j], role, t)
    ensures FirstPlaying(ms, role, t) == Some(ms[i])
  {
    if i > 0 {
      FirstPlayingAt(ms[1..], role, t, i - 1);
    }
  }

  lemma SortedMonitors(t: Topology)
    ensures Sorted(ByIndex, Sort(ByIndex, t.monitors))
    ensures forall m :: m in Sort(ByIndex, t.monitors) <==> m in t.monitors
  {
    SortIsSorted(ByIndex, t.monitors);
    MembersOfPermutation(t.monitors, Sort(ByIndex, t.monitors));
  }

  lemma ValidTopologyHasPrimary(t: Topology)
    requires TopologyValid(t)
    ensures exists m :: m in t.monitors && IsPrimary(m, t)
  {
    var i :| 0 <= i < |t.monitors| && t.monitors[i].ref == t.primaryRef;
    assert t.monitors[i] in t.monitors;
  }

  lemma Chosen(role: string, t: Topology, ms: seq<Monitor>, i: nat)
    requires !Malformed(role) && ms == Sort(ByIndex, t.monitors)
    requires i < |ms| && Plays(ms[i], role, t) && forall j :: 0 <= j < i ==> !Plays(ms[j], role, t)
    ensures MonitorFor(role, t) == Some(ms[i])
  {
    FirstPlayingAt(ms, role, t, i);
  }

  lemma NoneChosen(role: string, t: Topology, ms: seq<Monitor>)
    requires ms == Sort(ByIndex, t.monitors) && forall j :: 0 <= j < |ms| ==> !Plays(ms[j], role, t)
    ensures MonitorFor(role, t) == None
  {
  }

  lemma SomePrimary(role: string, t: Topology, ms: seq<Monitor>)
    requires TopologyValid(t) && RoleOf(role).Primary? && ms == Sort(ByIndex, t.monitors)
    ensures exists j :: 0 <= j < |ms| && Plays(ms[j], role, t)
  {
    ValidTopologyHasPrimary(t);
    SortedMonitors(t);
    var m :| m in t.monitors && IsPrimary(m, t);
    assert m in ms;
    var j :| 0 <= j < |ms| && ms[j] == m;
  }

  method ResolveMonitor(role: string, t: Topology) returns (r: Option<Monitor>)
    requires TopologyValid(t)
    ensures r == MonitorFor(role, t)
  {
    var ms := Sort(ByIndex, t.monitors);
    hide TopologyValid, Sort, Sorted, RoleOf, MonitorFor, FirstPlaying;
    var kind := RoleOf(role);
    if kind.Primary? {
      for i := 0 to |ms|
        invariant forall j :: 0 <= j < i ==> !Plays(ms[j], role, t)
      {
        if ms[i].ref == t.primaryRef || ms[i].primary {
          Chosen(role, t, ms, i);
          return Some(ms[i]);
        }
      }
      SomePrimary(role, t, ms);
    }
    if kind.Secondary? {
      for i := 0 to |ms|
        invariant forall j :: 0 <= j < i ==> !Plays(ms[j], role, t)
      {
        if ms[i].ref != t.primaryRef && !ms[i].primary {
          Chosen(role, t, ms, i);
          return Some(ms[i]);
        }
      }
      NoneChosen(role, t, ms);
      return None;
    }
    if kind.Numbered? {
      var index := kind.index;
      if index.None? || index.value < 0 {
        assert Malformed(role);
        MalformedFindsNone(role, t);
        return None;
      }
      for i := 0 to |ms|
        invariant forall j :: 0 <= j < i ==> !Plays(ms[j], role, t)
      {
        if ms[i].index == index.value || ms[i].ref == role {
          Chosen(role, t, ms, i);
          return Some(ms[i]);
        }
      }
    }
    for i := 0 to |ms|
      invariant forall j :: 0 <= j < i ==> !Plays(ms[j], role, t)
    {
      if ms[i].ref == role {
        Chosen(role, t, ms, i);
        return Some(ms[i]);
      }
    }
    NoneChosen(role, t, ms);
    return None;
  }

  lemma MalformedFindsNone(role: string, t: Topology)
    requires Malformed(role)
    ensures MonitorFor(role, t) == None
  {
  }

  /** The monitor found is, among those that fit the role, one with the lowest index; on a valid topology
      the primary role always finds one. */
  lemma MonitorForIsLowest(role: string, t: Topology)
    requires TopologyValid(t)
    ensures MonitorFor(role, t).Some? ==>
              var m := MonitorFor(role, t).value;
              m in t.monitors && Plays(m, role, t) && forall n :: n in t.monitors && Plays(n, role, t) ==>
                m.index <= n.index
    ensures MonitorFor(role, t).None? <==> Malformed(role) || forall n :: n in t.monitors ==> !Plays(n, role, t)
    ensures role == "" || role == "primary" ==> MonitorFor(role, t).Some?
  {
    SortedMonitors(t);
    ValidTopologyHasPrimary(t);
    LowestOfSorted(Sort(ByIndex, t.monitors), role, t);
  }

  lemma {:induction false} LowestOfSorted(ms: seq<Monitor>, role: string, t: Topology)
    requires Sorted(ByIndex, ms)
    ensures FirstPlaying(ms, role, t).Some? ==>
              forall n :: n in ms && Plays(n, role, t) ==> FirstPlaying(ms, role, t).value.index <= n.index
  {
    if ms != [] {
      if Plays(ms[0], role, t) {
        forall n | n in ms ensures ms[0].index <= n.index {
          var j :| 0 <= j < |ms| && ms[j] == n;
          assert j == 0 || ByIndex(ms[0], ms[j]);
        }
      } else {
        LowestOfSorted(ms[1..], role, t);
        assert forall n :: n in ms ==> n == ms[0] || n in ms[1..];
      }
    }
  }

  // ----- The rectangle -----

  /** math.Round: to the nearest integer, halves away from zero. */
  function Round(x: real): (r: int)
    ensures -0.5 <= r as real - x <= 0.5
    ensures x >= 0.0 ==> r as real - x > -0.5
    ensures x <= 0.0 ==> r as real - x < 0.5
  {
    if x >= 0.0 then (x + 0.5).Floor else -((-x + 0.5).Floor)
  }

  function Scale(fraction: real, length: int): real {
    fraction * length as real
  }

  /** The length of a side that exactly starts at `from` and is `side` long, in an area of the given
      length: rounded, at least one pixel, and cut off at the far edge. */
  function Extent(from: real, side: real, length: int): int {
    var start, rounded := Round(from), Round(side);
    var full := if rounded < 1 then 1 else rounded;
    if start + full > length then length - start else full
  }

  function Placed(n: NormalizedRect, area: LogicalRect): (r: Outcome<LogicalRect>) {
    var left, top := Scale(n.x, area.width), Scale(n.y, area.height);
    var width := Extent(left, Scale(n.width, area.width), area.width);
    var height := Extent(top, Scale(n.height, area.height), area.height);
    if width > 0 && height > 0 then Ok(LogicalRect(area.x + Round(left), area.y + Round(top), width, height))
    else Err(OutsideWorkArea)
  }

  method PlaceRect(n: NormalizedRect, area: LogicalRect) returns (r: Outcome<LogicalRect>)
    ensures r == Placed(n, area)
  {
    var x := area.x + Round(Scale(n.x, area.width));
    var y := area.y + Round(Scale(n.y, area.height));
    var width := Round(Scale(n.width, area.width));
    var height := Round(Scale(n.height, area.height));
    hide Round, Scale;
    if width < 1 { width := 1; }
    if height < 1 { height := 1; }
    if x + width > area.x + area.width { width := area.x + area.width - x; }
    if y + height > area.y + area.height { height := area.y + area.height - y; }
    if !(width > 0 && height > 0) { return Err(OutsideWorkArea); }
    r := Ok(LogicalRect(x, y, width, height));
  }

  lemma ScaleFacts(f: real, g: real, length: int)
    requires f >= 0.0 && g > 0.0 && f + g <= 1.0 && length > 0
    ensures Scale(f, length) >= 0.0 && Scale(g, length) > 0.0
    ensures Scale(f + g, length) == Scale(f, length) + Scale(g, length) <= length as real
  {
    var l := length as real;
    assert (f + g) * l == f * l + g * l;
    assert l - (f + g) * l == (1.0 - f - g) * l;
    assert (1.0 - f - g) * l >= 0.0;
  }

  /** One side of a rectangle that lies in an area of the given length: it starts and ends inside the
      area, ends within a pixel and a half of where it exactly should, and is lost (has no length) exactly
      when its start rounds to the far edge, which needs a side of half a pixel or less. */
  lemma SideIsClose(from: real, side: real, length: int)
    requires from >= 0.0 && side > 0.0 && from + side <= length as real
    ensures 0 <= Round(from) && 0 <= Extent(from, side, length) && Round(from) + Extent(from, side, length) <= length
    ensures Extent(from, side, length) == 0 <==> Round(from) == length
    ensures Extent(from, side, length) == 0 ==> side <= 0.5
    ensures -1.5 <= (Round(from) + Extent(from, side, length)) as real - (from + side) <= 1.5
  {
    assert 0 <= Round(from) <= length;
    hide Round;
  }

  ghost predicate Within(a: int, exact: real, tolerance: real) {
    -tolerance <= a as real - exact <= tolerance
  }

  /** Each edge of the pixel rectangle is close to the exact one: left and top within `near`, right and
      bottom within `far`. */
  ghost predicate EdgesWithin(r: LogicalRect, n: NormalizedRect, area: LogicalRect, nearTo: real, farTo: real) {
    && Within(r.x, area.x as real + Scale(n.x, area.width), nearTo)
    && Within(r.y, area.y as real + Scale(n.y, area.height), nearTo)
    && Within(r.x + r.width, area.x as real + Scale(n.x + n.width, area.width), farTo)
    && Within(r.y + r.height, area.y as real + Scale(n.y + n.height, area.height), farTo)
  }

  predicate Inside(r: LogicalRect, area: LogicalRect) {
    area.x <= r.x && area.y <= r.y && r.x + r.width <= area.x + area.width && r.y + r.height <= area.y + area.height
  }

  /** A valid normalised rectangle is placed inside the area, at least one pixel wide and high, with its
      left and top edges within half a pixel and its right and bottom edges within a pixel and a half of
      the exact ones. */
  lemma PlacedIsClose(n: NormalizedRect, area: LogicalRect)
    requires n.Valid() && area.Valid()
    ensures Placed(n, area).Ok? ==>
              var r := Placed(n, area).value;
              r.width >= 1 && r.height >= 1 && Inside(r, area) && EdgesWithin(r, n, area, 0.5, 1.5)
  {
    ScaleFacts(n.x, n.width, area.width);
    ScaleFacts(n.y, n.height, area.height);
    SideIsClose(Scale(n.x, area.width), Scale(n.width, area.width), area.width);
    SideIsClose(Scale(n.y, area.height), Scale(n.height, area.height), area.height);
    hide Round, Extent, Scale;
  }

  /** A side is as long as asked to the nearest pixel, but at least one pixel long, and it is cut short only
      by the far edge. */
  ghost predicate SideIsKept(start: int, side: int, exact: real, end: int) {
    && side as real <= (if exact < 0.5 then 1.0 else exact + 0.5)
    && (exact - 0.5 <= side as real || start + side == end)
  }

  lemma SideLength(from: real, side: real, length: int)
    requires from >= 0.0 && side > 0.0 && from + side <= length as real
    ensures SideIsKept(Round(from), Extent(from, side, length), side, length)
  {
  }

  /** The placed rectangle is as wide and as high as asked, in that sense. */
  lemma PlacedKeepsSides(n: NormalizedRect, area: LogicalRect)
    requires n.Valid() && area.Valid()
    ensures Placed(n, area).Ok? ==>
              var r := Placed(n, area).value;
              && SideIsKept(r.x, r.width, Scale(n.width, area.width), area.x + area.width)
              && SideIsKept(r.y, r.height, Scale(n.height, area.height), area.y + area.height)
  {
    ScaleFacts(n.x, n.width, area.width);
    ScaleFacts(n.y, n.height, area.height);
    SideLength(Scale(n.x, area.width), Scale(n.width, area.width), area.width);
    SideLength(Scale(n.y, area.height), Scale(n.height, area.height), area.height);
    hide Round, Extent, Scale;
  }

  /** It cannot be placed exactly when its left or top edge rounds to the far edge of the area; so never
      when it is more than half a pixel wide and high. */
  lemma PlacedFailsExactly(n: NormalizedRect, area: LogicalRect)
    requires n.Valid() && area.Valid()
    ensures Placed(n, area).Err? <==>
              Round(Scale(n.x, area.width)) == area.width || Round(Scale(n.y, area.height)) == area.height
    ensures Placed(n, area).Err? ==> Scale(n.width, area.width) <= 0.5 || Scale(n.height, area.height) <= 0.5
  {
    ScaleFacts(n.x, n.width, area.width);
    ScaleFacts(n.y, n.height, area.height);
    SideIsClose(Scale(n.x, area.width), Scale(n.width, area.width), area.width);
    SideIsClose(Scale(n.y, area.height), Scale(n.height, area.height), area.height);
    hide Round, Extent, Scale;
  }

  // ----- Placements -----

  function AreaOf(m: Monitor): LogicalRect {
    if m.workArea.Valid() then m.workArea else m.geometry
  }

  function Resolve(intent: Option<PlacementIntent>, t: Topology): Outcome<ResolvedPlacement> {
    if intent.None? then Err(IntentRequired)
    else if !TopologyValid(t) then Err(TopologyUnavailable)
    else
      match MonitorFor(Text.TrimSpace(intent.value.monitorRole), t)
      case None => Err(MonitorUnavailable)
      case Some(m) =>
        match Placed(intent.value.rect, AreaOf(m))
        case Err(e) => Err(e)
        case Ok(rect) => Ok(ResolvedPlacement(t.revision, m.ref, m.index, intent.value.workspace, rect))
  }

  method ResolvePlacement(intent: Option<PlacementIntent>, t: Topology) returns (r: Outcome<ResolvedPlacement>)
    ensures r == Resolve(intent, t)
  {
    if intent.None? { return Err(IntentRequired); }
    var ok := ValidateTopology(t);
    if !ok { return Err(TopologyUnavailable); }
    var monitor := ResolveMonitor(Text.TrimSpace(intent.value.monitorRole), t);
    if monitor.None? { return Err(MonitorUnavailable); }
    var m := monitor.value;
    var area := m.workArea;
    if !area.Valid() { area := m.geometry; }
    var rect := PlaceRect(intent.value.rect, area);
    if rect.Err? { return Err(rect.error); }
    r := Ok(ResolvedPlacement(t.revision, m.ref, m.index, intent.value.workspace, rect.value));
  }

  predicate Near(a: int, b: int) {
    -2 <= a - b <= 2
  }

  predicate PlacementReached(target: ResolvedPlacement, w: Window, topologyRevision: string) {
    && target.topologyRevision != "" && topologyRevision == target.topologyRevision
    && w.monitorRef == target.monitorRef && w.workspace == Some(target.workspace)
    && Near(w.frame.x, target.rect.x) && Near(w.frame.y, target.rect.y)
    && Near(w.frame.width, target.rect.width) && Near(w.frame.height, target.rect.height)
  }

  lemma ResolvedFrom(intent: PlacementIntent, t: Topology) returns (m: Monitor)
    requires Resolve(Some(intent), t).Ok?
    ensures m in t.monitors && Plays(m, Text.TrimSpace(intent.monitorRole), t) && m.workArea.Valid()
    ensures
      var p, rect := Resolve(Some(intent), t).value, Placed(intent.rect, m.workArea);
      && rect.Ok? && p == ResolvedPlacement(t.revision, m.ref, m.index, intent.workspace, rect.value) &&
         t.revision != ""
  {
    MonitorForIsLowest(Text.TrimSpace(intent.monitorRole), t);
    m := MonitorFor(Text.TrimSpace(intent.monitorRole), t).value;
    var i :| 0 <= i < |t.monitors| && t.monitors[i] == m;
    assert MonitorValid(m);
    hide Placed, Plays, MonitorFor;
  }

  /** A resolved placement is fit for a request: its fields are not blank, negative or empty. */
  lemma ResolvedIsComplete(intent: PlacementIntent, t: Topology)
    requires Resolve(Some(intent), t).Ok?
    ensures
      var p := Resolve(Some(intent), t).value;
      && !Text.Blank(p.topologyRevision) && !Text.Blank(p.monitorRef) && p.monitorIndex >= 0 && p.rect.Valid()
      && p.workspace == intent.workspace
  {
    var m := ResolvedFrom(intent, t);
    var i :| 0 <= i < |t.monitors| && t.monitors[i] == m;
    assert MonitorValid(m);
    hide Text.Blank, MonitorFor, Extent, Round, Scale, Plays;
  }

  lemma RecognisedIsClose(p: ResolvedPlacement, w: Window, revision: string, n: NormalizedRect, area: LogicalRect)
    requires PlacementReached(p, w, revision) && EdgesWithin(p.rect, n, area, 0.5, 1.5)
    ensures EdgesWithin(w.frame, n, area, 2.5, 5.5)
  {
    hide Scale;
  }

  /** What a resolved placement is, for any intent whose rectangle is valid: a rectangle in the work area
      of a monitor of the topology that fits the intent's role.  A window put exactly there is recognised,
      and a window that is recognised has its left and top edges within 2.5 and its right and bottom
      edges within 5.5 logical pixels of the exact rectangle, on that monitor and workspace. */
  lemma ResolvedIsFaithful(intent: PlacementIntent, t: Topology, w: Window)
    requires intent.rect.Valid() && Resolve(Some(intent), t).Ok?
    ensures
      var p := Resolve(Some(intent), t).value;
      exists m :: m in t.monitors && Plays(m, Text.TrimSpace(intent.monitorRole), t) && m.ref == p.monitorRef &&
        Inside(p.rect, m.workArea) && p.rect.Valid() &&
        (PlacementReached(p, w, t.revision) ==>
          w.monitorRef == m.ref && w.workspace == Some(intent.workspace) &&
            EdgesWithin(w.frame, intent.rect, m.workArea, 2.5, 5.5))
    ensures
      var p := Resolve(Some(intent), t).value;
      PlacementReached(p, Window(w.id, Some(p.workspace), p.monitorRef, p.rect), t.revision)
  {
    var m := ResolvedFrom(intent, t);
    PlacedIsClose(intent.rect, m.workArea);
    var p := Resolve(Some(intent), t).value;
    hide Placed, Plays, Resolve, Text.TrimSpace, EdgesWithin, Inside;
    if PlacementReached(p, w, t.revision) { RecognisedIsClose(p, w, t.revision, intent.rect, m.workArea); }
  }

  // ----- What a role asks for -----

  /** No role and "primary" ask for the primary monitor, "secondary" for any other, "monitor:n" for the
      monitor of that index or of that very name, and anything else for the monitor of that name. */
  lemma RoleMeaning(m: Monitor, t: Topology, role: string, n: nat)
    requires n <= Text.MAX_INT
    ensures role == "" || role == "primary" ==> (Plays(m, role, t) <==> m.ref == t.primaryRef || m.primary)
    ensures role == "secondary" ==> (Plays(m, role, t) <==> m.ref != t.primaryRef && !m.primary)
    ensures role == "monitor:" + Text.Itoa(n) ==> (Plays(m, role, t) <==> m.ref == role || m.index == n)
    ensures role == "monitor:" + Text.Itoa(n) ==> !Malformed(role)
    ensures role != "" && role != "primary" && role != "secondary" && !("monitor:" <= role) ==>
              (Plays(m, role, t) <==> m.ref == role) && !Malformed(role)
  {
    hide Text.Itoa, Text.Atoi;
    Text.AtoiReadsItoa(n);
    if role == "monitor:" + Text.Itoa(n) {
      assert role[|MONITOR_PREFIX|..] == Text.Itoa(n);
      assert role[0] == 'm';
    }
  }

  /** A window is recognised exactly when topology, monitor and workspace are those of the target and its
      frame is off by at most two pixels in each direction and length. */
  lemma RecognisedExactly(target: ResolvedPlacement, w: Window, topologyRevision: string, dx: int, dy: int, dw: int,
                          dh: int)
    requires w.frame.x == target.rect.x + dx && w.frame.y == target.rect.y + dy
    requires w.frame.width == target.rect.width + dw && w.frame.height == target.rect.height + dh
    ensures PlacementReached(target, w, topologyRevision) <==>
            && target.topologyRevision == topologyRevision != "" && w.monitorRef == target.monitorRef
            && w.workspace == Some(target.workspace)
            && -2 <= dx <= 2 && -2 <= dy <= 2 && -2 <= dw <= 2 && -2 <= dh <= 2
  {
  }

  /** A resolved placement is on the fitting monitor of lowest index, in the workspace asked for. */
  lemma ResolvedOnLowest(intent: PlacementIntent, t: Topology)
    requires Resolve(Some(intent), t).Ok?
    ensures
      var p, role := Resolve(Some(intent), t).value, Text.TrimSpace(intent.monitorRole);
      && p.topologyRevision == t.revision && p.workspace == intent.workspace
      && exists m :: m in t.monitors && Plays(m, role, t) && p.monitorRef == m.ref && p.monitorIndex == m.index &&
                     Placed(intent.rect, m.workArea) == Ok(p.rect) &&
                     forall n :: n in t.monitors && Plays(n, role, t) ==> m.index <= n.index
  {
    MonitorForIsLowest(Text.TrimSpace(intent.monitorRole), t);
    var m := MonitorFor(Text.TrimSpace(intent.monitorRole), t).value;
    var i :| 0 <= i < |t.monitors| && t.monitors[i] == m;
    assert MonitorValid(m);
    hide Placed, Plays, MonitorFor;
  }

  /** Why a placement does not resolve. */
  lemma ResolveFailsExactly(intent: Option<PlacementIntent>, t: Topology)
    ensures Resolve(intent, t) == Err(IntentRequired) <==> intent.None?
    ensures Resolve(intent, t) == Err(TopologyUnavailable) <==> intent.Some? && !TopologyValid(t)
    ensures
      Resolve(intent, t) == Err(MonitorUnavailable) <==>
      && intent.Some? && TopologyValid(t)
      && (Malformed(Text.TrimSpace(intent.value.monitorRole)) ||
          forall n :: n in t.monitors ==> !Plays(n, Text.TrimSpace(intent.value.monitorRole), t))
  {
    hide Plays, MonitorFor, Malformed;
    if intent.Some? && TopologyValid(t) { MonitorForIsLowest(Text.TrimSpace(intent.value.monitorRole), t); }
  }

  /** A topology is valid exactly when it has a revision, sound monitors under references of their own, a
      single primary one, and a primary reference that names one of them. */
  lemma TopologyExactly(t: Topology)
    ensures
      TopologyValid(t) <==>
      && Text.TrimSpace(t.revision) != ""
      && (forall m :: m in t.monitors ==>
            && Text.TrimSpace(m.ref) != "" && m.index >= 0 && m.scale > 0.0
            && m.geometry.width > 0 && m.geometry.height > 0 && m.workArea.width > 0 && m.workArea.height > 0)
      && (forall i, j :: 0 <= i < |t.monitors| && 0 <= j < |t.monitors| && t.monitors[i].ref == t.monitors[j].ref ==>
            i == j)
      && (exists i :: 0 <= i < |t.monitors| && OnlyPrimary(t.monitors, i))
      && exists m :: m in t.monitors && m.ref == t.primaryRef
  {
    hide Text.TrimSpace, PrimaryCount;
    PrimaryCountIsOne(t.monitors);
    assert forall m :: m in t.monitors <==> exists i :: 0 <= i < |t.monitors| && t.monitors[i] == m;
  }

  ghost predicate OnlyPrimary(ms: seq<Monitor>, i: nat)
    requires i < |ms|
  {
    forall j :: 0 <= j < |ms| ==> (ms[j].primary <==> j == i)
  }

  lemma {:induction false} PrimaryCountIsOne(ms: seq<Monitor>)
    ensures PrimaryCount(ms) == 0 <==> forall i :: 0 <= i < |ms| ==> !ms[i].primary
    ensures PrimaryCount(ms) == 1 <==> exists i :: 0 <= i < |ms| && OnlyPrimary(ms, i)
  {
    if ms != [] {
      var n := |ms| - 1;
      PrimaryCountIsOne(ms[..n]);
      if PrimaryCount(ms) == 1 {
        if ms[n].primary {
          assert forall i :: 0 <= i < n ==> !ms[..n][i].primary;
          assert OnlyPrimary(ms, n);
        } else {
          var i :| 0 <= i < n && OnlyPrimary(ms[..n], i);
          assert OnlyPrimary(ms, i);
        }
      }
      if i :| 0 <= i < |ms| && OnlyPrimary(ms, i) {
        if i == n { assert forall j :: 0 <= j < n ==> !ms[j].primary; } else { assert OnlyPrimary(ms[..n], i); }
      }
    }
  }
}
