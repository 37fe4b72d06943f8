/** Application surfaces and their canonical snapshots (internal/surface/model.go, snapshot.go). */
module Surface {
  import Text
  import opened Sorting
  import opened Wrappers

  /** The three named values and any other string, the empty one included. */
  datatype Attention = Normal | Wanted | Urgent | Other(name: string)

  function AttentionRank(a: Attention): nat {
    match a case Urgent => 3 case Wanted => 2 case _ => 1
  }

  datatype Status = Status(
    lifecycle: string, focused: bool, busy: bool, attention: Attention, activity: string, resource: string,
    summary: string, detail: string, progress: Option<real>, badge: string, updatedAt: int, source: string,
    confidence: nat)

  datatype StatusPatch = StatusPatch(
    lifecycle: Option<string>, focused: Option<bool>, busy: Option<bool>, attention: Option<Attention>,
    activity: Option<string>, resource: Option<string>, summary: Option<string>, detail: Option<string>,
    progress: Option<real>, badge: Option<string>)

  datatype View = View(
    id: string, providerId: string, providerWindowId: string, kind: string, title: string, active: bool, dirty: bool,
    pinned: bool, attention: Attention, progress: Option<real>, resourceRef: string, mru: nat,
    metadata: map<string, string>)

  datatype Window = Window(
    id: string, title: string, workspaceId: string, monitorRef: string, focused: bool, minimized: bool, mru: nat,
    providerOnly: bool, views: seq<View>)

  datatype ApplicationSurface = ApplicationSurface(
    appId: string, name: string, iconName: string, desktopAppId: string, windows: seq<Window>, status: Status,
    capabilities: map<string, bool>, sourceRevision: map<string, nat>)

  function Or<T>(patch: Option<T>, current: T): T {
    if patch.Some? then patch.value else current
  }

  function Unit(x: real): (r: real)
    ensures 0.0 <= r <= 1.0 && (0.0 <= x <= 1.0 ==> r == x)
    ensures (x < 0.0 ==> r == 0.0) && (x > 1.0 ==> r == 1.0)
  {
    if x < 0.0 then 0.0 else if x > 1.0 then 1.0 else x
  }

  /** A reported field replaces the current one, and an absent one leaves it. */
  predicate Takes<T(==)>(patch: Option<T>, current: T, next: T) {
    match patch case Some(v) => next == v case None => next == current
  }

  /** AppStatus.Apply. */
  function ApplyPatch(s: Status, p: StatusPatch, source: string, confidence: nat, at: int): (r: Status)
    ensures r.source == source && r.confidence == confidence && r.updatedAt == at
    ensures Takes(p.lifecycle, s.lifecycle, r.lifecycle) && Takes(p.focused, s.focused, r.focused)
    ensures Takes(p.busy, s.busy, r.busy) && Takes(p.attention, s.attention, r.attention)
    ensures Takes(p.activity, s.activity, r.activity) && Takes(p.resource, s.resource, r.resource)
    ensures Takes(p.summary, s.summary, r.summary) && Takes(p.detail, s.detail, r.detail)
    ensures Takes(p.badge, s.badge, r.badge)
    ensures p.progress.Some? ==> r.progress == Some(Unit(p.progress.value))
    ensures p.progress.None? ==> r.progress == s.progress
  {
    Status(Or(p.lifecycle, s.lifecycle), Or(p.focused, s.focused), Or(p.busy, s.busy), Or(p.attention, s.attention),
           Or(p.activity, s.activity), Or(p.resource, s.resource), Or(p.summary, s.summary), Or(p.detail, s.detail),
           if p.progress.Some? then Some(Unit(p.progress.value)) else s.progress,
           Or(p.badge, s.badge), at, source, confidence)
  }

  /** Later reports win field by field. */
  function Override(p: StatusPatch, q: StatusPatch): StatusPatch {
    StatusPatch(
      Later(p.lifecycle, q.lifecycle), Later(p.focused, q.focused), Later(p.busy, q.busy),
      Later(p.attention, q.attention),
      Later(p.activity, q.activity), Later(p.resource, q.resource), Later(p.summary, q.summary),
      Later(p.detail, q.detail),
      Later(p.progress, q.progress), Later(p.badge, q.badge))
  }

  function Later<T>(p: Option<T>, q: Option<T>): Option<T> {
    if q.Some? then q else p
  }

  /** Two patches in a row act as one, in which the later report of each field wins. */
  lemma PatchesCompose(s: Status, p: StatusPatch, q: StatusPatch, source: string, confidence: nat, at: int,
                       source': string, confidence': nat, at': int)
    ensures ApplyPatch(ApplyPatch(s, p, source, confidence, at), q, source', confidence', at') ==
            ApplyPatch(s, Override(p, q), source', confidence', at')
  {
  }

  // ----- Normalisation -----

  /** "Comes no later than" under the comparison of views, which returns 0 for two different strings of
      equal attention rank before it looks at anything further. */
  predicate ViewLeq(x: View, y: View) {
    if x.active != y.active then x.active
    else if x.attention != y.attention then AttentionRank(x.attention) >= AttentionRank(y.attention)
    else if x.pinned != y.pinned then x.pinned
    else if x.dirty != y.dirty then x.dirty
    else if x.mru != y.mru then x.mru > y.mru
    else Text.Leq(x.id, y.id)
  }

  predicate WindowLeq(x: Window, y: Window) {
    if x.focused != y.focused then x.focused
    else if x.mru != y.mru then x.mru > y.mru
    else if x.providerOnly != y.providerOnly then !x.providerOnly
    else Text.Leq(x.id, y.id)
  }

  predicate AppLeq(x: ApplicationSurface, y: ApplicationSurface) {
    Text.Leq(x.appId, y.appId)
  }

  function SortViews(w: Window): Window {
    w.(views := Sort(ViewLeq, w.views))
  }

  function SortAllViews(ws: seq<Window>): (r: seq<Window>)
    ensures |r| == |ws| && forall i :: 0 <= i < |ws| ==> r[i] == SortViews(ws[i])
  {
    seq(|ws|, i requires 0 <= i < |ws| => SortViews(ws[i]))
  }

  /** ApplicationSurface.Normalize. */
  function Normalized(a: ApplicationSurface): ApplicationSurface {
    a.(windows := Sort(WindowLeq, SortAllViews(a.windows)))
  }

  /** Normalize as written, on the receiver's windows. */
  method Normalize(a: ApplicationSurface) returns (r: ApplicationSurface)
    ensures r == Normalized(a)
  {
    var windows := a.windows;
    for i := 0 to |windows|
      invariant |windows| == |a.windows|
      invariant forall j :: 0 <= j < |windows| ==> windows[j] == if j < i then SortViews(a.windows[j]) else a.windows[j]
    {
      windows := windows[i := windows[i].(views := Sort(ViewLeq, windows[i].views))];
    }
    assert windows == SortAllViews(a.windows);
    r := a.(windows := Sort(WindowLeq, windows));
  }

  /** The comparison of views calls these two equal although their attention differs. */
  predicate RankClash(x: View, y: View) {
    x.active == y.active && x.attention != y.attention && AttentionRank(x.attention) == AttentionRank(y.attention)
  }

  lemma ViewOrder(x: View, y: View, z: View)
    requires !RankClash(x, y) && !RankClash(y, z) && !RankClash(x, z)
    ensures ViewLeq(x, y) || ViewLeq(y, x)
    ensures ViewLeq(x, y) && ViewLeq(y, x) ==> x.id == y.id
    ensures ViewLeq(x, y) && ViewLeq(y, z) ==> ViewLeq(x, z)
  {
    TextOrder(x.id, y.id, z.id);
  }

  lemma WindowOrder(x: Window, y: Window, z: Window)
    ensures WindowLeq(x, y) || WindowLeq(y, x)
    ensures WindowLeq(x, y) && WindowLeq(y, x) ==> x.id == y.id
    ensures WindowLeq(x, y) && WindowLeq(y, z) ==> WindowLeq(x, z)
  {
    TextOrder(x.id, y.id, z.id);
  }

  lemma TextOrder(a: string, b: string, c: string)
    ensures Text.Leq(a, b) || Text.Leq(b, a)
    ensures Text.Leq(a, b) && Text.Leq(b, a) ==> a == b
    ensures Text.Leq(a, b) && Text.Leq(b, c) ==> Text.Leq(a, c)
  {
    Text.LeqTotal(a, b);
    if Text.Leq(a, b) && Text.Leq(b, a) { Text.LeqAntisymmetric(a, b); }
    if Text.Leq(a, b) && Text.Leq(b, c) { Text.LeqTransitive(a, b, c); }
  }

  ghost predicate DistinctViews(views: seq<View>) {
    forall x, y :: x in views && y in views && x.id == y.id ==> x == y
  }

  ghost predicate NoRankClash(views: seq<View>) {
    forall x, y :: x in views && y in views ==> !RankClash(x, y)
  }

  /** Views with the three named attention values never clash. */
  lemma NamedAttentionNeverClashes(views: seq<View>)
    requires forall x :: x in views ==> !x.attention.Other?
    ensures NoRankClash(views)
  {
  }

  lemma ViewsAreOrdered(views: seq<View>)
    requires NoRankClash(views) && DistinctViews(views)
    ensures TotalPreorderOn(ViewLeq, views) && TieFreeOn(ViewLeq, views)
  {
    forall x, y | x in views && y in views
      ensures (ViewLeq(x, y) || ViewLeq(y, x)) && (ViewLeq(x, y) && ViewLeq(y, x) ==> x == y)
    {
      ViewOrder(x, y, y);
    }
    forall x, y, z | x in views && y in views && z in views && ViewLeq(x, y) && ViewLeq(y, z) ensures ViewLeq(x, z) {
      ViewOrder(x, y, z);
    }
  }

  /** The order of views is canonical exactly when no two of them clash. */
  lemma ViewOrderIsCanonicalExactly(views: seq<View>)
    requires DistinctViews(views)
    ensures SortsAlike(ViewLeq, views) <==> NoRankClash(views)
  {
    hide Sort;
    if NoRankClash(views) {
      ViewsAreOrdered(views);
      forall a, b | multiset(a) == multiset(views) && multiset(b) == multiset(views)
        ensures Sort(ViewLeq, a) == Sort(ViewLeq, b)
      {
        SortCanonical(ViewLeq, views, a);
        SortCanonical(ViewLeq, views, b);
      }
    } else {
      var x, y :| x in views && y in views && RankClash(x, y);
      TiesBreakSorting(ViewLeq, views, x, y);
    }
  }

  ghost predicate DistinctWindows(ws: seq<Window>) {
    forall i, j :: 0 <= i < j < |ws| ==> ws[i].id != ws[j].id
  }

  lemma WindowsAreOrdered(ws: seq<Window>)
    requires DistinctWindows(ws)
    ensures TotalPreorderOn(WindowLeq, ws) && TieFreeOn(WindowLeq, ws)
  {
    forall x, y | x in ws && y in ws
      ensures (WindowLeq(x, y) || WindowLeq(y, x)) && (WindowLeq(x, y) && WindowLeq(y, x) ==> x == y)
    {
      WindowOrder(x, y, y);
    }
    forall x, y, z | x in ws && y in ws && z in ws && WindowLeq(x, y) && WindowLeq(y, z) ensures WindowLeq(x, z) {
      WindowOrder(x, y, z);
    }
  }

  // ----- Snapshots -----

  datatype ProviderHealth = ProviderHealth(
    providerId: string, kind: string, connected: bool, stale: bool, partial: bool, revision: nat,
    capabilities: seq<string>)

  /** The part of a snapshot that its revision covers.  The revision is a collision-free digest of it;
      the model takes the content itself. */
  datatype Content = Content(surfaces: seq<ApplicationSurface>, providers: seq<ProviderHealth>)

  datatype Revision = NoRevision | Digest(content: Content)

  datatype Snapshot = Snapshot(generation: nat, revision: Revision, surfaces: seq<ApplicationSurface>,
                               providers: seq<ProviderHealth>)

  const EMPTY: Snapshot := Snapshot(0, NoRevision, [], [])

  /** slices.Compact: drop repeats of the element just before. */
  function Compact(s: seq<string>): (r: seq<string>)
    ensures forall x :: x in r <==> x in s
    ensures s != [] ==> r != [] && r[0] == s[0]
  {
    if |s| <= 1 then s else if s[0] == s[1] then Compact(s[1..]) else [s[0]] + Compact(s[1..])
  }

  function NormalCapabilities(caps: seq<string>): seq<string> {
    Compact(Sort(Text.Leq, caps))
  }

  function NormalHealth(p: ProviderHealth): ProviderHealth {
    p.(capabilities := NormalCapabilities(p.capabilities))
  }

  predicate HealthLeq(p: ProviderHealth, q: ProviderHealth) {
    if p.providerId != q.providerId then Text.Leq(p.providerId, q.providerId) else Text.Leq(p.kind, q.kind)
  }

  function CanonicalSurfaces(surfaces: seq<ApplicationSurface>): seq<ApplicationSurface> {
    Sort(AppLeq, Map(Normalized, surfaces))
  }

  function CanonicalHealth(providers: seq<ProviderHealth>): seq<ProviderHealth> {
    Sort(HealthLeq, Map(NormalHealth, providers))
  }

  /** What semanticRevision leaves out of a surface: provider revisions and the time of the last update. */
  function Erased(a: ApplicationSurface): ApplicationSurface {
    a.(sourceRevision := map[], status := a.status.(updatedAt := 0))
  }

  function ErasedHealth(p: ProviderHealth): ProviderHealth {
    p.(revision := 0)
  }

  function ContentOf(surfaces: seq<ApplicationSurface>, providers: seq<ProviderHealth>): Content {
    Content(Map(Erased, surfaces), Map(ErasedHealth, providers))
  }

  function NewSnapshot(previous: Snapshot, surfaces: seq<ApplicationSurface>,
                       providers: seq<ProviderHealth>): (s: Snapshot)
    ensures s.revision == Digest(ContentOf(s.surfaces, s.providers))
    ensures s.generation == previous.generation + if s.revision == previous.revision then 0 else 1
    ensures s.surfaces == CanonicalSurfaces(surfaces) && s.providers == CanonicalHealth(providers)
  {
    var canonical, health := CanonicalSurfaces(surfaces), CanonicalHealth(providers);
    var revision := Digest(ContentOf(canonical, health));
    Snapshot(if previous.revision == revision then previous.generation else previous.generation + 1,
             revision, canonical, health)
  }

  /** cloneAndNormalizeSurfaces as written. */
  method CloneAndNormalize(surfaces: seq<ApplicationSurface>) returns (out: seq<ApplicationSurface>)
    ensures out == CanonicalSurfaces(surfaces)
  {
    hide Map, Normalized, Sort, AppLeq;
    out := [];
    for i := 0 to |surfaces|
      invariant |out| == i && forall j :: 0 <= j < i ==> out[j] == Normalized(surfaces[j])
    {
      var a := Normalize(surfaces[i]);
      out := out + [a];
    }
    MapIs(Normalized, surfaces, out);
    out := Sort(AppLeq, out);
  }

  // ----- Snapshots are canonical -----

  /** Windows and surfaces that the comparisons can order: distinct ids and no rank clash. */
  ghost predicate WellFormedWindow(w: Window) {
    DistinctViews(w.views) && NoRankClash(w.views)
  }

  /** Names are not used twice: what the sources give, with no condition on attention. */
  ghost predicate DistinctNames(surfaces: seq<ApplicationSurface>) {
    && (forall i, j :: 0 <= i < j < |surfaces| ==> surfaces[i].appId != surfaces[j].appId)
    && forall a :: a in surfaces ==> DistinctWindows(a.windows) && forall w :: w in a.windows ==> DistinctViews(w.views)
  }

  ghost predicate WellFormedApp(a: ApplicationSurface) {
    DistinctWindows(a.windows) && forall w :: w in a.windows ==> WellFormedWindow(w)
  }

  ghost predicate WellFormedSurfaces(surfaces: seq<ApplicationSurface>) {
    && (forall i, j :: 0 <= i < j < |surfaces| ==> surfaces[i].appId != surfaces[j].appId)
    && forall a :: a in surfaces ==> WellFormedApp(a)
  }

  /** Equal up to the order of views. */
  ghost predicate SameWindow(w: Window, x: Window) {
    w.(views := []) == x.(views := []) && multiset(w.views) == multiset(x.views)
  }

  ghost predicate WindowIn(w: Window, ws: seq<Window>) {
    exists x :: x in ws && SameWindow(w, x)
  }

  /** Equal up to the order of windows and views and up to heartbeat fields. */
  ghost predicate SameApp(a: ApplicationSurface, b: ApplicationSurface) {
    && Erased(a).(windows := []) == Erased(b).(windows := [])
    && (forall w :: w in a.windows ==> WindowIn(w, b.windows))
    && (forall w :: w in b.windows ==> WindowIn(w, a.windows))
  }

  ghost predicate AppIn(a: ApplicationSurface, surfaces: seq<ApplicationSurface>) {
    exists b :: b in surfaces && SameApp(a, b)
  }

  /** Equal up to the order of surfaces, windows and views and up to heartbeat fields. */
  ghost predicate SameSurfaces(s: seq<ApplicationSurface>, t: seq<ApplicationSurface>) {
    (forall a :: a in s ==> AppIn(a, t)) && (forall a :: a in t ==> AppIn(a, s))
  }

  lemma SortViewsCanonical(w: Window, x: Window)
    requires SameWindow(w, x) && WellFormedWindow(w)
    ensures SortViews(w) == SortViews(x)
  {
    ViewsAreOrdered(w.views);
    SortCanonical(ViewLeq, w.views, x.views);
    assert w == w.(views := []).(views := w.views) && x == x.(views := []).(views := x.views);
  }

  lemma SortedWindowsNoDup(ws: seq<Window>)
    requires DistinctWindows(ws)
    ensures NoDup(SortAllViews(ws)) && DistinctWindows(SortAllViews(ws))
  {
  }

  lemma WindowsIncluded(ws: seq<Window>, xs: seq<Window>, y: Window)
    requires forall w :: w in ws ==> WellFormedWindow(w) && WindowIn(w, xs)
    requires y in SortAllViews(ws)
    ensures y in SortAllViews(xs)
  {
    var i :| 0 <= i < |ws| && SortAllViews(ws)[i] == y;
    assert ws[i] in ws && WindowIn(ws[i], xs);
    var x :| x in xs && SameWindow(ws[i], x);
    SortViewsCanonical(ws[i], x);
    var j :| 0 <= j < |xs| && xs[j] == x;
    assert SortAllViews(xs)[j] == y;
  }

  lemma WindowsCanonical(ws: seq<Window>, xs: seq<Window>)
    requires DistinctWindows(ws) && DistinctWindows(xs)
    requires forall w :: w in ws ==> WellFormedWindow(w) && WindowIn(w, xs)
    requires forall w :: w in xs ==> WellFormedWindow(w) && WindowIn(w, ws)
    ensures Sort(WindowLeq, SortAllViews(ws)) == Sort(WindowLeq, SortAllViews(xs))
  {
    var a, b := SortAllViews(ws), SortAllViews(xs);
    SortedWindowsNoDup(ws);
    SortedWindowsNoDup(xs);
    forall y ensures y in a <==> y in b {
      if y in a { WindowsIncluded(ws, xs, y); }
      if y in b { WindowsIncluded(xs, ws, y); }
    }
    SameMembersSameMultiset(a, b);
    WindowsAreOrdered(a);
    SortCanonical(WindowLeq, a, b);
  }

  lemma NormalizedCanonical(a: ApplicationSurface, b: ApplicationSurface)
    requires SameApp(a, b) && WellFormedApp(a) && WellFormedApp(b)
    ensures Erased(Normalized(a)) == Erased(Normalized(b))
  {
    WindowsCanonical(a.windows, b.windows);
    hide WellFormedApp, WindowIn, SortAllViews, Sort;
    var ws := Normalized(a).windows;
    assert Erased(Normalized(a)) == Erased(a).(windows := []).(windows := ws);
    assert Erased(Normalized(b)) == Erased(b).(windows := []).(windows := ws);
  }

  /** Sorting commutes with a map that does not change the order. */
  lemma {:induction false} MapInsert<A(!new), B(!new)>(
    f: A -> B, leqA: (A, A) -> bool, leqB: (B, B) -> bool, x: A, s: seq<A>)
    requires forall a, b :: leqB(f(a), f(b)) <==> leqA(a, b)
    ensures Map(f, Insert(leqA, x, s)) == Insert(leqB, f(x), Map(f, s))
  {
    if s != [] && !leqA(x, s[0]) {
      MapInsert(f, leqA, leqB, x, s[1..]);
      assert Insert(leqA, x, s)[1..] == Insert(leqA, x, s[1..]);
    } else {
      assert ([x] + s)[1..] == s;
    }
  }

  lemma {:induction false} MapSort<A(!new), B(!new)>(f: A -> B, leqA: (A, A) -> bool, leqB: (B, B) -> bool, s: seq<A>)
    requires forall a, b :: leqB(f(a), f(b)) <==> leqA(a, b)
    ensures Map(f, Sort(leqA, s)) == Sort(leqB, Map(f, s))
  {
    if s != [] {
      MapSort(f, leqA, leqB, s[1..]);
      MapInsert(f, leqA, leqB, s[0], Sort(leqA, s[1..]));
    }
  }

  function Core(a: ApplicationSurface): ApplicationSurface {
    Erased(Normalized(a))
  }

  lemma ErasedKeepsOrder()
    ensures forall a, b :: AppLeq(Erased(a), Erased(b)) <==> AppLeq(a, b)
  {
    hide Text.Leq;
  }

  lemma CoresAreContent(surfaces: seq<ApplicationSurface>)
    ensures Map(Erased, CanonicalSurfaces(surfaces)) == Sort(AppLeq, Map(Core, surfaces))
  {
    assert Map(Erased, Map(Normalized, surfaces)) == Map(Core, surfaces);
    ErasedKeepsOrder();
    hide AppLeq, Erased, Normalized, Core, Sort, Map;
    MapSort(Erased, AppLeq, AppLeq, Map(Normalized, surfaces));
  }

  lemma CoresIncluded(s: seq<ApplicationSurface>, t: seq<ApplicationSurface>, y: ApplicationSurface)
    requires WellFormedSurfaces(s) && WellFormedSurfaces(t) && (forall a :: a in s ==> AppIn(a, t))
    requires y in Map(Core, s)
    ensures y in Map(Core, t)
  {
    var i :| 0 <= i < |s| && Map(Core, s)[i] == y;
    assert s[i] in s && AppIn(s[i], t);
    var b :| b in t && SameApp(s[i], b);
    NormalizedCanonical(s[i], b);
    var j :| 0 <= j < |t| && t[j] == b;
    assert Map(Core, t)[j] == y;
  }

  lemma AppsAreOrdered(s: seq<ApplicationSurface>)
    requires forall i, j :: 0 <= i < j < |s| ==> s[i].appId != s[j].appId
    ensures NoDup(s) && TotalPreorderOn(AppLeq, s) && TieFreeOn(AppLeq, s)
  {
    forall x, y | x in s && y in s ensures (AppLeq(x, y) || AppLeq(y, x)) && (AppLeq(x, y) && AppLeq(y, x) ==> x == y) {
      TextOrder(x.appId, y.appId, y.appId);
    }
    forall x, y, z | x in s && y in s && z in s && AppLeq(x, y) && AppLeq(y, z) ensures AppLeq(x, z) {
      TextOrder(x.appId, y.appId, z.appId);
    }
  }

  /** Surfaces that differ only in order and heartbeats have the same semantic content. */
  lemma SurfacesCanonical(s: seq<ApplicationSurface>, t: seq<ApplicationSurface>)
    requires WellFormedSurfaces(s) && WellFormedSurfaces(t) && SameSurfaces(s, t)
    ensures Map(Erased, CanonicalSurfaces(s)) == Map(Erased, CanonicalSurfaces(t))
  {
    var a, b := Map(Core, s), Map(Core, t);
    CoresAreContent(s);
    CoresAreContent(t);
    forall y ensures y in a <==> y in b {
      if y in a { CoresIncluded(s, t, y); }
      if y in b { CoresIncluded(t, s, y); }
    }
    AppsAreOrdered(a);
    AppsAreOrdered(b);
    SameMembersSameMultiset(a, b);
    SortCanonical(AppLeq, a, b);
  }

  // ----- Provider health -----

  lemma HeadIsBelow(s: seq<string>, x: string)
    requires Sorted(Text.Leq, s) && |s| > 1 && s[0] != s[1] && x in s[1..]
    ensures Text.Leq(s[0], x) && s[0] != x
  {
    hide Text.Leq;
    var k :| 0 <= k < |s[1..]| && s[1..][k] == x;
    assert s[k + 1] == x;
    assert Text.Leq(s[1], x) by { Text.LeqTotal(s[1], s[1]); }
    if s[0] == x { Text.LeqAntisymmetric(s[0], s[1]); }
  }

  lemma {:induction false} CompactSorted(s: seq<string>)
    requires Sorted(Text.Leq, s)
    ensures Sorted(Text.Leq, Compact(s)) && NoDup(Compact(s))
  {
    hide Text.Leq;
    if |s| > 1 {
      CompactSorted(s[1..]);
      if s[0] != s[1] {
        var r := Compact(s[1..]);
        forall j | 0 <= j < |r| ensures Text.Leq(s[0], r[j]) && s[0] != r[j] {
          assert r[j] in s[1..];
          HeadIsBelow(s, r[j]);
        }
      }
    }
  }

  lemma TextsAreOrdered(s: seq<string>)
    ensures TotalPreorderOn(Text.Leq, s) && TieFreeOn(Text.Leq, s)
  {
    forall x, y | x in s && y in s
      ensures (Text.Leq(x, y) || Text.Leq(y, x)) && (Text.Leq(x, y) && Text.Leq(y, x) ==> x == y)
    {
      TextOrder(x, y, y);
    }
    forall x, y, z | x in s && y in s && z in s && Text.Leq(x, y) && Text.Leq(y, z) ensures Text.Leq(x, z) {
      TextOrder(x, y, z);
    }
  }

  /** Capability lists with the same members have the same normal form, whatever their order and repeats. */
  lemma CapabilitiesCanonical(a: seq<string>, b: seq<string>)
    requires forall x :: x in a <==> x in b
    ensures NormalCapabilities(a) == NormalCapabilities(b)
  {
    var p, q := Sort(Text.Leq, a), Sort(Text.Leq, b);
    TextsAreOrdered(a);
    TextsAreOrdered(b);
    SortIsSorted(Text.Leq, a);
    SortIsSorted(Text.Leq, b);
    MembersOfPermutation(a, p);
    MembersOfPermutation(b, q);
    CompactSorted(p);
    CompactSorted(q);
    TextsAreOrdered(Compact(p));
    SameMembersSameMultiset(Compact(p), Compact(q));
    SortedUnique(Text.Leq, Compact(p), Compact(q));
  }

  ghost predicate SameHealth(p: ProviderHealth, q: ProviderHealth) {
    && ErasedHealth(p).(capabilities := []) == ErasedHealth(q).(capabilities := [])
    && forall c :: c in p.capabilities <==> c in q.capabilities
  }

  ghost predicate HealthIn(p: ProviderHealth, hs: seq<ProviderHealth>) {
    exists q :: q in hs && SameHealth(p, q)
  }

  ghost predicate SameProviders(s: seq<ProviderHealth>, t: seq<ProviderHealth>) {
    (forall p :: p in s ==> HealthIn(p, t)) && (forall p :: p in t ==> HealthIn(p, s))
  }

  /** No provider is listed twice with the same kind. */
  ghost predicate DistinctProviders(s: seq<ProviderHealth>) {
    forall i, j :: 0 <= i < j < |s| ==> s[i].providerId != s[j].providerId || s[i].kind != s[j].kind
  }

  function HealthCore(p: ProviderHealth): ProviderHealth {
    ErasedHealth(NormalHealth(p))
  }

  lemma HealthIncluded(s: seq<ProviderHealth>, t: seq<ProviderHealth>, y: ProviderHealth)
    requires (forall p :: p in s ==> HealthIn(p, t)) && y in Map(HealthCore, s)
    ensures y in Map(HealthCore, t)
  {
    var i :| 0 <= i < |s| && Map(HealthCore, s)[i] == y;
    assert s[i] in s && HealthIn(s[i], t);
    var q :| q in t && SameHealth(s[i], q);
    CapabilitiesCanonical(s[i].capabilities, q.capabilities);
    assert HealthCore(s[i]) ==
           ErasedHealth(s[i]).(capabilities := []).(capabilities := NormalCapabilities(q.capabilities));
    assert HealthCore(q) == ErasedHealth(q).(capabilities := []).(capabilities := NormalCapabilities(q.capabilities));
    var j :| 0 <= j < |t| && t[j] == q;
    assert Map(HealthCore, t)[j] == y;
  }

  lemma HealthIsOrdered(s: seq<ProviderHealth>)
    requires DistinctProviders(s)
    ensures NoDup(s) && TotalPreorderOn(HealthLeq, s) && TieFreeOn(HealthLeq, s)
  {
    forall x, y | x in s && y in s
      ensures (HealthLeq(x, y) || HealthLeq(y, x)) && (HealthLeq(x, y) && HealthLeq(y, x) ==> x == y)
    {
      TextOrder(x.providerId, y.providerId, y.providerId);
      TextOrder(x.kind, y.kind, y.kind);
    }
    forall x, y, z | x in s && y in s && z in s && HealthLeq(x, y) && HealthLeq(y, z) ensures HealthLeq(x, z) {
      TextOrder(x.providerId, y.providerId, z.providerId);
      TextOrder(y.providerId, x.providerId, z.providerId);
      TextOrder(x.kind, y.kind, z.kind);
    }
  }

  lemma ErasedHealthKeepsOrder()
    ensures forall p, q :: HealthLeq(ErasedHealth(p), ErasedHealth(q)) <==> HealthLeq(p, q)
  {
    hide Text.Leq;
  }

  lemma HealthCoresAreContent(s: seq<ProviderHealth>)
    ensures Map(ErasedHealth, CanonicalHealth(s)) == Sort(HealthLeq, Map(HealthCore, s))
  {
    assert Map(ErasedHealth, Map(NormalHealth, s)) == Map(HealthCore, s);
    ErasedHealthKeepsOrder();
    hide HealthLeq, ErasedHealth, NormalHealth, HealthCore, Sort, Map;
    MapSort(ErasedHealth, HealthLeq, HealthLeq, Map(NormalHealth, s));
  }

  lemma HealthCanonical(s: seq<ProviderHealth>, t: seq<ProviderHealth>)
    requires DistinctProviders(s) && DistinctProviders(t) && SameProviders(s, t)
    ensures Map(ErasedHealth, CanonicalHealth(s)) == Map(ErasedHealth, CanonicalHealth(t))
  {
    var a, b := Map(HealthCore, s), Map(HealthCore, t);
    HealthCoresAreContent(s);
    HealthCoresAreContent(t);
    forall y ensures y in a <==> y in b {
      if y in a { HealthIncluded(s, t, y); }
      if y in b { HealthIncluded(t, s, y); }
    }
    HealthIsOrdered(a);
    HealthIsOrdered(b);
    SameMembersSameMultiset(a, b);
    SortCanonical(HealthLeq, a, b);
  }

  /** NewSnapshot is canonical: inputs that differ only in the order of surfaces, windows, views, providers
      and capabilities and in heartbeat fields get the same revision and the same generation. */
  lemma SnapshotIsCanonical(previous: Snapshot, s: seq<ApplicationSurface>, t: seq<ApplicationSurface>,
                            p: seq<ProviderHealth>, q: seq<ProviderHealth>)
    requires WellFormedSurfaces(s) && WellFormedSurfaces(t) && SameSurfaces(s, t)
    requires DistinctProviders(p) && DistinctProviders(q) && SameProviders(p, q)
    ensures NewSnapshot(previous, s, p).revision == NewSnapshot(previous, t, q).revision
    ensures NewSnapshot(previous, s, p).generation == NewSnapshot(previous, t, q).generation
  {
    SurfacesCanonical(s, t);
    HealthCanonical(p, q);
  }

  // ----- When exactly snapshots are canonical -----

  /** Every presentation of the surfaces, with windows and views in any order, gets one revision. */
  ghost predicate OneRevision(previous: Snapshot, s: seq<ApplicationSurface>, p: seq<ProviderHealth>) {
    forall t :: DistinctNames(t) && SameSurfaces(s, t) ==>
      NewSnapshot(previous, t, p).revision == NewSnapshot(previous, s, p).revision
  }

  lemma SameViewsStayWellFormed(w: Window, x: Window)
    requires SameWindow(x, w) && WellFormedWindow(w)
    ensures WellFormedWindow(x)
  {
    MembersOfPermutation(x.views, w.views);
    hide RankClash;
  }

  lemma SameAppStaysWellFormed(a: ApplicationSurface, b: ApplicationSurface)
    requires SameApp(b, a) && forall w :: w in a.windows ==> WellFormedWindow(w)
    ensures forall x :: x in b.windows ==> WellFormedWindow(x)
  {
    hide WellFormedWindow, SameWindow, Erased;
    forall x | x in b.windows ensures WellFormedWindow(x) {
      assert WindowIn(x, a.windows);
      var w :| w in a.windows && SameWindow(x, w);
      SameViewsStayWellFormed(w, x);
    }
  }

  lemma SameSurfacesStayWellFormed(s: seq<ApplicationSurface>, t: seq<ApplicationSurface>)
    requires WellFormedSurfaces(s) && DistinctNames(t) && SameSurfaces(s, t)
    ensures WellFormedSurfaces(t)
  {
    hide WellFormedWindow, SameWindow, SameApp;
    forall b | b in t ensures forall x :: x in b.windows ==> WellFormedWindow(x) {
      assert AppIn(b, s);
      var a :| a in s && SameApp(b, a);
      SameAppStaysWellFormed(a, b);
    }
  }

  /** Equal content of single surfaces means equal sorted views, window by window. */
  lemma EqualCoresEqualViews(a: ApplicationSurface, b: ApplicationSurface, k: nat)
    requires |a.windows| == |b.windows| && k < |a.windows| && Core(a) == Core(b) && DistinctWindows(b.windows)
    requires forall l :: 0 <= l < |a.windows| ==> a.windows[l].id == b.windows[l].id
    ensures Sort(ViewLeq, a.windows[k].views) == Sort(ViewLeq, b.windows[k].views)
  {
    hide Sort, WindowLeq, ViewLeq;
    var v, w := SortAllViews(a.windows), SortAllViews(b.windows);
    assert Core(a).windows == Sort(WindowLeq, v) && Core(b).windows == Sort(WindowLeq, w);
    MembersOfPermutation(v, w);
    assert v[k] in w;
    var l :| 0 <= l < |w| && w[l] == v[k];
    assert w[l].id == b.windows[l].id && v[k].id == a.windows[k].id;
    assert l == k;
  }

  lemma CoreIsShared(s: seq<ApplicationSurface>, t: seq<ApplicationSurface>, i: nat) returns (j: nat)
    requires Map(Erased, CanonicalSurfaces(s)) == Map(Erased, CanonicalSurfaces(t)) && i < |s|
    ensures j < |t| && Core(t[j]) == Core(s[i])
  {
    hide Sort, CanonicalSurfaces, SortAllViews, Core, Map, Erased;
    CoresAreContent(s);
    CoresAreContent(t);
    var c, e := Map(Core, s), Map(Core, t);
    assert multiset(c) == multiset(Sort(AppLeq, c)) == multiset(Sort(AppLeq, e)) == multiset(e);
    MembersOfPermutation(c, e);
    assert c[i] in e;
    j :| 0 <= j < |e| && e[j] == c[i];
  }

  lemma EqualContentEqualCores(s: seq<ApplicationSurface>, t: seq<ApplicationSurface>, i: nat)
    requires |s| == |t| && i < |s| && forall k :: 0 <= k < |s| ==> s[k].appId == t[k].appId
    requires forall k, l :: 0 <= k < l < |t| ==> t[k].appId != t[l].appId
    requires Map(Erased, CanonicalSurfaces(s)) == Map(Erased, CanonicalSurfaces(t))
    ensures Core(s[i]) == Core(t[i])
  {
    hide Sort, CanonicalSurfaces, SortAllViews, Map;
    var j := CoreIsShared(s, t, i);
    assert Core(t[j]).appId == t[j].appId && Core(s[i]).appId == s[i].appId;
  }

  /** A surface list with the views of one window in another order. */
  function Reordered(s: seq<ApplicationSurface>, i: nat, k: nat, views: seq<View>): seq<ApplicationSurface>
    requires i < |s| && k < |s[i].windows|
  {
    s[i := s[i].(windows := s[i].windows[k := s[i].windows[k].(views := views)])]
  }

  lemma SameExceptOrder(a: ApplicationSurface, k: nat, views: seq<View>)
    requires k < |a.windows| && multiset(views) == multiset(a.windows[k].views)
    ensures
      var b := a.(windows := a.windows[k := a.windows[k].(views := views)]);
      SameApp(a, b) && SameApp(b, a)
  {
    var b := a.(windows := a.windows[k := a.windows[k].(views := views)]);
    forall w | w in a.windows ensures WindowIn(w, b.windows) {
      var l :| 0 <= l < |a.windows| && a.windows[l] == w;
      assert b.windows[l] in b.windows && SameWindow(w, b.windows[l]);
    }
    forall w | w in b.windows ensures WindowIn(w, a.windows) {
      var l :| 0 <= l < |b.windows| && b.windows[l] == w;
      assert a.windows[l] in a.windows && SameWindow(w, a.windows[l]);
    }
  }

  lemma SameAsItself(a: ApplicationSurface)
    ensures SameApp(a, a)
  {
    forall w | w in a.windows ensures WindowIn(w, a.windows) { assert SameWindow(w, w); }
  }

  lemma ReorderedIsSame(s: seq<ApplicationSurface>, i: nat, k: nat, views: seq<View>)
    requires i < |s| && k < |s[i].windows| && multiset(views) == multiset(s[i].windows[k].views)
    ensures SameSurfaces(s, Reordered(s, i, k, views))
  {
    hide SameApp;
    var t := Reordered(s, i, k, views);
    forall j | 0 <= j < |s| ensures SameApp(s[j], t[j]) && SameApp(t[j], s[j]) {
      if j == i { SameExceptOrder(s[i], k, views); } else { SameAsItself(s[j]); }
    }
    forall a | a in s ensures AppIn(a, t) {
      var j :| 0 <= j < |s| && s[j] == a;
      assert t[j] in t;
    }
    forall a | a in t ensures AppIn(a, s) {
      var j :| 0 <= j < |t| && t[j] == a;
      assert s[j] in s;
    }
  }

  lemma ReorderedKeepsNames(s: seq<ApplicationSurface>, i: nat, k: nat, views: seq<View>)
    requires DistinctNames(s) && i < |s| && k < |s[i].windows| && multiset(views) == multiset(s[i].windows[k].views)
    ensures DistinctNames(Reordered(s, i, k, views))
  {
    var t := Reordered(s, i, k, views);
    MembersOfPermutation(views, s[i].windows[k].views);
    forall a | a in t ensures DistinctWindows(a.windows) && forall w :: w in a.windows ==> DistinctViews(w.views) {
      var j :| 0 <= j < |t| && t[j] == a;
      assert s[j] in s && s[i] in s && s[i].windows[k] in s[i].windows;
    }
  }

  /** The order in which some window's views come shows in the content. */
  lemma OrderShows(s: seq<ApplicationSurface>, i: nat, k: nat, views: seq<View>)
    requires DistinctNames(s) && i < |s| && k < |s[i].windows| && multiset(views) == multiset(s[i].windows[k].views)
    requires Sort(ViewLeq, views) != Sort(ViewLeq, s[i].windows[k].views)
    ensures Map(Erased, CanonicalSurfaces(s)) != Map(Erased, CanonicalSurfaces(Reordered(s, i, k, views)))
  {
    hide Sort, Core, CanonicalSurfaces;
    var t := Reordered(s, i, k, views);
    ReorderedKeepsNames(s, i, k, views);
    if Map(Erased, CanonicalSurfaces(s)) == Map(Erased, CanonicalSurfaces(t)) {
      EqualContentEqualCores(s, t, i);
      assert t[i] in t;
      EqualCoresEqualViews(s[i], t[i], k);
    }
  }

  lemma ClashBreaksRevision(previous: Snapshot, s: seq<ApplicationSurface>, p: seq<ProviderHealth>, i: nat, k: nat)
    requires DistinctNames(s) && i < |s| && k < |s[i].windows| && !NoRankClash(s[i].windows[k].views)
    ensures !OneRevision(previous, s, p)
  {
    var views := s[i].windows[k].views;
    assert s[i] in s && s[i].windows[k] in s[i].windows;
    ViewOrderIsCanonicalExactly(views);
    hide Sort, NoRankClash, CanonicalSurfaces, CanonicalHealth, SameSurfaces;
    var a, b :| multiset(a) == multiset(views) && multiset(b) == multiset(views) &&
      Sort(ViewLeq, a) != Sort(ViewLeq, b);
    var v := if Sort(ViewLeq, a) != Sort(ViewLeq, views) then a else b;
    ReorderedIsSame(s, i, k, v);
    ReorderedKeepsNames(s, i, k, v);
    OrderShows(s, i, k, v);
    assert NewSnapshot(previous, Reordered(s, i, k, v), p).revision != NewSnapshot(previous, s, p).revision;
  }

  /** A snapshot's revision is independent of the order of its windows and views exactly when no window
      holds two views whose different attentions have one rank. */
  lemma SnapshotIsCanonicalExactly(previous: Snapshot, s: seq<ApplicationSurface>, p: seq<ProviderHealth>)
    requires DistinctNames(s)
    ensures OneRevision(previous, s, p) <==> forall a, w :: a in s && w in a.windows ==> NoRankClash(w.views)
  {
    hide NoRankClash, SameSurfaces, DistinctViews;
    if forall a, w :: a in s && w in a.windows ==> NoRankClash(w.views) {
      forall t | DistinctNames(t) && SameSurfaces(s, t)
        ensures NewSnapshot(previous, t, p).revision == NewSnapshot(previous, s, p).revision
      {
        SameSurfacesStayWellFormed(s, t);
        SurfacesCanonical(s, t);
      }
    } else {
      var a, w :| a in s && w in a.windows && !NoRankClash(w.views);
      var i :| 0 <= i < |s| && s[i] == a;
      var k :| 0 <= k < |a.windows| && a.windows[k] == w;
      ClashBreaksRevision(previous, s, p, i, k);
    }
  }

  // ----- Normalising twice -----

  lemma SortedViewsStay(w: Window)
    requires WellFormedWindow(w)
    ensures SortViews(SortViews(w)) == SortViews(w) && WellFormedWindow(SortViews(w))
  {
    var sorted := Sort(ViewLeq, w.views);
    ViewsAreOrdered(w.views);
    SortIsSorted(ViewLeq, w.views);
    MembersOfPermutation(w.views, sorted);
    ViewsAreOrdered(sorted);
    SortFixesSorted(ViewLeq, sorted);
  }

  lemma InnerStays(a: ApplicationSurface, w: Window)
    requires WellFormedApp(a) && w in SortAllViews(a.windows)
    ensures SortViews(w) == w
  {
    hide SortViews, WellFormedWindow;
    var inner := SortAllViews(a.windows);
    var j :| 0 <= j < |inner| && inner[j] == w;
    assert a.windows[j] in a.windows;
    SortedViewsStay(a.windows[j]);
  }

  lemma AllViewsStay(ws: seq<Window>)
    requires forall i :: 0 <= i < |ws| ==> SortViews(ws[i]) == ws[i]
    ensures SortAllViews(ws) == ws
  {
    hide SortViews;
  }

  /** Normalising is idempotent. */
  lemma NormalizeIdempotent(a: ApplicationSurface)
    requires WellFormedApp(a)
    ensures Normalized(Normalized(a)) == Normalized(a)
  {
    hide SortAllViews, SortViews, Sort, WellFormedWindow, WindowLeq;
    var inner := SortAllViews(a.windows);
    var ws := Sort(WindowLeq, inner);
    MembersOfPermutation(inner, ws);
    SortedWindowsNoDup(a.windows);
    forall i | 0 <= i < |ws| ensures SortViews(ws[i]) == ws[i] { InnerStays(a, ws[i]); }
    AllViewsStay(ws);
    WindowsAreOrdered(inner);
    SortCanonical(WindowLeq, inner, ws);
  }

  // ----- The normal order -----

  /** Before means: active, then of higher attention, pinned, dirty, more recently used, of smaller id. */
  predicate ViewBefore(x: View, y: View) {
    || (x.active && !y.active)
    || (x.active == y.active &&
        (|| AttentionRank(x.attention) > AttentionRank(y.attention)
         || (x.attention == y.attention &&
             (|| (x.pinned && !y.pinned)
              || (x.pinned == y.pinned &&
                  (|| (x.dirty && !y.dirty)
                   || (x.dirty == y.dirty &&
                       (x.mru > y.mru || (x.mru == y.mru && x.id != y.id && Text.Leq(x.id, y.id))))))))))
  }

  /** Before means: focused, then more recently used, native, of smaller id. */
  predicate WindowBefore(x: Window, y: Window) {
    || (x.focused && !y.focused)
    || (x.focused == y.focused &&
        (|| x.mru > y.mru
         || (x.mru == y.mru &&
             (|| (!x.providerOnly && y.providerOnly)
              || (x.providerOnly == y.providerOnly && x.id != y.id && Text.Leq(x.id, y.id))))))
  }

  lemma AttentionRanks()
    ensures AttentionRank(Urgent) > AttentionRank(Wanted) > AttentionRank(Normal)
    ensures forall name :: AttentionRank(Other(name)) == AttentionRank(Normal)
  {
  }

  lemma LaterIsNotBefore(x: View, y: View)
    requires ViewLeq(x, y) && !RankClash(x, y)
    ensures !ViewBefore(y, x)
  {
    TextOrder(x.id, y.id, y.id);
  }

  lemma LaterWindowIsNotBefore(x: Window, y: Window)
    requires WindowLeq(x, y)
    ensures !WindowBefore(y, x)
  {
    TextOrder(x.id, y.id, y.id);
  }

  lemma ViewsComeInOrder(views: seq<View>, i: nat, j: nat)
    requires NoRankClash(views) && i < j < |views|
    ensures !ViewBefore(Sort(ViewLeq, views)[j], Sort(ViewLeq, views)[i])
  {
    hide RankClash;
    var sorted := Sort(ViewLeq, views);
    ViewsArePreordered(views);
    SortIsSorted(ViewLeq, views);
    MembersOfPermutation(views, sorted);
    assert sorted[i] in views && sorted[j] in views;
    LaterIsNotBefore(sorted[i], sorted[j]);
  }

  lemma ViewsArePreordered(views: seq<View>)
    requires NoRankClash(views)
    ensures TotalPreorderOn(ViewLeq, views)
  {
    hide ViewLeq, RankClash;
    forall x, y | x in views && y in views ensures ViewLeq(x, y) || ViewLeq(y, x) { ViewOrder(x, y, y); }
    forall x, y, z | x in views && y in views && z in views && ViewLeq(x, y) && ViewLeq(y, z) ensures ViewLeq(x, z) {
      ViewOrder(x, y, z);
    }
  }

  lemma WindowsArePreordered(ws: seq<Window>)
    ensures TotalPreorderOn(WindowLeq, ws)
  {
    hide WindowLeq;
    forall x, y | x in ws && y in ws ensures WindowLeq(x, y) || WindowLeq(y, x) { WindowOrder(x, y, y); }
    forall x, y, z | x in ws && y in ws && z in ws && WindowLeq(x, y) && WindowLeq(y, z) ensures WindowLeq(x, z) {
      WindowOrder(x, y, z);
    }
  }

  /** Normalising changes nothing but the order of windows and views: no window comes before an earlier one,
      and where attentions do not clash, no view of a window does. */
  lemma NormalizedOrder(a: ApplicationSurface, i: nat, j: nat)
    requires i < j < |a.windows|
    ensures |Normalized(a).windows| == |a.windows| && Normalized(a) == a.(windows := Normalized(a).windows)
    ensures !WindowBefore(Normalized(a).windows[j], Normalized(a).windows[i])
  {
    hide SortViews, WindowLeq, WindowBefore, Sort;
    var inner := SortAllViews(a.windows);
    WindowsArePreordered(inner);
    SortIsSorted(WindowLeq, inner);
    LaterWindowIsNotBefore(Normalized(a).windows[i], Normalized(a).windows[j]);
  }

  /** Each normalised window is one of the given ones with its views in order, and the other way round. */
  lemma NormalizedWindows(a: ApplicationSurface, w: Window)
    ensures w in Normalized(a).windows <==> exists x :: x in a.windows && w == x.(views := Sort(ViewLeq, x.views))
    ensures |Normalized(a).windows| == |a.windows|
  {
    hide WindowLeq, ViewLeq, Sort;
    var inner := SortAllViews(a.windows);
    MembersOfPermutation(inner, Sort(WindowLeq, inner));
    if w in inner {
      var i :| 0 <= i < |inner| && inner[i] == w;
      assert w == a.windows[i].(views := Sort(ViewLeq, a.windows[i].views));
    }
    forall x | x in a.windows && w == x.(views := Sort(ViewLeq, x.views)) ensures w in inner {
      var i :| 0 <= i < |a.windows| && a.windows[i] == x;
      assert inner[i] == w;
    }
  }

  /** Surfaces come by application, providers by id and then kind, capabilities by name, each once. */
  lemma CanonicalOrder(surfaces: seq<ApplicationSurface>, providers: seq<ProviderHealth>, caps: seq<string>, i: nat,
                       j: nat)
    ensures i < j < |surfaces| ==>
              |CanonicalSurfaces(surfaces)| == |surfaces| &&
              Text.Leq(CanonicalSurfaces(surfaces)[i].appId, CanonicalSurfaces(surfaces)[j].appId)
    ensures
      i < j < |providers| ==>
        var h := CanonicalHealth(providers);
        |h| == |providers| && Text.Leq(h[i].providerId, h[j].providerId) &&
        (h[i].providerId == h[j].providerId ==> Text.Leq(h[i].kind, h[j].kind))
    ensures i < j < |NormalCapabilities(caps)| ==>
              Text.Leq(NormalCapabilities(caps)[i], NormalCapabilities(caps)[j]) &&
              NormalCapabilities(caps)[i] != NormalCapabilities(caps)[j]
  {
    hide Normalized, NormalHealth, Map, Sort, Compact, Text.Leq;
    var s, h := Map(Normalized, surfaces), Map(NormalHealth, providers);
    ByIdIsPreorder(s, h, caps);
    SortIsSorted(AppLeq, s);
    SortIsSorted(HealthLeq, h);
    SortIsSorted(Text.Leq, caps);
    CompactSorted(Sort(Text.Leq, caps));
    if i < j < |s| { assert AppLeq(Sort(AppLeq, s)[i], Sort(AppLeq, s)[j]); }
    if i < j < |h| {
      var p, q := Sort(HealthLeq, h)[i], Sort(HealthLeq, h)[j];
      assert HealthLeq(p, q);
      TextOrder(p.providerId, q.providerId, q.providerId);
    }
  }

  lemma ByIdIsPreorder(s: seq<ApplicationSurface>, h: seq<ProviderHealth>, caps: seq<string>)
    ensures TotalPreorderOn(AppLeq, s) && TotalPreorderOn(HealthLeq, h) && TotalPreorderOn(Text.Leq, caps)
  {
    Text.LeqIsTotalOrder();
  }

  datatype Input = Input(surfaces: seq<ApplicationSurface>, providers: seq<ProviderHealth>)

  ghost predicate SameButRevisions(a: ApplicationSurface, b: ApplicationSurface) {
    a == b.(sourceRevision := a.sourceRevision, status := b.status.(updatedAt := a.status.updatedAt))
  }

  /** Two snapshots have one revision exactly when they show the same surfaces and providers, up to the
      revisions that providers report and the time of the last update. */
  lemma RevisionMeaning(previous: Snapshot, s: Input, previous': Snapshot, t: Input)
    ensures
      var m, n := NewSnapshot(previous, s.surfaces, s.providers), NewSnapshot(previous', t.surfaces, t.providers);
      m.revision == n.revision <==>
      && |m.surfaces| == |n.surfaces| && |m.providers| == |n.providers|
      && (forall i :: 0 <= i < |m.surfaces| ==> SameButRevisions(m.surfaces[i], n.surfaces[i]))
      && forall i :: 0 <= i < |m.providers| ==> m.providers[i] == n.providers[i].(revision := m.providers[i].revision)
  {
    hide CanonicalSurfaces, CanonicalHealth, Map;
    var m, n := NewSnapshot(previous, s.surfaces, s.providers), NewSnapshot(previous', t.surfaces, t.providers);
    EqualWhenErased(m.surfaces, n.surfaces);
    EqualWhenHealthErased(m.providers, n.providers);
  }

  lemma ErasedAlike(a: ApplicationSurface, b: ApplicationSurface)
    ensures Erased(a) == Erased(b) <==> SameButRevisions(a, b)
  {
  }

  lemma EqualWhenErased(s: seq<ApplicationSurface>, t: seq<ApplicationSurface>)
    ensures Map(Erased, s) == Map(Erased, t) <==>
            |s| == |t| && forall i :: 0 <= i < |s| ==> SameButRevisions(s[i], t[i])
  {
    hide Map, Erased, SameButRevisions;
    var a, b := Map(Erased, s), Map(Erased, t);
    assert a == b <==> |a| == |b| && forall i :: 0 <= i < |a| ==> a[i] == b[i];
    forall i | 0 <= i < |s| && i < |t| ensures a[i] == b[i] <==> SameButRevisions(s[i], t[i]) {
      ErasedAlike(s[i], t[i]);
    }
  }

  lemma HealthErasedAlike(p: ProviderHealth, q: ProviderHealth)
    ensures ErasedHealth(p) == ErasedHealth(q) <==> p == q.(revision := p.revision)
  {
  }

  lemma EqualWhenHealthErased(s: seq<ProviderHealth>, t: seq<ProviderHealth>)
    ensures Map(ErasedHealth, s) == Map(ErasedHealth, t) <==>
            |s| == |t| && forall i :: 0 <= i < |s| ==> s[i] == t[i].(revision := s[i].revision)
  {
    hide Map, ErasedHealth;
    var a, b := Map(ErasedHealth, s), Map(ErasedHealth, t);
    assert a == b <==> |a| == |b| && forall i :: 0 <= i < |a| ==> a[i] == b[i];
    forall i | 0 <= i < |s| && i < |t| ensures a[i] == b[i] <==> s[i] == t[i].(revision := s[i].revision) {
      HealthErasedAlike(s[i], t[i]);
    }
  }

  // ----- Generations -----

  /** The last snapshot of a sequential chain of refreshes that starts from nothing. */
  function Chain(inputs: seq<Input>): Snapshot
  {
    if inputs == [] then EMPTY
    else
      var x := inputs[|inputs| - 1];
      NewSnapshot(Chain(inputs[..|inputs| - 1]), x.surfaces, x.providers)
  }

  function RevisionOf(x: Input): Revision {
    Digest(ContentOf(CanonicalSurfaces(x.surfaces), CanonicalHealth(x.providers)))
  }

  /** How often the semantic content differs from that of the refresh before. */
  function Changes(inputs: seq<Input>): nat {
    if inputs == [] then 0
    else
      Changes(inputs[..|inputs| - 1]) +
      if |inputs| == 1 || RevisionOf(inputs[|inputs| - 1]) != RevisionOf(inputs[|inputs| - 2]) then 1 else 0
  }

  lemma ChainStep(inputs: seq<Input>)
    requires inputs != []
    ensures
      var before, revision := Chain(inputs[..|inputs| - 1]), RevisionOf(inputs[|inputs| - 1]);
      && Chain(inputs).revision == revision
      && Chain(inputs).generation == before.generation + if before.revision == revision then 0 else 1
  {
    hide ContentOf, CanonicalSurfaces, CanonicalHealth;
  }

  lemma ChangesStep(inputs: seq<Input>)
    requires inputs != []
    ensures
      var before, revision := inputs[..|inputs| - 1], RevisionOf(inputs[|inputs| - 1]);
      Changes(inputs) ==
      Changes(before) + if before == [] || revision != RevisionOf(before[|before| - 1]) then 1 else 0
  {
    hide RevisionOf;
  }

  lemma ContentHasRevision(x: Input)
    ensures RevisionOf(x) != NoRevision && Chain([]) == EMPTY && Changes([]) == 0
  {
  }

  /** Along a sequential chain the generation counts the semantic changes. */
  lemma {:induction false} GenerationCountsChanges(inputs: seq<Input>)
    ensures Chain(inputs).generation == Changes(inputs)
    ensures Chain(inputs).revision == if inputs == [] then NoRevision else RevisionOf(inputs[|inputs| - 1])
  {
    hide NewSnapshot, RevisionOf, Chain, Changes;
    ContentHasRevision(Input([], []));
    if inputs != [] {
      GenerationCountsChanges(inputs[..|inputs| - 1]);
      ContentHasRevision(inputs[|inputs| - 1]);
      ChainStep(inputs);
      ChangesStep(inputs);
    }
  }
}
