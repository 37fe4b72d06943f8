/** Projection of application surfaces to panel cards (internal/panel/project.go). */
module Panel {
  import opened Sorting
  import opened Surface
  import opened Wrappers

  datatype AppConfig = AppConfig(density: string, minWidth: int, preferredWidth: int, maxWidth: int, maxVisible: int)

  datatype Group = Group(id: string, app: Option<AppConfig>)

  datatype Spec = Spec(id: string, edge: string, height: int, gap: int, overflow: string, groups: seq<Group>)

  const DEFAULT_SPEC: Spec := Spec("runtime", "top", 40, 6, "popover", [])

  const DEFAULT_APP: AppConfig := AppConfig("adaptive", 64, 156, 240, 4)

  datatype Segment = Segment(id: string, kind: string, title: string, active: bool, dirty: bool, attention: Attention)

  datatype Card = Card(
    id: string, name: string, iconName: string, title: string, subtitle: string, progress: Option<real>,
    windowCount: nat, surfaceCount: nat, focused: bool, attention: Attention, density: string, minWidth: int,
    preferredWidth: int, maxWidth: int, segments: seq<Segment>, overflowCount: nat)

  datatype Render = Render(edge: string, height: int, gap: int, overflow: string)

  /** What the panel shows, without its revision and time stamp. */
  datatype Display = Display(render: Render, cards: seq<Card>)

  function AppConfigOf(groups: seq<Group>): AppConfig {
    if groups == [] then DEFAULT_APP else if groups[0].app.Some? then groups[0].app.value else AppConfigOf(groups[1..])
  }

  function AllViews(ws: seq<Window>): seq<View> {
    if ws == [] then [] else AllViews(ws[..|ws| - 1]) + ws[|ws| - 1].views
  }

  function FirstActive(views: seq<View>): Option<View> {
    if views == [] then None else if views[0].active then Some(views[0]) else FirstActive(views[1..])
  }

  function FirstFocused(ws: seq<Window>): Option<Window> {
    if ws == [] then None else if ws[0].focused then Some(ws[0]) else FirstFocused(ws[1..])
  }

  function Title(a: ApplicationSurface): string {
    var active := FirstActive(AllViews(a.windows));
    var focused := FirstFocused(a.windows);
    if active.Some? then active.value.title
    else if focused.Some? then focused.value.title
    else if a.windows != [] then a.windows[0].title
    else a.name
  }

  function ViewSegment(v: View): Segment {
    Segment(v.id, "view", v.title, v.active, v.dirty, v.attention)
  }

  function WindowSegment(w: Window): Segment {
    Segment(w.id, "window", w.title, w.focused, false, Normal)
  }

  /** Views when there are any, otherwise the native windows. */
  function Segments(a: ApplicationSurface): seq<Segment> {
    var views := AllViews(a.windows);
    if views != [] then Map(ViewSegment, views) else Map(WindowSegment, a.windows)
  }

  function Limit(count: nat, maxVisible: int): (n: nat)
    ensures n <= count
  {
    if maxVisible < 0 then 0 else if count > maxVisible then maxVisible else count
  }

  function CardOf(a: ApplicationSurface, config: AppConfig): Card {
    var all := Segments(a);
    var limit := Limit(|all|, config.maxVisible);
    Card(a.appId, a.name, a.iconName, Title(a), a.status.summary, a.status.progress, |a.windows|, |AllViews(a.windows)|,
         a.status.focused, a.status.attention, config.density, config.minWidth, config.preferredWidth, config.maxWidth,
         all[..limit], |all| - limit)
  }

  function Project(surfaces: seq<ApplicationSurface>, spec: Spec): (v: Display)
    ensures |v.cards| == |surfaces|
  {
    var config := AppConfigOf(spec.groups);
    Display(Render(spec.edge, spec.height, spec.gap, spec.overflow),
         seq(|surfaces|, i requires 0 <= i < |surfaces| => CardOf(surfaces[i], config)))
  }

  // ----- As written -----

  method ProjectedSegments(a: ApplicationSurface) returns (out: seq<Segment>, count: nat)
    ensures out == Segments(a) && count == |AllViews(a.windows)|
  {
    hide ViewSegment, WindowSegment, Map;
    var views: seq<View> := [];
    for i := 0 to |a.windows|
      invariant views == AllViews(a.windows[..i])
    {
      assert a.windows[..i + 1][..i] == a.windows[..i];
      views := views + a.windows[i].views;
    }
    assert a.windows[..|a.windows|] == a.windows;
    out := [];
    count := |views|;
    if |views| > 0 {
      for i := 0 to |views|
        invariant |out| == i && forall j :: 0 <= j < i ==> out[j] == ViewSegment(views[j])
      {
        out := out + [ViewSegment(views[i])];
      }
      MapIs(ViewSegment, views, out);
      return;
    }
    for i := 0 to |a.windows|
      invariant |out| == i && forall j :: 0 <= j < i ==> out[j] == WindowSegment(a.windows[j])
    {
      out := out + [WindowSegment(a.windows[i])];
    }
    MapIs(WindowSegment, a.windows, out);
  }

  /** ActiveView: the first active view, window by window. */
  method ActiveView(ws: seq<Window>) returns (v: Option<View>)
    ensures v == FirstActive(AllViews(ws))
  {
    for i := 0 to |ws|
      invariant FirstActive(AllViews(ws[..i])) == None
    {
      assert ws[..i + 1][..i] == ws[..i];
      var views := ws[i].views;
      ActiveAppend(AllViews(ws[..i]), views);
      for j := 0 to |views|
        invariant FirstActive(views) == FirstActive(views[j..])
      {
        if views[j].active {
          ActiveIsFirst(ws, i);
          return Some(views[j]);
        }
        assert views[j..][1..] == views[j + 1..];
      }
    }
    assert ws[..|ws|] == ws;
    v := None;
  }

  lemma {:induction false} ActiveAppend(a: seq<View>, b: seq<View>)
    ensures FirstActive(a + b) == if FirstActive(a).Some? then FirstActive(a) else FirstActive(b)
  {
    if a == [] {
      assert a + b == b;
    } else {
      assert (a + b)[1..] == a[1..] + b;
      ActiveAppend(a[1..], b);
    }
  }

  lemma {:induction false} ActiveIsFirst(ws: seq<Window>, i: nat)
    requires i < |ws| && FirstActive(AllViews(ws[..i + 1])).Some?
    ensures FirstActive(AllViews(ws)) == FirstActive(AllViews(ws[..i + 1]))
    decreases |ws|
  {
    if i + 1 < |ws| {
      var init := ws[..|ws| - 1];
      assert init[..i + 1] == ws[..i + 1];
      ActiveIsFirst(init, i);
      ActiveAppend(AllViews(init), ws[|ws| - 1].views);
    } else {
      assert ws[..i + 1] == ws;
    }
  }

  method ProjectWithSpec(surfaces: seq<ApplicationSurface>, spec: Spec) returns (v: Display)
    ensures v == Project(surfaces, spec)
  {
    hide Segments, AllViews, FirstActive, FirstFocused, Limit;
    var config, k := DEFAULT_APP, 0;
    while k < |spec.groups|
      invariant 0 <= k <= |spec.groups| && config == DEFAULT_APP
      invariant AppConfigOf(spec.groups) == AppConfigOf(spec.groups[k..])
    {
      if spec.groups[k].app.Some? {
        config := spec.groups[k].app.value;
        break;
      }
      k := k + 1;
    }
    var cards: seq<Card> := [];
    for i := 0 to |surfaces|
      invariant |cards| == i && forall j :: 0 <= j < i ==> cards[j] == CardOf(surfaces[j], config)
    {
      var a := surfaces[i];
      var title := a.name;
      var active := ActiveView(a.windows);
      var focused := FirstFocused(a.windows);
      if active.Some? {
        title := active.value.title;
      } else if focused.Some? {
        title := focused.value.title;
      } else if |a.windows| > 0 {
        title := a.windows[0].title;
      }
      var all, count := ProjectedSegments(a);
      var limit := Limit(|all|, config.maxVisible);
      cards := cards + [Card(a.appId, a.name, a.iconName, title, a.status.summary, a.status.progress, |a.windows|,
                             count, a.status.focused, a.status.attention, config.density, config.minWidth,
                             config.preferredWidth, config.maxWidth, all[..limit], |all| - limit)];
    }
    v := Display(Render(spec.edge, spec.height, spec.gap, spec.overflow), cards);
  }

  // ----- What projection reads -----

  /** Projection reads nothing that the semantic revision ignores: surfaces with the same semantic
      content give the same panel. */
  lemma ProjectionReadsContentOnly(s: seq<ApplicationSurface>, t: seq<ApplicationSurface>, spec: Spec)
    requires Map(Erased, s) == Map(Erased, t)
    ensures Project(s, spec) == Project(t, spec)
  {
    var config := AppConfigOf(spec.groups);
    assert |s| == |Map(Erased, s)| == |t|;
    forall i | 0 <= i < |s| ensures CardOf(s[i], config) == CardOf(t[i], config) {
      assert Erased(s[i]) == Map(Erased, s)[i] == Erased(t[i]);
      CardIgnoresHeartbeat(s[i], config);
      CardIgnoresHeartbeat(t[i], config);
    }
    assert Project(s, spec).cards == Project(t, spec).cards;
  }

  lemma CardIgnoresHeartbeat(a: ApplicationSurface, config: AppConfig)
    ensures CardOf(Erased(a), config) == CardOf(a, config)
  {
  }

  // ----- What a card shows -----

  /** The config is that of the first group that has one, or the default. */
  ghost predicate ConfigIs(config: AppConfig, groups: seq<Group>) {
    if exists i :: 0 <= i < |groups| && groups[i].app.Some?
    then
      exists i :: 0 <= i < |groups| && groups[i].app == Some(config) && forall j :: 0 <= j < i ==> groups[j].app.None?
    else config == AppConfig("adaptive", 64, 156, 240, 4)
  }

  lemma {:induction false} ConfigMeaning(groups: seq<Group>)
    ensures ConfigIs(AppConfigOf(groups), groups)
  {
    if groups != [] && groups[0].app.None? {
      var rest := groups[1..];
      ConfigMeaning(rest);
      if i :| 0 <= i < |rest| && rest[i].app.Some? {
        var k :| 0 <= k < |rest| && rest[k].app == Some(AppConfigOf(rest)) &&
          forall j :: 0 <= j < k ==> rest[j].app.None?;
        assert groups[k + 1].app == Some(AppConfigOf(rest));
        forall j | 0 <= j < k + 1 ensures groups[j].app.None? { if j > 0 { assert groups[j] == rest[j - 1]; } }
      } else {
        forall i | 0 <= i < |groups| ensures groups[i].app.None? { if i > 0 { assert groups[i] == rest[i - 1]; } }
      }
    }
  }

  /** How many views the first `i` windows have. */
  function ViewsBefore(ws: seq<Window>, i: nat): nat
    requires i <= |ws|
  {
    if i == 0 then 0 else ViewsBefore(ws, i - 1) + |ws[i - 1].views|
  }

  /** The views of a surface are those of its windows, window by window. */
  lemma {:induction false} ViewsInWindowOrder(ws: seq<Window>, i: nat, k: nat)
    requires i < |ws| && k < |ws[i].views|
    ensures |AllViews(ws)| == ViewsBefore(ws, |ws|)
    ensures ViewsBefore(ws, i) + k < |AllViews(ws)| && AllViews(ws)[ViewsBefore(ws, i) + k] == ws[i].views[k]
    decreases |ws|
  {
    CountViews(ws, |ws|);
    var n := |ws| - 1;
    assert ws[..|ws|] == ws;
    CountViews(ws, n);
    if i < n {
      ViewsInWindowOrder(ws[..n], i, k);
      SameCount(ws, n, i);
    }
  }

  lemma {:induction false} CountViews(ws: seq<Window>, i: nat)
    requires i <= |ws|
    ensures |AllViews(ws[..i])| == ViewsBefore(ws, i)
  {
    if i > 0 {
      assert ws[..i][..i - 1] == ws[..i - 1];
      CountViews(ws, i - 1);
    }
  }

  lemma {:induction false} SameCount(ws: seq<Window>, n: nat, i: nat)
    requires i <= n <= |ws|
    ensures ViewsBefore(ws[..n], i) == ViewsBefore(ws, i)
  {
    if i > 0 { SameCount(ws, n, i - 1); }
  }

  /** The first active view, window by window. */
  ghost predicate ActiveAt(ws: seq<Window>, i: nat, k: nat) {
    && i < |ws| && k < |ws[i].views| && ws[i].views[k].active
    && (forall j, l :: 0 <= j < i && 0 <= l < |ws[j].views| ==> !ws[j].views[l].active)
    && forall l :: 0 <= l < k ==> !ws[i].views[l].active
  }

  ghost predicate AnyActive(ws: seq<Window>) {
    exists w, v :: w in ws && v in w.views && v.active
  }

  ghost predicate FocusedAt(ws: seq<Window>, i: nat) {
    i < |ws| && ws[i].focused && forall j :: 0 <= j < i ==> !ws[j].focused
  }

  lemma {:induction false} FirstActiveIn(views: seq<View>) returns (k: nat)
    ensures k <= |views| && (forall l :: 0 <= l < k ==> !views[l].active) && (k < |views| ==> views[k].active)
    ensures FirstActive(views) == if k < |views| then Some(views[k]) else None
  {
    k := 0;
    if views != [] && !views[0].active {
      k := FirstActiveIn(views[1..]);
      k := k + 1;
    }
  }

  lemma NoneActive(ws: seq<Window>, j: nat, l: nat)
    requires !AnyActive(ws) && j < |ws| && l < |ws[j].views|
    ensures !ws[j].views[l].active
  {
    assert ws[j] in ws && ws[j].views[l] in ws[j].views;
  }

  /** The views of one window more. */
  lemma ActiveNext(init: seq<Window>, last: Window, k: nat)
    requires !AnyActive(init) && k <= |last.views| && forall l :: 0 <= l < k ==> !last.views[l].active
    requires k < |last.views| ==> last.views[k].active
    ensures k < |last.views| ==> ActiveAt(init + [last], |init|, k) && AnyActive(init + [last])
    ensures k == |last.views| ==> !AnyActive(init + [last])
  {
    var ws := init + [last];
    forall j, l | 0 <= j < |init| && 0 <= l < |ws[j].views| ensures !ws[j].views[l].active { NoneActive(init, j, l); }
    if k < |last.views| {
      assert last in ws && last.views[k] in last.views;
    }
  }

  lemma ActiveStays(init: seq<Window>, last: Window, i: nat, k: nat)
    requires ActiveAt(init, i, k)
    ensures ActiveAt(init + [last], i, k) && AnyActive(init + [last]) && AnyActive(init)
  {
    assert init[i] in init && (init + [last])[i] in init + [last] && init[i].views[k] in init[i].views;
  }

  lemma {:induction false} ActiveMeaning(ws: seq<Window>) returns (i: nat, k: nat)
    ensures AnyActive(ws) ==> ActiveAt(ws, i, k) && FirstActive(AllViews(ws)) == Some(ws[i].views[k])
    ensures !AnyActive(ws) ==> FirstActive(AllViews(ws)) == None
  {
    hide AnyActive, FirstActive;
    i, k := 0, 0;
    if ws == [] {
      NothingActive();
    } else {
      var init, last := ws[..|ws| - 1], ws[|ws| - 1];
      assert ws == init + [last];
      ActiveAppend(AllViews(init), last.views);
      i, k := ActiveMeaning(init);
      if AnyActive(init) {
        ActiveStays(init, last, i, k);
      } else {
        k := FirstActiveIn(last.views);
        i := |init|;
        ActiveNext(init, last, k);
      }
    }
  }

  lemma NothingActive()
    ensures !AnyActive([]) && FirstActive(AllViews([])) == None
  {
  }

  lemma {:induction false} FocusedMeaning(ws: seq<Window>) returns (i: nat)
    ensures i == |ws| || FocusedAt(ws, i)
    ensures i == |ws| ==> forall w :: w in ws ==> !w.focused
    ensures FirstFocused(ws) == if i < |ws| then Some(ws[i]) else None
  {
    i := 0;
    if ws != [] && !ws[0].focused {
      i := FocusedMeaning(ws[1..]);
      i := i + 1;
      assert ws == [ws[0]] + ws[1..];
    }
  }

  /** The title: that of the first active view, else of the first focused window, else of the first window,
      else the name of the application. */
  ghost predicate TitleIs(title: string, a: ApplicationSurface) {
    && (forall i: nat, k: nat :: ActiveAt(a.windows, i, k) ==> title == a.windows[i].views[k].title)
    && (!AnyActive(a.windows) ==>
          && (forall i: nat :: FocusedAt(a.windows, i) ==> title == a.windows[i].title)
          && ((forall w :: w in a.windows ==> !w.focused) ==>
                title == if a.windows != [] then a.windows[0].title else a.name))
  }

  lemma OneActive(ws: seq<Window>, i: nat, k: nat, j: nat, l: nat)
    requires ActiveAt(ws, i, k) && ActiveAt(ws, j, l)
    ensures i == j && k == l && AnyActive(ws)
  {
    assert ws[i] in ws && ws[i].views[k] in ws[i].views;
  }

  lemma OneFocused(ws: seq<Window>, i: nat, j: nat)
    requires FocusedAt(ws, i) && FocusedAt(ws, j)
    ensures i == j && ws[i] in ws
  {
  }

  lemma ActiveTitle(a: ApplicationSurface, i: nat, k: nat)
    requires ActiveAt(a.windows, i, k)
    ensures Title(a) == a.windows[i].views[k].title
  {
    hide FirstActive, FirstFocused, AllViews;
    var j, l := ActiveMeaning(a.windows);
    OneActive(a.windows, i, k, i, k);
    OneActive(a.windows, i, k, j, l);
  }

  lemma FocusedTitle(a: ApplicationSurface, i: nat)
    requires FocusedAt(a.windows, i) && !AnyActive(a.windows)
    ensures Title(a) == a.windows[i].title
  {
    hide FirstActive, FirstFocused, AllViews;
    var j, l := ActiveMeaning(a.windows);
    var f := FocusedMeaning(a.windows);
    assert a.windows[i] in a.windows;
    OneFocused(a.windows, i, f);
  }

  lemma OtherTitle(a: ApplicationSurface)
    requires !AnyActive(a.windows) && forall w :: w in a.windows ==> !w.focused
    ensures Title(a) == if a.windows != [] then a.windows[0].title else a.name
  {
    hide FirstActive, FirstFocused, AllViews;
    var j, l := ActiveMeaning(a.windows);
    var f := FocusedMeaning(a.windows);
  }

  lemma TitleMeaning(a: ApplicationSurface)
    ensures TitleIs(Title(a), a)
  {
    hide Title;
    forall i: nat, k: nat | ActiveAt(a.windows, i, k) ensures Title(a) == a.windows[i].views[k].title {
      ActiveTitle(a, i, k);
    }
    if !AnyActive(a.windows) {
      forall i: nat | FocusedAt(a.windows, i) ensures Title(a) == a.windows[i].title { FocusedTitle(a, i); }
      if forall w :: w in a.windows ==> !w.focused { OtherTitle(a); }
    }
  }

  /** The segments shown are the first of the views in window order, or of the windows when there are no
      views, as many as may be visible; the rest is counted. */
  ghost predicate SegmentsAre(c: Card, a: ApplicationSurface, maxVisible: int) {
    var views := AllViews(a.windows);
    var n := if views != [] then |views| else |a.windows|;
    && |c.segments| + c.overflowCount == n
    && |c.segments| == (if maxVisible < 0 then 0 else if maxVisible < n then maxVisible else n)
    && forall k :: 0 <= k < |c.segments| ==>
         c.segments[k] ==
         if views != [] then
           Segment(views[k].id, "view", views[k].title, views[k].active, views[k].dirty, views[k].attention)
         else
           Segment(a.windows[k].id, "window", a.windows[k].title, a.windows[k].focused, false, Normal)
  }

  /** Every surface has one card, in the order of the surfaces.  It shows the surface's name, icon, summary,
      progress, numbers of windows and views, focus and attention, has the widths and the density of the
      first app config of the spec, and shows segments and title as said above. */
  lemma CardMeaning(surfaces: seq<ApplicationSurface>, spec: Spec, i: nat) returns (config: AppConfig)
    requires i < |surfaces|
    ensures ConfigIs(config, spec.groups) && |Project(surfaces, spec).cards| == |surfaces|
    ensures
      var c, a := Project(surfaces, spec).cards[i], surfaces[i];
      && c.id == a.appId && c.name == a.name && c.iconName == a.iconName
      && c.subtitle == a.status.summary && c.progress == a.status.progress
      && c.focused == a.status.focused && c.attention == a.status.attention
      && c.windowCount == |a.windows| && c.surfaceCount == ViewsBefore(a.windows, |a.windows|)
      && c.density == config.density && c.minWidth == config.minWidth
      && c.preferredWidth == config.preferredWidth && c.maxWidth == config.maxWidth
      && TitleIs(c.title, a) && SegmentsAre(c, a, config.maxVisible)
  {
    hide Title, TitleIs, AllViews, AppConfigOf, ConfigIs, Map;
    config := AppConfigOf(spec.groups);
    ConfigMeaning(spec.groups);
    var a := surfaces[i];
    TitleMeaning(a);
    assert a.windows[..|a.windows|] == a.windows;
    CountViews(a.windows, |a.windows|);
  }

  /** The frame is that of the spec. */
  lemma RenderMeaning(surfaces: seq<ApplicationSurface>, spec: Spec)
    ensures
      var r := Project(surfaces, spec).render;
      r.edge == spec.edge && r.height == spec.height && r.gap == spec.gap && r.overflow == spec.overflow
  {
  }
}
