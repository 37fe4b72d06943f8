/** What the aggregated surface of an application holds (internal/providers/registry.go, Registry.Apply and
    mergeWindows), field by field and window by window, told by the reports that count for it alone. */
module AggregatedSurface {
  import Text
  import opened Sorting
  import opened Wrappers
  import opened Surface
  import opened Registry
  import opened Identity
  import opened Merging
  import opened Aggregation

  // ----- One patch -----

  /** Where a patch goes: to the first window of its id, without an id to the only window, and otherwise
      to a new one at the end. */
  ghost predicate GoesTo(ws: seq<Window>, p: WindowPatch, i: nat) {
    if i < |ws| then
      if p.windowId != "" then ws[i].id == p.windowId && forall j :: 0 <= j < i ==> ws[j].id != p.windowId
      else |ws| == 1
    else i == |ws| && if p.windowId != "" then forall w :: w in ws ==> w.id != p.windowId else |ws| != 1
  }

  /** The title is the reported one if there is one, and the state that of an authoritative patch.  A new
      window starts with what the patch reports. */
  ghost predicate Patched(w: Window, was: Option<Window>, p: WindowPatch, provider: string) {
    && (if was.Some? then w.id == was.value.id
        else w.id == if p.windowId != "" then p.windowId else "provider:" + provider + ":" + p.providerWindowId)
    && w.title == (if p.title == "" && was.Some? then was.value.title else p.title)
    && (p.authoritative || was.None? ==>
          w.workspaceId == p.workspaceId && w.monitorRef == p.monitorRef && w.focused == p.focused &&
          w.minimized == p.minimized && w.mru == p.mru &&
          w.providerOnly == (!p.authoritative && p.windowId == ""))
    && (!p.authoritative && was.Some? ==>
          w == was.value.(title := w.title, views := w.views))
  }

  /** A patch changes the window it goes to and no other. */
  lemma PatchMeaning(ws: seq<Window>, p: WindowPatch, provider: string) returns (i: nat)
    ensures GoesTo(ws, p, i)
    ensures
      var out := MergePatch(ws, p, provider);
      && |out| == (if i < |ws| then |ws| else |ws| + 1)
      && Patched(out[i], if i < |ws| then Some(ws[i]) else None, p, provider)
      && forall j :: 0 <= j < |ws| && j != i ==> out[j] == ws[j]
  {
    hide Filter, Stamped;
    i := Target(ws, p);
  }

  /** The views of a patch come in as they are, under its provider and, where they name none, its window. */
  lemma StampedMeaning(p: WindowPatch, provider: string, k: nat)
    requires k < |p.views|
    ensures
      var v, s := p.views[k], Stamped(p, provider)[k];
      && s == v.(providerId := provider, providerWindowId := s.providerWindowId)
      && s.providerWindowId == if v.providerWindowId != "" then v.providerWindowId else p.providerWindowId
  {
  }

  // ----- Windows and views over all reports -----

  /** The windows after the patches of all reports. */
  function WindowsAfter(ws: seq<Window>, snaps: seq<Snap>): seq<Window> {
    if snaps == [] then ws
    else
      var s := snaps[|snaps| - 1];
      MergeAll(WindowsAfter(ws, snaps[..|snaps| - 1]), s.windows, s.providerId)
  }

  /** The views of one provider in the i-th window: those of its last patch there, or the first ones. */
  function OwnViews(ws: seq<Window>, snaps: seq<Snap>, provider: string, i: nat): seq<View> {
    if snaps == [] then Filter(Own(provider), ViewsAt(ws, i))
    else
      var init, s := snaps[..|snaps| - 1], snaps[|snaps| - 1];
      var last := LastPatch(WindowsAfter(ws, init), s.windows, s.providerId, i);
      if s.providerId == provider && last.Some? then Stamped(last.value, provider)
      else OwnViews(ws, init, provider, i)
  }

  lemma {:induction false} FilterWithin(keep: View -> bool, more: View -> bool, s: seq<View>)
    requires forall v :: keep(v) ==> more(v)
    ensures Filter(keep, Filter(more, s)) == Filter(keep, s)
  {
    if s != [] {
      FilterWithin(keep, more, s[1..]);
      FilterAppend(keep, if more(s[0]) then [s[0]] else [], Filter(more, s[1..]));
      assert Filter(keep, [s[0]]) == if keep(s[0]) then [s[0]] else [];
    }
  }

  lemma {:induction false} PatchedWindowsExist(ws: seq<Window>, patches: seq<WindowPatch>, provider: string, i: nat)
    requires LastPatch(ws, patches, provider, i).Some?
    ensures i < |MergeAll(ws, patches, provider)|
    decreases |patches|
  {
    hide PatchWindow;
    var next := MergePatch(ws, patches[0], provider);
    if LastPatch(next, patches[1..], provider, i).Some? { PatchedWindowsExist(next, patches[1..], provider, i); }
  }

  /** One report leaves the views of every other provider in every window as they are, in their order. */
  lemma ForeignViewsStay(ws: seq<Window>, s: Snap, i: nat)
    ensures Filter(Foreign(s.providerId), ViewsAt(MergeAll(ws, s.windows, s.providerId), i)) ==
            Filter(Foreign(s.providerId), ViewsAt(ws, i))
  {
    if i < |MergeAll(ws, s.windows, s.providerId)| { MergeKeepsForeignViews(ws, s.windows, s.providerId, i); }
  }

  lemma OwnViewsNext(ws: seq<Window>, s: Snap, provider: string, i: nat)
    ensures
      var out, last := MergeAll(ws, s.windows, s.providerId), LastPatch(ws, s.windows, s.providerId, i);
      Filter(Own(provider), ViewsAt(out, i)) ==
      if s.providerId == provider && last.Some? then Stamped(last.value, provider)
      else Filter(Own(provider), ViewsAt(ws, i))
  {
    hide MergeAll, LastPatch, Filter, Stamped;
    var out, q := MergeAll(ws, s.windows, s.providerId), s.providerId;
    if q == provider {
      if LastPatch(ws, s.windows, q, i).Some? { PatchedWindowsExist(ws, s.windows, q, i); }
      if i < |out| { MergeKeepsForeignViews(ws, s.windows, q, i); }
    } else {
      ForeignViewsStay(ws, s, i);
      FilterWithin(Own(provider), Foreign(q), ViewsAt(out, i));
      FilterWithin(Own(provider), Foreign(q), ViewsAt(ws, i));
    }
  }

  /** In every window each provider has exactly the views of its last patch there. */
  lemma {:induction false} ViewsAreOfLastPatches(ws: seq<Window>, snaps: seq<Snap>, provider: string, i: nat)
    ensures Filter(Own(provider), ViewsAt(WindowsAfter(ws, snaps), i)) == OwnViews(ws, snaps, provider, i)
  {
    hide MergeAll, LastPatch, Filter, Stamped, ViewsAt;
    if snaps != [] {
      var init := snaps[..|snaps| - 1];
      ViewsAreOfLastPatches(ws, init, provider, i);
      OwnViewsNext(WindowsAfter(ws, init), snaps[|snaps| - 1], provider, i);
    }
  }

  // ----- The other fields -----

  /** The i-th report is the last one of the field that is not empty. */
  ghost predicate IsLast(f: Snap -> string, snaps: seq<Snap>, i: nat) {
    i < |snaps| && f(snaps[i]) != "" && forall j :: i < j < |snaps| ==> f(snaps[j]) == ""
  }

  ghost predicate IsFirst(f: Snap -> string, snaps: seq<Snap>, i: nat) {
    i < |snaps| && f(snaps[i]) != "" && forall j :: 0 <= j < i ==> f(snaps[j]) == ""
  }

  ghost predicate IsLastOf(snaps: seq<Snap>, provider: string, i: nat) {
    i < |snaps| && snaps[i].providerId == provider && forall j :: i < j < |snaps| ==> snaps[j].providerId != provider
  }

  function LastOr(f: Snap -> string, snaps: seq<Snap>, d: string): string {
    if snaps == [] then d
    else if f(snaps[|snaps| - 1]) != "" then f(snaps[|snaps| - 1])
    else LastOr(f, snaps[..|snaps| - 1], d)
  }

  function FirstOr(f: Snap -> string, snaps: seq<Snap>, d: string): string {
    if snaps == [] then d
    else
      var v := FirstOr(f, snaps[..|snaps| - 1], d);
      if v != "" then v else f(snaps[|snaps| - 1])
  }

  /** The revision that the provider reported last. */
  function LastRevision(snaps: seq<Snap>, provider: string, d: Option<nat>): Option<nat> {
    if snaps == [] then d
    else if snaps[|snaps| - 1].providerId == provider then Some(snaps[|snaps| - 1].revision)
    else LastRevision(snaps[..|snaps| - 1], provider, d)
  }

  /** The last value that is reported and not empty, or the given one if there is none. */
  lemma {:induction false} LastOrMeaning(f: Snap -> string, snaps: seq<Snap>, d: string) returns (i: nat)
    ensures i == |snaps| || IsLast(f, snaps, i)
    ensures i == |snaps| ==> forall s :: s in snaps ==> f(s) == ""
    ensures LastOr(f, snaps, d) == if i < |snaps| then f(snaps[i]) else d
  {
    if snaps == [] {
      i := 0;
    } else {
      var n := |snaps| - 1;
      assert snaps == snaps[..n] + [snaps[n]];
      if f(snaps[n]) != "" {
        i := n;
      } else {
        i := LastOrMeaning(f, snaps[..n], d);
        if i == n { i := n + 1; }
      }
    }
  }

  /** The given value unless it is empty, and then the first that is reported and not empty. */
  lemma {:induction false} FirstOrMeaning(f: Snap -> string, snaps: seq<Snap>, d: string) returns (i: nat)
    ensures d == "" ==> i == |snaps| || IsFirst(f, snaps, i)
    ensures d == "" && i == |snaps| ==> forall s :: s in snaps ==> f(s) == ""
    ensures FirstOr(f, snaps, d) == if d == "" && i < |snaps| then f(snaps[i]) else d
  {
    i := 0;
    if snaps != [] {
      var n := |snaps| - 1;
      assert snaps == snaps[..n] + [snaps[n]];
      i := FirstOrMeaning(f, snaps[..n], d);
      if d == "" && i == n && f(snaps[n]) == "" { i := n + 1; }
    }
  }

  lemma {:induction false} LastRevisionMeaning(snaps: seq<Snap>, provider: string, d: Option<nat>) returns (i: nat)
    ensures i == |snaps| || IsLastOf(snaps, provider, i)
    ensures i == |snaps| ==> forall s :: s in snaps ==> s.providerId != provider
    ensures LastRevision(snaps, provider, d) == if i < |snaps| then Some(snaps[i].revision) else d
  {
    if snaps == [] {
      i := 0;
    } else {
      var n := |snaps| - 1;
      assert snaps == snaps[..n] + [snaps[n]];
      if snaps[n].providerId == provider {
        i := n;
      } else {
        i := LastRevisionMeaning(snaps[..n], provider, d);
        if i == n { i := n + 1; }
      }
    }
  }

  ghost predicate Grants(snaps: seq<Snap>, c: string) {
    exists s :: s in snaps && c in s.capabilities
  }

  /** All status reports as one, in which the last report of each field wins. */
  function Reported(snaps: seq<Snap>): StatusPatch
    requires snaps != []
  {
    if |snaps| == 1 then snaps[0].status else Override(Reported(snaps[..|snaps| - 1]), snaps[|snaps| - 1].status)
  }

  function StatusAfter(s: Status, snaps: seq<Snap>): Status {
    if snaps == [] then s
    else
      var last := snaps[|snaps| - 1];
      ApplyPatch(s, Reported(snaps), last.providerId, last.confidence, last.observedAt)
  }

  function At<V>(m: map<string, V>, k: string): Option<V> {
    if k in m then Some(m[k]) else None
  }

  /** `y` is `x` after the reports. */
  ghost predicate Holds(y: ApplicationSurface, x: ApplicationSurface, snaps: seq<Snap>) {
    && y.appId == x.appId
    && y.name == FirstOr((s: Snap) => s.appName, snaps, x.name)
    && y.iconName == LastOr((s: Snap) => s.iconName, snaps, x.iconName)
    && y.desktopAppId == LastOr((s: Snap) => s.desktopAppId, snaps, x.desktopAppId)
    && (forall c :: At(y.capabilities, c) == if Grants(snaps, c) then Some(true) else At(x.capabilities, c))
    && (forall p :: At(y.sourceRevision, p) == LastRevision(snaps, p, At(x.sourceRevision, p)))
    && y.status == StatusAfter(x.status, snaps)
    && y.windows == WindowsAfter(x.windows, snaps)
  }

  lemma StatusNext(s: Status, snaps: seq<Snap>, x: Snap)
    ensures StatusAfter(s, snaps + [x]) ==
            ApplyPatch(StatusAfter(s, snaps), x.status, x.providerId, x.confidence, x.observedAt)
  {
    assert (snaps + [x])[..|snaps|] == snaps;
    if snaps != [] {
      var last := snaps[|snaps| - 1];
      PatchesCompose(s, Reported(snaps), x.status, last.providerId, last.confidence, last.observedAt,
                     x.providerId, x.confidence, x.observedAt);
    }
  }

  lemma NamesNext(y: ApplicationSurface, x: ApplicationSurface, snaps: seq<Snap>, s: Snap)
    requires y.name == FirstOr((s: Snap) => s.appName, snaps, x.name)
    requires y.iconName == LastOr((s: Snap) => s.iconName, snaps, x.iconName)
    requires y.desktopAppId == LastOr((s: Snap) => s.desktopAppId, snaps, x.desktopAppId)
    ensures Merge(y, s).name == FirstOr((s: Snap) => s.appName, snaps + [s], x.name)
    ensures Merge(y, s).iconName == LastOr((s: Snap) => s.iconName, snaps + [s], x.iconName)
    ensures Merge(y, s).desktopAppId == LastOr((s: Snap) => s.desktopAppId, snaps + [s], x.desktopAppId)
  {
    hide ApplyPatch, MergeAll, Grant;
    assert (snaps + [s])[..|snaps|] == snaps;
  }

  lemma GrantsNext(y: ApplicationSurface, x: ApplicationSurface, snaps: seq<Snap>, s: Snap, c: string)
    requires At(y.capabilities, c) == if Grants(snaps, c) then Some(true) else At(x.capabilities, c)
    ensures At(Merge(y, s).capabilities, c) == if Grants(snaps + [s], c) then Some(true) else At(x.capabilities, c)
  {
    hide ApplyPatch, MergeAll;
    if c in s.capabilities { assert s in snaps + [s]; }
    assert Grants(snaps + [s], c) <==> Grants(snaps, c) || c in s.capabilities;
  }

  lemma RevisionsNext(y: ApplicationSurface, x: ApplicationSurface, snaps: seq<Snap>, s: Snap, p: string)
    requires At(y.sourceRevision, p) == LastRevision(snaps, p, At(x.sourceRevision, p))
    ensures At(Merge(y, s).sourceRevision, p) == LastRevision(snaps + [s], p, At(x.sourceRevision, p))
  {
    hide ApplyPatch, MergeAll, Grant;
    assert (snaps + [s])[..|snaps|] == snaps;
  }

  lemma HoldsNext(y: ApplicationSurface, x: ApplicationSurface, snaps: seq<Snap>, s: Snap)
    requires Holds(y, x, snaps)
    ensures Holds(Merge(y, s), x, snaps + [s])
  {
    hide ApplyPatch, StatusAfter, MergeAll, Grant, Grants, At, LastRevision, FirstOr, LastOr;
    assert (snaps + [s])[..|snaps|] == snaps;
    StatusNext(x.status, snaps, s);
    NamesNext(y, x, snaps, s);
    forall c { GrantsNext(y, x, snaps, s, c); }
    forall p { RevisionsNext(y, x, snaps, s, p); }
  }

  /** What a surface holds after it absorbed some snapshots. */
  lemma {:induction false} AbsorbedHolds(x: ApplicationSurface, snaps: seq<Snap>, app: string)
    ensures AbsorbAll(Some(x), snaps, app).Some? && Holds(AbsorbAll(Some(x), snaps, app).value, x, snaps)
  {
    hide Holds, Merge;
    if snaps == [] {
      NothingHolds(x);
    } else {
      var init, s := snaps[..|snaps| - 1], snaps[|snaps| - 1];
      AbsorbedHolds(x, init, app);
      HoldsNext(AbsorbAll(Some(x), init, app).value, x, init, s);
      assert snaps == init + [s];
    }
  }

  lemma NothingHolds(x: ApplicationSurface)
    ensures Holds(x, x, [])
  {
  }

  // ----- New applications -----

  /** The first report that may bring the application into being. */
  ghost predicate FirstOrphan(snaps: seq<Snap>, k: nat) {
    k < |snaps| && snaps[k].allowOrphan && forall j :: 0 <= j < k ==> !snaps[j].allowOrphan
  }

  /** What a new application starts from. */
  ghost predicate Founds(x: ApplicationSurface, s: Snap, app: string) {
    && x.appId == app && x.name == (if s.appName == "" then app else s.appName)
    && x.iconName == s.iconName && x.desktopAppId == s.desktopAppId
    && x.windows == [] && x.status == NO_STATUS && x.capabilities == map[] && x.sourceRevision == map[]
  }

  lemma {:induction false} NothingFounded(snaps: seq<Snap>, app: string)
    requires forall s :: s in snaps ==> !s.allowOrphan
    ensures AbsorbAll(None, snaps, app) == None
  {
    if snaps != [] { NothingFounded(snaps[..|snaps| - 1], app); }
  }

  /** Reports before the first that may bring the application on are dropped. */
  lemma {:induction false} FoundedBy(snaps: seq<Snap>, app: string, k: nat)
    requires FirstOrphan(snaps, k)
    ensures AbsorbAll(None, snaps, app) == AbsorbAll(Some(NewApp(snaps[k], app)), snaps[k..], app)
  {
    hide Merge, NewApp;
    var n := |snaps| - 1;
    if k == n {
      NothingFounded(snaps[..n], app);
      assert snaps[k..] == [snaps[k]] && [snaps[k]][..0] == [];
      assert AbsorbAll(Some(NewApp(snaps[k], app)), [], app) == Some(NewApp(snaps[k], app));
    } else {
      FoundedBy(snaps[..n], app, k);
      assert snaps[k..][..|snaps[k..]| - 1] == snaps[..n][k..];
    }
  }

  // ----- What Apply returns -----

  /** The surface and the reports that the aggregated surface of `app` is made of: the last base surface
      under that id and all reports, or a new surface and the reports from the one that brings it on. */
  ghost predicate MadeOf(base: seq<ApplicationSurface>, snaps: seq<Snap>, app: string, x: ApplicationSurface,
                         rest: seq<Snap>)
  {
    || (exists i: nat :: LastAt(base, i) && base[i].appId == app && x == base[i] && rest == snaps)
    || ((forall a :: a in base ==> a.appId != app) &&
        exists k: nat :: FirstOrphan(snaps, k) && Founds(x, snaps[k], app) && rest == snaps[k..])
  }

  /** The surface is `y` with windows and views in their normal order. */
  ghost predicate ShownAs(z: ApplicationSurface, y: ApplicationSurface) {
    && z == y.(windows := z.windows) && |z.windows| == |y.windows|
    && (forall w :: w in z.windows ==> WindowIn(w, y.windows))
    && (forall w :: w in y.windows ==> WindowIn(w, z.windows))
  }

  lemma {:induction false} LookupIsLast(apps: seq<ApplicationSurface>, id: string) returns (i: nat)
    requires Lookup(apps, id).Some?
    ensures LastAt(apps, i) && apps[i].appId == id && Lookup(apps, id) == Some(apps[i])
  {
    var n := |apps| - 1;
    if apps[n].appId == id {
      i := n;
    } else {
      i := LookupIsLast(apps[..n], id);
      assert apps[..n][i] == apps[i];
    }
  }

  lemma NormalizedShows(y: ApplicationSurface)
    ensures ShownAs(Normalized(y), y)
  {
    hide Sort, ViewLeq;
    var z := Normalized(y);
    forall w | w in z.windows ensures WindowIn(w, y.windows) {
      NormalizedWindows(y, w);
      var x :| x in y.windows && w == x.(views := Sort(ViewLeq, x.views));
      assert SameWindow(w, x);
    }
    forall w | w in y.windows ensures WindowIn(w, z.windows) {
      var n := w.(views := Sort(ViewLeq, w.views));
      NormalizedWindows(y, n);
      assert SameWindow(w, n);
    }
    NormalizedLength(y);
  }

  lemma NormalizedLength(y: ApplicationSurface)
    ensures |Normalized(y).windows| == |y.windows| && Normalized(y) == y.(windows := Normalized(y).windows)
  {
  }

  lemma SurfaceMadeOf(base: seq<ApplicationSurface>, snaps: seq<Snap>, app: string)
    returns (x: ApplicationSurface, rest: seq<Snap>)
    ensures
      var o := AbsorbAll(Lookup(base, app), snaps, app);
      && (o.Some? <==> (exists a :: a in base && a.appId == app) || exists s :: s in snaps && s.allowOrphan)
      && (o.Some? ==> MadeOf(base, snaps, app, x, rest) && Holds(o.value, x, rest))
  {
    hide Holds, AbsorbAll, Lookup;
    rest := snaps;
    if Lookup(base, app).Some? {
      var i := LookupIsLast(base, app);
      x := base[i];
      AbsorbedHolds(x, snaps, app);
    } else if s :| s in snaps && s.allowOrphan {
      var k := OrphanIn(snaps);
      x, rest := NewApp(snaps[k], app), snaps[k..];
      FoundedBy(snaps, app, k);
      AbsorbedHolds(x, rest, app);
      assert snaps[k] in snaps;
    } else {
      x := NewAppOf(app);
      NothingFounded(snaps, app);
    }
  }

  function NewAppOf(app: string): ApplicationSurface {
    ApplicationSurface(app, app, "", "", [], NO_STATUS, map[], map[])
  }

  lemma {:induction false} OrphanIn(snaps: seq<Snap>) returns (k: nat)
    requires exists s :: s in snaps && s.allowOrphan
    ensures FirstOrphan(snaps, k)
  {
    if snaps[0].allowOrphan {
      k := 0;
    } else {
      var s :| s in snaps && s.allowOrphan;
      assert s in snaps[1..];
      k := OrphanIn(snaps[1..]);
      k := k + 1;
    }
  }

  /** For every application, the surface that Apply returns, if any, is what its reports make of its base
      surface, or of a new one, in its normal order; there is one exactly when the base has one or some
      report may bring it on. */
  lemma AggregatedHolds(out: seq<ApplicationSurface>, base: seq<ApplicationSurface>, order: seq<Snap>, now: int,
                        app: string)
    returns (x: ApplicationSurface, rest: seq<Snap>, y: ApplicationSurface)
    requires IsResult(out, base, order, now)
    ensures
      var snaps := Filter(Relevant(IndexOf(order, now), now, app), order);
      && ((exists z :: z in out && z.appId == app) <==>
            (exists a :: a in base && a.appId == app) || exists s :: s in snaps && s.allowOrphan)
      && (forall i: nat :: LastAt(out, i) && out[i].appId == app ==>
            MadeOf(base, snaps, app, x, rest) && Holds(y, x, rest) && ShownAs(out[i], y))
  {
    hide Holds, AbsorbAll, Lookup, Relevant, Filter, IndexOf, Normalized, Keeps, MadeOf, ShownAs;
    var snaps := Filter(Relevant(IndexOf(order, now), now, app), order);
    x, rest := SurfaceMadeOf(base, snaps, app);
    var o := SurfaceOf(base, order, IndexOf(order, now), now, app);
    assert o == AbsorbAll(Lookup(base, app), snaps, app);
    y := if o.Some? then o.value else x;
    NormalizedShows(y);
    forall i: nat | LastAt(out, i) && out[i].appId == app ensures Lookup(out, app) == Some(out[i]) { LookupAt(out, i); }
    if z :| z in out && z.appId == app { assert Lookup(out, app).Some?; }
  }

  /** So each provider has in every window exactly the views of its last patch there. */
  lemma AggregatedViews(y: ApplicationSurface, x: ApplicationSurface, snaps: seq<Snap>, provider: string, i: nat)
    requires Holds(y, x, snaps) && i < |y.windows|
    ensures Filter(Own(provider), y.windows[i].views) == OwnViews(x.windows, snaps, provider, i)
  {
    hide WindowsAfter, OwnViews, Filter;
    ViewsAreOfLastPatches(x.windows, snaps, provider, i);
  }

  // ----- The order of the reports -----

  /** `s` is heard before `t`: native sources first, then by priority, confidence and provider. */
  predicate HeardBefore(s: Snap, t: Snap) {
    || (s.kind == Native && t.kind != Native)
    || ((s.kind == Native <==> t.kind == Native) &&
        (|| s.priority < t.priority
         || (s.priority == t.priority &&
             (|| s.confidence < t.confidence
              || (s.confidence == t.confidence && s.providerId != t.providerId &&
                  Text.Leq(s.providerId, t.providerId))))))
  }

  /** Reports are handled in that order: none is heard before an earlier one. */
  lemma OrderIsByRank(order: seq<Snap>, m: Store, i: nat, j: nat)
    requires IsOrder(order, m) && i < j < |order|
    ensures !HeardBefore(order[j], order[i])
  {
    hide Lists;
    assert SnapLeq(order[i], order[j]);
    TextOrder(order[i].providerId, order[j].providerId, order[j].providerId);
  }

  /** The snapshots of an application are those that are fresh and resolve to it: observed at most a second
      ahead and no longer ago than their lifetime, and by native identity or else by their own id. */
  lemma RelevantMeaning(order: seq<Snap>, now: int, app: string, s: Snap)
    requires s.ttl >= 0
    ensures s in Filter(Relevant(IndexOf(order, now), now, app), order) <==>
            && s in order && s.observedAt - 1_000_000_000 <= now <= s.observedAt + s.ttl
            && TargetApp(s, IndexOf(order, now)) == app
  {
    hide TargetApp, IndexOf;
  }

  /** A native snapshot counts for its own application, and any other for the one that its keys resolve to,
      or else for its own. */
  lemma TargetMeaning(s: Snap, snaps: seq<Snap>, now: int, app: string)
    requires NamedApps(snaps)
    ensures s.kind == Native ==> TargetApp(s, IndexOf(snaps, now)) == s.appId
    ensures s.kind != Native && app != "" && ResolvesTo(s, IndexOf(snaps, now), app) ==>
              TargetApp(s, IndexOf(snaps, now)) == app
    ensures s.kind != Native && (forall a :: !ResolvesTo(s, IndexOf(snaps, now), a)) ==>
              TargetApp(s, IndexOf(snaps, now)) == s.appId
  {
    hide IndexOf, ResolvesTo;
    if s.kind != Native && ResolvesTo(s, IndexOf(snaps, now), app) { TargetIsUnique(s, IndexOf(snaps, now), app); }
  }
}
