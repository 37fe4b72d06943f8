/** Merging one provider snapshot into one application surface: mergeWindows and the field updates of
    Registry.Apply (internal/providers/registry.go). */
module Merging {
  import opened Sorting
  import opened Wrappers
  import opened Surface
  import opened Registry

  function FirstWindow(ws: seq<Window>, id: string): (i: nat)
    ensures i <= |ws| && (i < |ws| ==> ws[i].id == id) && forall j :: 0 <= j < i ==> ws[j].id != id
  {
    if ws == [] || ws[0].id == id then 0 else 1 + FirstWindow(ws[1..], id)
  }

  /** The window a patch applies to; `|ws|` stands for a window still to be appended. */
  function Target(ws: seq<Window>, p: WindowPatch): (i: nat)
    ensures i <= |ws|
  {
    if p.windowId != "" then FirstWindow(ws, p.windowId)
    else if |ws| == 1 then 0
    else |ws|
  }

  function NewWindow(p: WindowPatch, provider: string): Window {
    Window(if p.windowId != "" then p.windowId else "provider:" + provider + ":" + p.providerWindowId,
           p.title, p.workspaceId, p.monitorRef, p.focused, p.minimized, p.mru, p.windowId == "", [])
  }

  function Foreign(provider: string): View -> bool {
    (v: View) => v.providerId != provider
  }

  function Own(provider: string): View -> bool {
    (v: View) => v.providerId == provider
  }

  function Stamp(v: View, p: WindowPatch, provider: string): View {
    v.(providerId := provider,
       providerWindowId := if v.providerWindowId == "" then p.providerWindowId else v.providerWindowId)
  }

  function Stamped(p: WindowPatch, provider: string): (r: seq<View>)
    ensures |r| == |p.views| && forall i :: 0 <= i < |r| ==> r[i] == Stamp(p.views[i], p, provider)
  {
    seq(|p.views|, i requires 0 <= i < |p.views| => Stamp(p.views[i], p, provider))
  }

  /** One patch applied to its window. */
  function PatchWindow(w: Window, p: WindowPatch, provider: string): Window {
    var titled := if p.title != "" then w.(title := p.title) else w;
    var placed := if p.authoritative
                  then titled.(workspaceId := p.workspaceId, monitorRef := p.monitorRef, focused := p.focused,
                               minimized := p.minimized, mru := p.mru, providerOnly := false)
                  else titled;
    placed.(views := Filter(Foreign(provider), w.views) + Stamped(p, provider))
  }

  function MergePatch(ws: seq<Window>, p: WindowPatch, provider: string): (r: seq<Window>)
    ensures |ws| <= |r| <= |ws| + 1 && Target(ws, p) < |r|
  {
    var i := Target(ws, p);
    var all := if i == |ws| then ws + [NewWindow(p, provider)] else ws;
    all[i := PatchWindow(all[i], p, provider)]
  }

  function MergeAll(ws: seq<Window>, patches: seq<WindowPatch>, provider: string): (r: seq<Window>)
    ensures |ws| <= |r|
    decreases |patches|
  {
    if patches == [] then ws else MergeAll(MergePatch(ws, patches[0], provider), patches[1..], provider)
  }

  /** One round of mergeWindows, as written. */
  method MergeOne(ws: seq<Window>, patch: WindowPatch, provider: string) returns (out: seq<Window>)
    ensures out == MergePatch(ws, patch, provider)
  {
    var idx := -1;
    if patch.windowId != "" {
      var i := 0;
      while i < |ws|
        invariant 0 <= i <= |ws| && idx == -1 && forall j :: 0 <= j < i ==> ws[j].id != patch.windowId
      {
        if ws[i].id == patch.windowId {
          idx := i;
          break;
        }
        i := i + 1;
      }
    }
    if idx < 0 && patch.windowId == "" && |ws| == 1 { idx := 0; }
    out := ws;
    if idx < 0 {
      out := out + [NewWindow(patch, provider)];
      idx := |out| - 1;
    }
    assert idx == Target(ws, patch);
    var w := out[idx];
    if patch.title != "" { w := w.(title := patch.title); }
    if patch.authoritative {
      w := w.(workspaceId := patch.workspaceId, monitorRef := patch.monitorRef, focused := patch.focused,
              minimized := patch.minimized, mru := patch.mru, providerOnly := false);
    }
    var kept := KeepForeign(w.views, provider);
    var stamped: seq<View> := [];
    for i := 0 to |patch.views|
      invariant |stamped| == i && forall j :: 0 <= j < i ==> stamped[j] == Stamp(patch.views[j], patch, provider)
    {
      var v := patch.views[i].(providerId := provider);
      if v.providerWindowId == "" { v := v.(providerWindowId := patch.providerWindowId); }
      stamped := stamped + [v];
    }
    assert stamped == Stamped(patch, provider);
    out := out[idx := w.(views := kept + stamped)];
  }

  method KeepForeign(views: seq<View>, provider: string) returns (kept: seq<View>)
    ensures kept == Filter(Foreign(provider), views)
  {
    hide Filter;
    kept := [];
    FilterNothing(Foreign(provider));
    for i := 0 to |views|
      invariant kept == Filter(Foreign(provider), views[..i])
    {
      FilterNext(Foreign(provider), views, i);
      if views[i].providerId != provider { kept := kept + [views[i]]; }
    }
    assert views[..|views|] == views;
  }

  method MergeWindows(ws: seq<Window>, patches: seq<WindowPatch>, provider: string) returns (out: seq<Window>)
    ensures out == MergeAll(ws, patches, provider)
  {
    out := ws;
    for i := 0 to |patches|
      invariant MergeAll(ws, patches, provider) == MergeAll(out, patches[i..], provider)
    {
      assert patches[i..][0] == patches[i] && patches[i..][1..] == patches[i + 1..];
      out := MergeOne(out, patches[i], provider);
    }
  }

  // ----- What merging does to views -----

  lemma {:induction false} FilterAll(keep: View -> bool, s: seq<View>)
    requires forall v :: v in s ==> keep(v)
    ensures Filter(keep, s) == s
  {
    if s != [] { FilterAll(keep, s[1..]); }
  }

  lemma {:induction false} FilterNone(keep: View -> bool, s: seq<View>)
    requires forall v :: v in s ==> !keep(v)
    ensures Filter(keep, s) == []
  {
    if s != [] { FilterNone(keep, s[1..]); }
  }

  /** One patch keeps the foreign views of its window, in order, and replaces the provider's own. */
  lemma PatchViews(w: Window, p: WindowPatch, provider: string)
    ensures Filter(Foreign(provider), PatchWindow(w, p, provider).views) == Filter(Foreign(provider), w.views)
    ensures Filter(Own(provider), PatchWindow(w, p, provider).views) == Stamped(p, provider)
  {
    var kept, stamped := Filter(Foreign(provider), w.views), Stamped(p, provider);
    FilterAppend(Foreign(provider), kept, stamped);
    FilterAppend(Own(provider), kept, stamped);
    FilterAll(Foreign(provider), kept);
    FilterNone(Own(provider), kept);
    FilterNone(Foreign(provider), stamped);
    FilterAll(Own(provider), stamped);
  }

  /** The last patch of the list that is applied to window `i`, if any. */
  function LastPatch(ws: seq<Window>, patches: seq<WindowPatch>, provider: string, i: nat): Option<WindowPatch>
    decreases |patches|
  {
    if patches == [] then None
    else
      var later := LastPatch(MergePatch(ws, patches[0], provider), patches[1..], provider, i);
      if later.Some? then later else if Target(ws, patches[0]) == i then Some(patches[0]) else None
  }

  function ViewsAt(ws: seq<Window>, i: nat): seq<View> {
    if i < |ws| then ws[i].views else []
  }

  /** Window merging keeps every other provider's views, in order; this provider's views in a window
      are exactly those of its last patch applied to that window, or the old ones if there is none. */
  lemma {:induction false} MergeKeepsForeignViews(ws: seq<Window>, patches: seq<WindowPatch>, provider: string, i: nat)
    requires i < |MergeAll(ws, patches, provider)|
    ensures
      var out, last := MergeAll(ws, patches, provider)[i].views, LastPatch(ws, patches, provider, i);
      && Filter(Foreign(provider), out) == Filter(Foreign(provider), ViewsAt(ws, i))
      && Filter(Own(provider), out) ==
         if last.Some? then Stamped(last.value, provider) else Filter(Own(provider), ViewsAt(ws, i))
    decreases |patches|
  {
    if patches != [] {
      var p, next := patches[0], MergePatch(ws, patches[0], provider);
      MergeKeepsForeignViews(next, patches[1..], provider, i);
      if Target(ws, p) == i {
        PatchViews(if i == |ws| then NewWindow(p, provider) else ws[i], p, provider);
      }
    }
  }

  /** Anonymous patches never give an application a second window while it has at most one: they all
      land in the same window, and only the views of the last patch survive. */
  lemma {:induction false} AnonymousPatchesCollapse(ws: seq<Window>, patches: seq<WindowPatch>, provider: string)
    requires |ws| <= 1 && patches != [] && forall p :: p in patches ==> p.windowId == ""
    ensures |MergeAll(ws, patches, provider)| == 1
    ensures Filter(Own(provider), MergeAll(ws, patches, provider)[0].views) == Stamped(patches[|patches| - 1], provider)
    decreases |patches|
  {
    hide PatchWindow, Stamped, Filter, NewWindow;
    assert patches[0] in patches;
    var next := MergePatch(ws, patches[0], provider);
    if |patches| == 1 {
      assert MergeAll(next, patches[1..], provider) == next;
      PatchViews(if ws == [] then NewWindow(patches[0], provider) else ws[0], patches[0], provider);
    } else {
      assert forall p :: p in patches[1..] ==> p in patches;
      AnonymousPatchesCollapse(next, patches[1..], provider);
    }
  }

  // ----- One snapshot into one application -----

  function Grant(capabilities: map<string, bool>, granted: seq<string>): map<string, bool> {
    capabilities + (map c | c in granted :: true)
  }

  function Merge(a: ApplicationSurface, s: Snap): ApplicationSurface {
    a.(name := if a.name == "" && s.appName != "" then s.appName else a.name,
       iconName := if s.iconName != "" then s.iconName else a.iconName,
       desktopAppId := if s.desktopAppId != "" then s.desktopAppId else a.desktopAppId,
       capabilities := Grant(a.capabilities, s.capabilities),
       sourceRevision := a.sourceRevision[s.providerId := s.revision],
       status := ApplyPatch(a.status, s.status, s.providerId, s.confidence, s.observedAt),
       windows := MergeAll(a.windows, s.windows, s.providerId))
  }

  const NO_STATUS: Status := Status("", false, false, Other(""), "", "", "", "", None, "", 0, "", 0)

  function NewApp(s: Snap, appId: string): ApplicationSurface {
    ApplicationSurface(appId, if s.appName == "" then appId else s.appName,
                       s.iconName, s.desktopAppId, [], NO_STATUS, map[], map[])
  }

  lemma GrantNothing(capabilities: map<string, bool>)
    ensures Grant(capabilities, []) == capabilities
  {
  }

  lemma GrantNext(capabilities: map<string, bool>, granted: seq<string>, i: nat)
    requires i < |granted|
    ensures Grant(capabilities, granted[..i + 1]) == Grant(capabilities, granted[..i])[granted[i] := true]
  {
    assert granted[..i + 1] == granted[..i] + [granted[i]];
  }

  method GrantAll(capabilities: map<string, bool>, granted: seq<string>) returns (r: map<string, bool>)
    ensures r == Grant(capabilities, granted)
  {
    hide Grant;
    r := capabilities;
    GrantNothing(capabilities);
    for i := 0 to |granted|
      invariant r == Grant(capabilities, granted[..i])
    {
      GrantNext(capabilities, granted, i);
      r := r[granted[i] := true];
    }
    assert granted[..|granted|] == granted;
  }

  method MergeSnapshot(a: ApplicationSurface, s: Snap) returns (r: ApplicationSurface)
    ensures r == Merge(a, s)
  {
    r := a;
    if r.name == "" && s.appName != "" { r := r.(name := s.appName); }
    if s.iconName != "" { r := r.(iconName := s.iconName); }
    if s.desktopAppId != "" { r := r.(desktopAppId := s.desktopAppId); }
    var capabilities := GrantAll(r.capabilities, s.capabilities);
    var windows := MergeWindows(r.windows, s.windows, s.providerId);
    r := r.(capabilities := capabilities, sourceRevision := r.sourceRevision[s.providerId := s.revision],
            status := ApplyPatch(r.status, s.status, s.providerId, s.confidence, s.observedAt), windows := windows);
  }

  /** Merges into one application do not commute: where two snapshots disagree, the later one wins. */
  lemma LaterMergeWins(a: ApplicationSurface, s: Snap, t: Snap)
    requires s.status.summary.Some? && t.status.summary.Some? && s.status.summary != t.status.summary
    ensures Merge(Merge(a, s), t).status.summary == t.status.summary.value
    ensures Erased(Merge(Merge(a, s), t)) != Erased(Merge(Merge(a, t), s))
  {
  }
}
