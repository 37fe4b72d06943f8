/** Registry.Apply (internal/providers/registry.go): the provider snapshots, in an order that the map
    iteration and an unstable sort leave partly open, merged into application surfaces. */
module Aggregation {
  import Text
  import opened Sorting
  import opened Wrappers
  import opened Surface
  import opened Registry
  import opened Identity
  import opened Merging

  function SourceRank(k: SourceKind): nat {
    if k == Native then 0 else 1
  }

  /** The comparison of snapshots; two snapshots of one provider for different applications may tie. */
  predicate SnapLeq(a: Snap, b: Snap) {
    if SourceRank(a.kind) != SourceRank(b.kind) then SourceRank(a.kind) < SourceRank(b.kind)
    else if a.priority != b.priority then a.priority < b.priority
    else if a.confidence != b.confidence then a.confidence < b.confidence
    else Text.Leq(a.providerId, b.providerId)
  }

  lemma SnapOrder(a: Snap, b: Snap, c: Snap)
    ensures SnapLeq(a, b) || SnapLeq(b, a)
    ensures SnapLeq(a, b) && SnapLeq(b, c) ==> SnapLeq(a, c)
  {
    TextOrder(a.providerId, b.providerId, c.providerId);
  }

  lemma SnapsAreOrdered(snaps: seq<Snap>)
    ensures TotalPreorderOn(SnapLeq, snaps)
  {
    forall x, y | x in snaps && y in snaps ensures SnapLeq(x, y) || SnapLeq(y, x) { SnapOrder(x, y, y); }
    forall x, y, z | x in snaps && y in snaps && z in snaps && SnapLeq(x, y) && SnapLeq(y, z) ensures SnapLeq(x, z) {
      SnapOrder(x, y, z);
    }
  }

  /** The application a snapshot is merged into. */
  ghost function TargetApp(s: Snap, index: Index): string {
    if s.kind != Native && exists a :: ResolvesTo(s, index, a) then
      var a :| ResolvesTo(s, index, a); a
    else s.appId
  }

  lemma TargetIsUnique(s: Snap, index: Index, a: string)
    requires s.kind != Native && ResolvesTo(s, index, a)
    ensures TargetApp(s, index) == a
  {
    hide Candidates;
    var b := TargetApp(s, index);
    assert {a} == {b} && b in {b};
  }

  ghost function Relevant(index: Index, now: int, app: string): Snap -> bool {
    (s: Snap) => Fresh(s, now) && TargetApp(s, index) == app
  }

  /** One snapshot absorbed by the surface of its application, if there is one or it may make one. */
  function Absorb(a: Option<ApplicationSurface>, s: Snap, app: string): Option<ApplicationSurface> {
    match a
    case Some(x) => Some(Merge(x, s))
    case None => if s.allowOrphan then Some(Merge(NewApp(s, app), s)) else None
  }

  function AbsorbAll(a: Option<ApplicationSurface>, snaps: seq<Snap>, app: string): Option<ApplicationSurface> {
    if snaps == [] then a else Absorb(AbsorbAll(a, snaps[..|snaps| - 1], app), snaps[|snaps| - 1], app)
  }

  ghost predicate DistinctApps(apps: seq<ApplicationSurface>) {
    forall i, j :: 0 <= i < j < |apps| ==> apps[i].appId != apps[j].appId
  }

  function Lookup(apps: seq<ApplicationSurface>, id: string): (o: Option<ApplicationSurface>)
    ensures o.Some? ==> o.value in apps && o.value.appId == id
    ensures o.None? ==> forall a :: a in apps ==> a.appId != id
  {
    if apps == [] then None
    else if apps[|apps| - 1].appId == id then Some(apps[|apps| - 1])
    else Lookup(apps[..|apps| - 1], id)
  }

  /** The surface of one application depends only on the fresh snapshots that target it, in their order. */
  ghost function SurfaceOf(base: seq<ApplicationSurface>, order: seq<Snap>, index: Index, now: int, app: string)
    : Option<ApplicationSurface>
  {
    AbsorbAll(Lookup(base, app), Filter(Relevant(index, now, app), order), app)
  }

  /** No later entry has the id of the i-th. */
  ghost predicate LastAt(apps: seq<ApplicationSurface>, i: nat) {
    i < |apps| && forall j :: i < j < |apps| ==> apps[j].appId != apps[i].appId
  }

  /** `out` keeps the base entries in place, those that a later one of the same id hides unchanged, and
      what it adds has new ids. */
  ghost predicate Keeps(base: seq<ApplicationSurface>, out: seq<ApplicationSurface>) {
    && |base| <= |out|
    && (forall i :: 0 <= i < |base| ==> out[i].appId == base[i].appId)
    && (forall i :: 0 <= i < |base| && !LastAt(base, i) ==> out[i] == base[i])
    && (forall i, j :: 0 <= i < j < |out| && |base| <= j ==> out[i].appId != out[j].appId)
  }

  /** What Apply returns for one order of the snapshots: the base entries and new ones, normalised; the
      surface found under an id is that of its application. */
  ghost predicate IsResult(out: seq<ApplicationSurface>, base: seq<ApplicationSurface>, order: seq<Snap>, now: int) {
    && Keeps(Map(Normalized, base), out)
    && forall app :: Lookup(out, app) ==
         var a := SurfaceOf(base, order, IndexOf(order, now), now, app);
         if a.Some? then Some(Normalized(a.value)) else None
  }

  // ----- Apply as written -----

  ghost predicate Located(byApp: map<string, nat>, out: seq<ApplicationSurface>) {
    && (forall app :: app in byApp ==> LastAt(out, byApp[app]) && out[byApp[app]].appId == app)
    && (forall i :: 0 <= i < |out| ==> out[i].appId in byApp)
  }

  lemma {:induction false} LookupAt(apps: seq<ApplicationSurface>, i: nat)
    requires LastAt(apps, i)
    ensures Lookup(apps, apps[i].appId) == Some(apps[i])
  {
    if i < |apps| - 1 {
      var init := apps[..|apps| - 1];
      assert init[i] == apps[i];
      LookupAt(init, i);
    }
  }

  lemma LookupAppend(apps: seq<ApplicationSurface>, a: ApplicationSurface, id: string)
    ensures Lookup(apps + [a], id) == if a.appId == id then Some(a) else Lookup(apps, id)
  {
    assert (apps + [a])[..|apps|] == apps;
  }

  lemma {:induction false} LookupUpdate(apps: seq<ApplicationSurface>, i: nat, a: ApplicationSurface, id: string)
    requires LastAt(apps, i) && a.appId == apps[i].appId
    ensures Lookup(apps[i := a], id) == if a.appId == id then Some(a) else Lookup(apps, id)
  {
    var init := apps[..|apps| - 1];
    if i < |apps| - 1 {
      assert init[i] == apps[i];
      LookupUpdate(init, i, a, id);
      assert apps[i := a][..|apps| - 1] == init[i := a];
    } else {
      assert apps[i := a][..|apps| - 1] == init;
    }
  }

  ghost predicate Merged(base: seq<ApplicationSurface>, out: seq<ApplicationSurface>, order: seq<Snap>, index: Index,
                         now: int)
  {
    forall app :: Lookup(out, app) == SurfaceOf(base, order, index, now, app)
  }

  lemma SurfaceNext(base: seq<ApplicationSurface>, order: seq<Snap>, s: Snap, index: Index, now: int, app: string)
    ensures SurfaceOf(base, order + [s], index, now, app) ==
            if Fresh(s, now) && TargetApp(s, index) == app then Absorb(SurfaceOf(base, order, index, now, app), s, app)
            else SurfaceOf(base, order, index, now, app)
  {
    var keep := Relevant(index, now, app);
    FilterAppend(keep, order, [s]);
    var was := Filter(keep, order);
    if keep(s) {
      assert Filter(keep, order + [s]) == was + [s];
      assert (was + [s])[..|was|] == was;
    } else {
      assert Filter(keep, order + [s]) == was;
    }
  }

  lemma MergeKeepsId(a: ApplicationSurface, s: Snap)
    ensures Merge(a, s).appId == a.appId
  {
  }

  /** One snapshot changes the surface of its target and no other. */
  lemma MergedNext(base: seq<ApplicationSurface>, out: seq<ApplicationSurface>, next: seq<ApplicationSurface>,
                   order: seq<Snap>, s: Snap,
                   index: Index, now: int, target: string)
    requires Merged(base, out, order, index, now) && (Fresh(s, now) ==> target == TargetApp(s, index))
    requires forall app :: Lookup(next, app) ==
               if Fresh(s, now) && app == target then Absorb(Lookup(out, app), s, app) else Lookup(out, app)
    ensures Merged(base, next, order + [s], index, now)
  {
    hide SurfaceOf, Absorb, TargetApp, Lookup, Fresh;
    forall app ensures Lookup(next, app) == SurfaceOf(base, order + [s], index, now, app) {
      SurfaceNext(base, order, s, index, now, app);
    }
  }

  /** The entries that one round may touch: the last one of the target's id, or a new one. */
  ghost predicate Touches(out: seq<ApplicationSurface>, next: seq<ApplicationSurface>, target: string) {
    && |out| <= |next| <= |out| + 1
    && (forall i :: 0 <= i < |out| ==> next[i].appId == out[i].appId)
    && (forall i :: 0 <= i < |out| && !(LastAt(out, i) && out[i].appId == target) ==> next[i] == out[i])
    && (|next| > |out| ==> next[|out|].appId == target && forall i :: 0 <= i < |out| ==> out[i].appId != target)
  }

  lemma TouchesKeeps(base: seq<ApplicationSurface>, out: seq<ApplicationSurface>, next: seq<ApplicationSurface>,
                     target: string)
    requires Keeps(base, out) && Touches(out, next, target)
    ensures Keeps(base, next)
  {
    forall i | 0 <= i < |base| && !LastAt(base, i) ensures next[i] == base[i] {
      var j :| i < j < |base| && base[j].appId == base[i].appId;
      assert out[j].appId == out[i].appId;
    }
  }

  lemma UpdateLocated(byApp: map<string, nat>, out: seq<ApplicationSurface>, idx: nat, a: ApplicationSurface)
    requires Located(byApp, out) && idx < |out| && a.appId == out[idx].appId
    ensures Located(byApp, out[idx := a])
  {
    forall app | app in byApp ensures LastAt(out[idx := a], byApp[app]) && out[idx := a][byApp[app]].appId == app {
      assert LastAt(out, byApp[app]);
    }
  }

  lemma AppendLocated(byApp: map<string, nat>, out: seq<ApplicationSurface>, a: ApplicationSurface)
    requires Located(byApp, out) && a.appId !in byApp
    ensures Located(byApp[a.appId := |out|], out + [a])
  {
    forall app | app in byApp ensures LastAt(out + [a], byApp[app]) && (out + [a])[byApp[app]].appId == app {
      assert LastAt(out, byApp[app]);
    }
  }

  /** The body of the main loop of Apply. */
  method MergeNext(out: seq<ApplicationSurface>, byApp: map<string, nat>, s: Snap, target: string)
    returns (next: seq<ApplicationSurface>, located: map<string, nat>)
    requires Located(byApp, out)
    ensures Located(located, next) && Touches(out, next, target)
    ensures forall app ::
              Lookup(next, app) == if app == target then Absorb(Lookup(out, app), s, app) else Lookup(out, app)
  {
    hide Lookup, Merge, NewApp;
    next, located := out, byApp;
    if target !in byApp {
      NotLocated(byApp, out, target);
      if !s.allowOrphan { return; }
      var a := MergeSnapshot(NewApp(s, target), s);
      NewAppKeepsId(s, target);
      AppendLocated(byApp, out, a);
      next, located := out + [a], byApp[target := |out|];
      forall app { LookupAppend(out, a, app); }
    } else {
      var idx := byApp[target];
      LookupAt(out, idx);
      var a := MergeSnapshot(out[idx], s);
      MergeKeepsId(out[idx], s);
      UpdateLocated(byApp, out, idx, a);
      next := out[idx := a];
      forall app { LookupUpdate(out, idx, a, app); }
    }
  }

  lemma NewAppKeepsId(s: Snap, target: string)
    ensures Merge(NewApp(s, target), s).appId == target
  {
  }

  lemma NotLocated(byApp: map<string, nat>, out: seq<ApplicationSurface>, target: string)
    requires Located(byApp, out) && target !in byApp
    ensures Lookup(out, target) == None
  {
  }

  /** A listing of the stored snapshots, in any order. */
  ghost predicate Lists(snaps: seq<Snap>, m: Store) {
    NoDup(snaps) && forall s :: s in snaps <==> exists k :: k in m && m[k] == s
  }

  /** Reading the map: Go leaves the order of the iteration open, and so does the choice of `k`. */
  method ListValues(m: Store) returns (snaps: seq<Snap>)
    requires Inv(m)
    ensures Lists(snaps, m)
  {
    snaps := [];
    var todo := m.Keys;
    while todo != {}
      invariant todo <= m.Keys && NoDup(snaps)
      invariant forall s :: s in snaps <==> exists k :: k in m && k !in todo && m[k] == s
    {
      var k :| k in todo;
      hide Clean;
      assert forall s :: s in snaps ==> KeyOf(s) != k;
      snaps := snaps + [m[k]];
      todo := todo - {k};
    }
  }

  /** A possible order in which Apply handles the stored snapshots: sorted, with ties in any order. */
  ghost predicate IsOrder(order: seq<Snap>, m: Store) {
    Lists(order, m) && Sorted(SnapLeq, order)
  }

  lemma SortedListing(snaps: seq<Snap>, m: Store)
    requires Lists(snaps, m)
    ensures IsOrder(Sort(SnapLeq, snaps), m)
  {
    SnapsAreOrdered(snaps);
    SortIsSorted(SnapLeq, snaps);
    MembersOfPermutation(snaps, Sort(SnapLeq, snaps));
    NoDupPermutation(snaps, Sort(SnapLeq, snaps));
    hide TotalPreorderOn, SnapLeq, Sort, NoDup;
  }

  lemma StoredAppsAreNamed(order: seq<Snap>, m: Store)
    requires Inv(m) && Lists(order, m)
    ensures NamedApps(order)
  {
    assert Text.Blank("");
    forall s | s in order ensures s.appId != "" {
      var k :| k in m && m[k] == s;
      assert Clean(m[k]);
    }
  }

  lemma {:induction false} LookupNormalized(apps: seq<ApplicationSurface>, id: string)
    ensures Lookup(Map(Normalized, apps), id) ==
            var a := Lookup(apps, id); if a.Some? then Some(Normalized(a.value)) else None
  {
    var out := Map(Normalized, apps);
    if apps != [] {
      var init := apps[..|apps| - 1];
      assert out[..|apps| - 1] == Map(Normalized, init);
      LookupNormalized(init, id);
    }
  }

  method NormalizeEach(apps: seq<ApplicationSurface>) returns (out: seq<ApplicationSurface>)
    ensures out == Map(Normalized, apps)
  {
    out := apps;
    for i := 0 to |apps|
      invariant |out| == |apps|
      invariant forall j :: 0 <= j < |out| ==> out[j] == if j < i then Normalized(apps[j]) else apps[j]
    {
      var a := Normalize(out[i]);
      out := out[i := a];
    }
    assert out == Map(Normalized, apps);
  }

  /** The index of Apply's `byApp` map for the base surfaces: the last entry of an id counts. */
  method LocateBase(base: seq<ApplicationSurface>) returns (byApp: map<string, nat>)
    ensures Located(byApp, base)
  {
    byApp := map[];
    for i := 0 to |base|
      invariant forall app :: app in byApp ==> LastAt(base[..i], byApp[app]) && base[byApp[app]].appId == app
      invariant forall j :: 0 <= j < i ==> base[j].appId in byApp
    {
      byApp := byApp[base[i].appId := i];
    }
    assert base[..|base|] == base;
  }

  lemma FinishApply(base: seq<ApplicationSurface>, merged: seq<ApplicationSurface>, order: seq<Snap>, now: int)
    requires Merged(base, merged, order, IndexOf(order, now), now) && Keeps(base, merged)
    ensures IsResult(Map(Normalized, merged), base, order, now)
  {
    hide Lookup, SurfaceOf, IndexOf;
    forall app { LookupNormalized(merged, app); }
    NormalizedKeeps(base, merged);
  }

  lemma IdsNormalized(apps: seq<ApplicationSurface>, i: nat)
    requires i < |apps|
    ensures Map(Normalized, apps)[i] == Normalized(apps[i]) && Map(Normalized, apps)[i].appId == apps[i].appId
  {
    NormalizedKeepsId(apps[i]);
    hide Normalized, Map;
  }

  lemma LastAtNormalized(apps: seq<ApplicationSurface>, i: nat)
    requires i < |apps|
    ensures LastAt(Map(Normalized, apps), i) <==> LastAt(apps, i)
  {
    hide Normalized, Map;
    forall j | 0 <= j < |apps| ensures Map(Normalized, apps)[j].appId == apps[j].appId { IdsNormalized(apps, j); }
  }

  lemma NormalizedKeeps(base: seq<ApplicationSurface>, merged: seq<ApplicationSurface>)
    requires Keeps(base, merged)
    ensures Keeps(Map(Normalized, base), Map(Normalized, merged))
  {
    hide Normalized, Map, LastAt;
    var b, m := Map(Normalized, base), Map(Normalized, merged);
    forall i | 0 <= i < |merged| ensures m[i].appId == merged[i].appId && m[i] == Normalized(merged[i]) {
      IdsNormalized(merged, i);
    }
    forall i | 0 <= i < |base| ensures b[i].appId == base[i].appId && b[i] == Normalized(base[i]) {
      IdsNormalized(base, i);
    }
    forall i | 0 <= i < |base| ensures LastAt(b, i) <==> LastAt(base, i) { LastAtNormalized(base, i); }
  }

  lemma NormalizedKeepsId(a: ApplicationSurface)
    ensures Normalized(a).appId == a.appId
  {
  }

  /** Registry.Apply: the result for some order in which it may handle the snapshots. */
  method Apply(m: Store, base: seq<ApplicationSurface>, now: int) returns (out: seq<ApplicationSurface>)
    requires Inv(m)
    ensures exists order :: IsOrder(order, m) && IsResult(out, base, order, now)
  {
    hide *;
    var snaps := ListValues(m);
    SortedListing(snaps, m);
    snaps := Sort(SnapLeq, snaps);
    var index := BuildIndex(snaps, now);
    var byApp := LocateBase(base);
    out := base;
    StartApply(base, index, now);
    for i := 0 to |snaps|
      invariant Located(byApp, out) && Keeps(base, out) && Merged(base, out, snaps[..i], index, now)
    {
      var s := snaps[i];
      ghost var before := out;
      var target := s.appId;
      if Fresh(s, now) {
        target := FindTarget(s, index);
        out, byApp := MergeNext(out, byApp, s, target);
        TouchesKeeps(base, before, out, target);
      }
      MergedNext(base, before, out, snaps[..i], s, index, now, target);
      assert snaps[..i + 1] == snaps[..i] + [s];
    }
    assert snaps[..|snaps|] == snaps;
    FinishApply(base, out, snaps, now);
    out := NormalizeEach(out);
  }

  lemma StartApply(base: seq<ApplicationSurface>, index: Index, now: int)
    ensures Merged(base, base, [], index, now) && Keeps(base, base)
  {
    hide Lookup;
  }

  method FindTarget(s: Snap, index: Index) returns (target: string)
    ensures target == TargetApp(s, index)
  {
    target := s.appId;
    if s.kind != Native {
      var app, ok := Resolve(s, index);
      if ok {
        TargetIsUnique(s, index, app);
        target := app;
      }
    }
  }

  /** With distinct base ids the result has distinct ids. */
  lemma ResultIsDistinct(out: seq<ApplicationSurface>, base: seq<ApplicationSurface>, order: seq<Snap>, now: int)
    requires IsResult(out, base, order, now) && DistinctApps(base)
    ensures DistinctApps(out)
  {
    hide Normalized, Lookup;
    var b := Map(Normalized, base);
    forall i, j | 0 <= i < j < |out| ensures out[i].appId != out[j].appId {
      if j < |base| {
        NormalizedKeepsId(base[i]);
        NormalizedKeepsId(base[j]);
        assert out[i].appId == b[i].appId && out[j].appId == b[j].appId;
      }
    }
  }
}
