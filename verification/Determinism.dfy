/** When exactly aggregation is deterministic (internal/providers/registry.go): Registry.Apply lists a map
    in any order and sorts it with a comparison that ties, so several orders of the snapshots are possible. */
module Determinism {
  import Text
  import opened Sorting
  import opened Wrappers
  import opened Surface
  import opened Registry
  import opened Identity
  import opened Merging
  import opened Aggregation

  predicate Tied(s: Snap, t: Snap) {
    SnapLeq(s, t) && SnapLeq(t, s)
  }

  /** The snapshot is merged into `app`. */
  ghost predicate Targets(s: Snap, index: Index, now: int, app: string) {
    Fresh(s, now) && TargetApp(s, index) == app
  }

  /** The application is in the base, or some snapshot no later than `s` may create it; otherwise `s` is
      dropped in every possible order. */
  ghost predicate Present(s: Snap, order: seq<Snap>, base: seq<ApplicationSurface>, index: Index, now: int, app: string)
  {
    Lookup(base, app).Some? || exists y :: y in order && Targets(y, index, now, app) && y.allowOrphan && SnapLeq(y, s)
  }

  /** Two different snapshots of equal rank that count for one application. */
  ghost predicate Clash(s: Snap, t: Snap, order: seq<Snap>, base: seq<ApplicationSurface>, index: Index, now: int,
                        app: string)
  {
    && s in order && t in order && s != t && Tied(s, t)
    && Targets(s, index, now, app) && Targets(t, index, now, app) && Present(s, order, base, index, now, app)
  }

  ghost predicate HarmlessTies(order: seq<Snap>, base: seq<ApplicationSurface>, now: int) {
    forall s, t, app :: !Clash(s, t, order, base, IndexOf(order, now), now, app)
  }

  // ----- Without a clash there is one result -----

  ghost function Counts(order: seq<Snap>, base: seq<ApplicationSurface>, index: Index, now: int,
                        app: string): Snap -> bool
  {
    (s: Snap) => Targets(s, index, now, app) && Present(s, order, base, index, now, app)
  }

  /** What is proved of the first `k` snapshots: those that are dropped change nothing, and there is a
      surface only if the base has one or some target may create it. */
  ghost predicate DropsAreIdle(
    order: seq<Snap>, base: seq<ApplicationSurface>, index: Index, now: int, app: string, k: nat)
    requires k <= |order|
  {
    && AbsorbAll(Lookup(base, app), Filter(Relevant(index, now, app), order[..k]), app) ==
       AbsorbAll(Lookup(base, app), Filter(Counts(order, base, index, now, app), order[..k]), app)
    && (AbsorbAll(Lookup(base, app), Filter(Relevant(index, now, app), order[..k]), app).Some? ==>
          Lookup(base, app).Some? || exists y :: y in order[..k] && Targets(y, index, now, app) && y.allowOrphan)
  }

  lemma AbsorbOne(a: Option<ApplicationSurface>, list: seq<Snap>, x: Snap, app: string)
    ensures AbsorbAll(a, list + [x], app) == Absorb(AbsorbAll(a, list, app), x, app)
  {
    assert (list + [x])[..|list|] == list;
  }

  lemma DropStep(order: seq<Snap>, base: seq<ApplicationSurface>, index: Index, now: int, app: string, k: nat)
    requires Sorted(SnapLeq, order) && 0 < k <= |order| && DropsAreIdle(order, base, index, now, app, k - 1)
    ensures DropsAreIdle(order, base, index, now, app, k)
  {
    hide AbsorbAll, Filter, TargetApp, Fresh, SnapLeq, Lookup, Merge, NewApp;
    var rel, counts, x, a := Relevant(index, now, app), Counts(order, base, index, now, app), order[k - 1],
      Lookup(base, app);
    var was := Filter(rel, order[..k - 1]);
    FilterNext(rel, order, k - 1);
    FilterNext(counts, order, k - 1);
    AbsorbOne(a, was, x, app);
    AbsorbOne(a, Filter(counts, order[..k - 1]), x, app);
    assert was + [] == was && Filter(counts, order[..k - 1]) + [] == Filter(counts, order[..k - 1]);
    assert x in order[..k] && forall y :: y in order[..k - 1] ==> y in order[..k];
    if rel(x) && !counts(x) {
      assert x in order;
      ReflexiveSnap(x);
      assert !x.allowOrphan;
      forall y | y in order[..k - 1] && Targets(y, index, now, app) ensures !y.allowOrphan {
        var i :| 0 <= i < k - 1 && order[i] == y;
        assert SnapLeq(order[i], order[k - 1]) && y in order;
      }
    }
  }

  lemma NothingDropped(order: seq<Snap>, base: seq<ApplicationSurface>, index: Index, now: int, app: string)
    ensures DropsAreIdle(order, base, index, now, app, 0)
  {
  }

  /** A snapshot that finds no application and may not create one is dropped. */
  lemma {:induction false} DroppedDoNotCount(
    order: seq<Snap>, base: seq<ApplicationSurface>, index: Index, now: int, app: string, k: nat)
    requires Sorted(SnapLeq, order) && k <= |order|
    ensures DropsAreIdle(order, base, index, now, app, k)
  {
    hide DropsAreIdle, Sorted;
    if k == 0 {
      NothingDropped(order, base, index, now, app);
    } else {
      DroppedDoNotCount(order, base, index, now, app, k - 1);
      DropStep(order, base, index, now, app, k);
    }
  }

  lemma ReflexiveSnap(x: Snap)
    ensures SnapLeq(x, x)
  {
    SnapOrder(x, x, x);
  }

  lemma PresentAgrees(a: seq<Snap>, b: seq<Snap>, base: seq<ApplicationSurface>, index: Index, now: int, app: string,
                      s: Snap)
    requires forall x :: x in a <==> x in b
    ensures Present(s, a, base, index, now, app) <==> Present(s, b, base, index, now, app)
  {
  }

  lemma {:induction false} FilterAgrees(f: Snap -> bool, g: Snap -> bool, s: seq<Snap>)
    requires forall x :: f(x) == g(x)
    ensures Filter(f, s) == Filter(g, s)
  {
    if s != [] { FilterAgrees(f, g, s[1..]); }
  }

  lemma CountedAreTieFree(order: seq<Snap>, base: seq<ApplicationSurface>, now: int, app: string)
    requires HarmlessTies(order, base, now)
    ensures TieFreeOn(SnapLeq, Filter(Counts(order, base, IndexOf(order, now), now, app), order))
  {
    hide SnapLeq, IndexOf, TargetApp, Fresh;
    var l := Filter(Counts(order, base, IndexOf(order, now), now, app), order);
    forall x, y | x in l && y in l && SnapLeq(x, y) && SnapLeq(y, x) ensures x == y {
      assert !Clash(x, y, order, base, IndexOf(order, now), now, app);
    }
  }

  /** What counts for an application comes in one order. */
  lemma CountedAgree(a: seq<Snap>, b: seq<Snap>, base: seq<ApplicationSurface>, now: int, app: string)
    requires multiset(a) == multiset(b) && Sorted(SnapLeq, a) && Sorted(SnapLeq, b)
    requires HarmlessTies(a, base, now) && IndexOf(a, now) == IndexOf(b, now)
    ensures Filter(Counts(a, base, IndexOf(a, now), now, app), a) ==
            Filter(Counts(b, base, IndexOf(a, now), now, app), b)
  {
    hide SnapLeq, IndexOf, Sorted, HarmlessTies, Targets, Present, Filter;
    var index := IndexOf(a, now);
    var keep, keep' := Counts(a, base, index, now, app), Counts(b, base, index, now, app);
    MembersOfPermutation(a, b);
    forall s ensures keep(s) == keep'(s) { PresentAgrees(a, b, base, index, now, app, s); }
    FilterAgrees(keep, keep', b);
    FilterPermutation(keep, a, b);
    FilterSorted(SnapLeq, keep, a);
    FilterSorted(SnapLeq, keep, b);
    SnapsAreOrdered(Filter(keep, a));
    CountedAreTieFree(a, base, now, app);
    SortedUnique(SnapLeq, Filter(keep, a), Filter(keep, b));
  }

  lemma SurfacesAgree(a: seq<Snap>, b: seq<Snap>, base: seq<ApplicationSurface>, now: int, app: string)
    requires multiset(a) == multiset(b) && Sorted(SnapLeq, a) && Sorted(SnapLeq, b)
    requires HarmlessTies(a, base, now) && IndexOf(a, now) == IndexOf(b, now)
    ensures SurfaceOf(base, a, IndexOf(a, now), now, app) == SurfaceOf(base, b, IndexOf(a, now), now, app)
  {
    hide Sorted, HarmlessTies, IndexOf, Counts, Relevant, Filter, AbsorbAll, Lookup, SnapLeq;
    CountedAgree(a, b, base, now, app);
    DroppedDoNotCount(a, base, IndexOf(a, now), now, app, |a|);
    DroppedDoNotCount(b, base, IndexOf(a, now), now, app, |b|);
    assert a[..|a|] == a && b[..|b|] == b;
  }

  lemma SameLookups(s: seq<ApplicationSurface>, t: seq<ApplicationSurface>)
    requires DistinctApps(s) && DistinctApps(t) && forall app :: Lookup(s, app) == Lookup(t, app)
    ensures CanonicalSurfaces(s) == CanonicalSurfaces(t)
  {
    forall a ensures a in s <==> a in t {
      if a in s {
        var i :| 0 <= i < |s| && s[i] == a;
        assert LastAt(s, i);
        LookupAt(s, i);
        assert Lookup(t, a.appId) == Some(a);
      }
      if a in t {
        var i :| 0 <= i < |t| && t[i] == a;
        assert LastAt(t, i);
        LookupAt(t, i);
        assert Lookup(s, a.appId) == Some(a);
      }
    }
    hide Lookup;
    NormalizedMembers(s, t);
  }

  lemma NormalizedMembers(s: seq<ApplicationSurface>, t: seq<ApplicationSurface>)
    requires DistinctApps(s) && DistinctApps(t) && forall a :: a in s <==> a in t
    ensures CanonicalSurfaces(s) == CanonicalSurfaces(t)
  {
    AppsAreOrdered(s);
    AppsAreOrdered(t);
    SameMembersSameMultiset(s, t);
    MapPermutation(Normalized, s, t);
    var a, b := Map(Normalized, s), Map(Normalized, t);
    forall i, j | 0 <= i < j < |a| ensures a[i].appId != a[j].appId {
      NormalizedKeepsId(s[i]);
      NormalizedKeepsId(s[j]);
    }
    AppsAreOrdered(a);
    SortCanonical(AppLeq, a, b);
  }

  /** Apply followed by NewSnapshot gives one snapshot, whatever the order of the map iteration and
      however the sort breaks ties, when no two tied snapshots count for one application. */
  lemma AggregationIsDeterministic(
    m: Store, base: seq<ApplicationSurface>, now: int, order: seq<Snap>, out: seq<ApplicationSurface>,
    order': seq<Snap>, out': seq<ApplicationSurface>, previous: Snapshot, health: seq<ProviderHealth>)
    requires Inv(m) && DistinctApps(base) && HarmlessTies(order, base, now)
    requires IsOrder(order, m) && IsResult(out, base, order, now)
    requires IsOrder(order', m) && IsResult(out', base, order', now)
    ensures NewSnapshot(previous, out, health) == NewSnapshot(previous, out', health)
  {
    hide HarmlessTies, IndexOf, SurfaceOf, Inv, Sorted, Normalized, Lookup, CanonicalSurfaces, CanonicalHealth, Keeps;
    SameMembersSameMultiset(order, order');
    StoredAppsAreNamed(order, m);
    IndexOrderIndependent(order, order', now);
    forall app ensures Lookup(out, app) == Lookup(out', app) {
      SurfacesAgree(order, order', base, now, app);
    }
    ResultIsDistinct(out, base, order, now);
    ResultIsDistinct(out', base, order', now);
    SameLookups(out, out');
  }

  // ----- Every order has a result -----

  lemma MergeStep(base: seq<ApplicationSurface>, out: seq<ApplicationSurface>, s: Snap, target: string)
    returns (next: seq<ApplicationSurface>)
    requires DistinctApps(out) && Keeps(base, out)
    ensures DistinctApps(next) && Keeps(base, next)
    ensures forall app ::
              Lookup(next, app) == if app == target then Absorb(Lookup(out, app), s, app) else Lookup(out, app)
  {
    hide Lookup, Merge, NewApp;
    var was := Lookup(out, target);
    next := out;
    if was.Some? {
      var i := IndexOfApp(out, target);
      var a := Merge(out[i], s);
      MergeKeepsId(out[i], s);
      LookupAt(out, i);
      next := out[i := a];
      forall app { LookupUpdate(out, i, a, app); }
      TouchesKeeps(base, out, next, target);
    } else if s.allowOrphan {
      var a := Merge(NewApp(s, target), s);
      NewAppKeepsId(s, target);
      NotThere(out, target);
      next := out + [a];
      forall app { LookupAppend(out, a, app); }
      TouchesKeeps(base, out, next, target);
    }
  }

  lemma NotThere(out: seq<ApplicationSurface>, target: string)
    requires Lookup(out, target).None?
    ensures forall i :: 0 <= i < |out| ==> out[i].appId != target
  {
  }

  lemma IndexOfApp(out: seq<ApplicationSurface>, target: string) returns (i: nat)
    requires DistinctApps(out) && Lookup(out, target).Some?
    ensures LastAt(out, i) && out[i].appId == target
  {
    var a := Lookup(out, target).value;
    i :| 0 <= i < |out| && out[i] == a;
  }

  lemma {:induction false} MergeInOrder(base: seq<ApplicationSurface>, order: seq<Snap>, index: Index, now: int)
    returns (out: seq<ApplicationSurface>)
    requires DistinctApps(base)
    ensures DistinctApps(out) && Keeps(base, out) && Merged(base, out, order, index, now)
  {
    hide Keeps, Merged, DistinctApps, Absorb, Lookup;
    if order == [] {
      StartApply(base, index, now);
      out := base;
    } else {
      var init, s := order[..|order| - 1], order[|order| - 1];
      var before := MergeInOrder(base, init, index, now);
      var target := TargetApp(s, index);
      out := before;
      if Fresh(s, now) { out := MergeStep(base, before, s, target); }
      MergedNext(base, before, out, init, s, index, now, target);
      assert order == init + [s];
    }
  }

  lemma ResultExists(base: seq<ApplicationSurface>, order: seq<Snap>, now: int) returns (out: seq<ApplicationSurface>)
    requires DistinctApps(base)
    ensures IsResult(out, base, order, now)
  {
    hide *;
    var merged := MergeInOrder(base, order, IndexOf(order, now), now);
    FinishApply(base, merged, order, now);
    out := Map(Normalized, merged);
  }

  // ----- A clash gives different results for some reported statuses -----

  const SILENT: StatusPatch := StatusPatch(None, None, None, None, None, None, None, None, None, None)

  /** The same snapshot with another status: only the summary given for it, if any. */
  function Restated(s: Snap, summary: Option<string>): Snap {
    s.(status := SILENT.(summary := summary))
  }

  /** Snapshots that differ in nothing but the status they report. */
  predicate SameButStatus(s: Snap, t: Snap) {
    s.(status := SILENT) == t.(status := SILENT)
  }

  ghost predicate SameStores(m: Store, m': Store) {
    m.Keys == m'.Keys && forall k :: k in m ==> SameButStatus(m[k], m'[k])
  }

  /** `s` says "s", `t` says "t", and all others say nothing. */
  function Say(s: Snap, t: Snap): Snap -> Snap {
    (x: Snap) => Restated(x, if x == s then Some("s") else if x == t then Some("t") else None)
  }

  lemma TargetIgnoresStatus(x: Snap, y: Snap, index: Index)
    requires SameButStatus(x, y)
    ensures TargetApp(x, index) == TargetApp(y, index)
  {
    hide IdentityKeys;
    assert SnapKeys(x) == SnapKeys(y);
    assert Candidates(x, index) == Candidates(y, index);
    if x.kind != Native && exists a :: ResolvesTo(x, index, a) {
      var a :| ResolvesTo(x, index, a);
      assert ResolvesTo(y, index, a);
      TargetIsUnique(x, index, a);
      TargetIsUnique(y, index, a);
    } else {
      forall a ensures ResolvesTo(x, index, a) <==> ResolvesTo(y, index, a) { }
    }
  }

  lemma {:induction false} IndexIgnoresStatus(a: seq<Snap>, b: seq<Snap>, now: int)
    requires |a| == |b| && forall i :: 0 <= i < |a| ==> SameButStatus(a[i], b[i])
    ensures IndexOf(a, now) == IndexOf(b, now)
  {
    hide IdentityKeys, AddKeys;
    if a != [] {
      var n := |a| - 1;
      IndexIgnoresStatus(a[..n], b[..n], now);
      assert SnapKeys(a[n]) == SnapKeys(b[n]);
    }
  }

  // The order with the two clashing snapshots last among those of their rank.

  function UpTo(s: Snap, t: Snap): Snap -> bool {
    (x: Snap) => x != s && x != t && SnapLeq(x, s)
  }

  function Beyond(s: Snap): Snap -> bool {
    (x: Snap) => !SnapLeq(x, s)
  }

  /** `order` with `s` and then `t` last among the snapshots of their rank. */
  function Rearranged(order: seq<Snap>, s: Snap, t: Snap): seq<Snap> {
    Filter(UpTo(s, t), order) + [s, t] + Filter(Beyond(s), order)
  }

  lemma {:induction false} FilterNoDup(keep: Snap -> bool, s: seq<Snap>)
    requires NoDup(s)
    ensures NoDup(Filter(keep, s))
  {
    if s != [] {
      FilterNoDup(keep, s[1..]);
      assert s[0] !in s[1..];
    }
  }

  lemma RearrangedMembers(order: seq<Snap>, s: Snap, t: Snap)
    requires NoDup(order) && s in order && t in order && s != t && Tied(s, t)
    ensures NoDup(Rearranged(order, s, t)) && forall x :: x in Rearranged(order, s, t) <==> x in order
  {
    hide SnapLeq, Filter;
    ReflexiveSnap(s);
    FilterNoDup(UpTo(s, t), order);
    FilterNoDup(Beyond(s), order);
    var a, b, r := Filter(UpTo(s, t), order), Filter(Beyond(s), order), Rearranged(order, s, t);
    assert s !in a && t !in a && s !in b && t !in b;
    forall i, j | 0 <= i < j < |r| ensures r[i] != r[j] {
      assert r[i] == if i < |a| then a[i] else if i == |a| then s else if i == |a| + 1 then t else b[i - |a| - 2];
      assert r[j] == if j < |a| then a[j] else if j == |a| then s else if j == |a| + 1 then t else b[j - |a| - 2];
      assert i < |a| ==> a[i] in a;
      assert j < |a| ==> a[j] in a;
      assert i > |a| + 1 ==> b[i - |a| - 2] in b;
      assert j > |a| + 1 ==> b[j - |a| - 2] in b;
    }
  }

  lemma RearrangedSorted(order: seq<Snap>, s: Snap, t: Snap)
    requires Sorted(SnapLeq, order) && Tied(s, t)
    ensures Sorted(SnapLeq, Rearranged(order, s, t))
  {
    hide SnapLeq, Filter;
    FilterSorted(SnapLeq, UpTo(s, t), order);
    FilterSorted(SnapLeq, Beyond(s), order);
    var a, b, r := Filter(UpTo(s, t), order), Filter(Beyond(s), order), Rearranged(order, s, t);
    forall i, j | 0 <= i < j < |r| ensures SnapLeq(r[i], r[j]) {
      assert r[i] == if i < |a| then a[i] else if i == |a| then s else if i == |a| + 1 then t else b[i - |a| - 2];
      assert r[j] == if j < |a| then a[j] else if j == |a| then s else if j == |a| + 1 then t else b[j - |a| - 2];
      assert i < |a| ==> a[i] in a;
      assert j < |a| ==> a[j] in a;
      assert i > |a| + 1 ==> b[i - |a| - 2] in b;
      assert j > |a| + 1 ==> b[j - |a| - 2] in b;
      SnapOrder(r[i], s, r[j]);
      SnapOrder(r[i], s, t);
      SnapOrder(r[i], t, r[j]);
      SnapOrder(s, r[j], r[j]);
      SnapOrder(t, s, r[j]);
    }
  }

  // ----- The summary that the surface ends up with -----

  lemma {:induction false} AbsorbAppend(a: Option<ApplicationSurface>, l: seq<Snap>, k: seq<Snap>, app: string)
    ensures AbsorbAll(a, l + k, app) == AbsorbAll(AbsorbAll(a, l, app), k, app)
  {
    hide Absorb;
    if k == [] {
      assert l + k == l;
    } else {
      var n := |k| - 1;
      AbsorbAppend(a, l, k[..n], app);
      assert (l + k)[..|l + k| - 1] == l + k[..n];
    }
  }

  ghost predicate Silent(l: seq<Snap>) {
    forall x :: x in l ==> x.status.summary == None
  }

  lemma {:induction false} SilentKeepSummary(a: ApplicationSurface, l: seq<Snap>, app: string)
    requires Silent(l)
    ensures AbsorbAll(Some(a), l, app).Some? && AbsorbAll(Some(a), l, app).value.status.summary == a.status.summary
  {
    if l != [] {
      var n := |l| - 1;
      SilentKeepSummary(a, l[..n], app);
      assert l[n] in l;
    }
  }

  lemma {:induction false} CreatorMakes(a: Option<ApplicationSurface>, l: seq<Snap>, app: string)
    requires a.Some? || exists y :: y in l && y.allowOrphan
    ensures AbsorbAll(a, l, app).Some?
  {
    if l != [] {
      var n := |l| - 1;
      assert forall y :: y in l ==> y in l[..n] || y == l[n];
      if a.Some? || exists y :: y in l[..n] && y.allowOrphan { CreatorMakes(a, l[..n], app); }
    }
  }

  /** Of two snapshots that report a summary, the later one decides. */
  lemma LaterSummaryWins(a: Option<ApplicationSurface>, s: Snap, t: Snap, rest: seq<Snap>, app: string)
    requires a.Some? || s.allowOrphan || t.allowOrphan
    requires t.status.summary.Some? && Silent(rest)
    ensures
      var r := AbsorbAll(a, [s, t] + rest, app);
      r.Some? && r.value.status.summary == t.status.summary.value
  {
    AbsorbAppend(a, [s, t], rest, app);
    assert [s, t][..1] == [s] && [s][..0] == [];
    var both := AbsorbAll(a, [s, t], app);
    assert both == Absorb(Absorb(a, s, app), t, app) by {
      assert AbsorbAll(a, [s], app) == Absorb(AbsorbAll(a, [], app), s, app);
    }
    SilentKeepSummary(both.value, rest, app);
  }

  lemma {:induction false} FilterMap(keep: Snap -> bool, keep': Snap -> bool, f: Snap -> Snap, l: seq<Snap>)
    requires forall x :: keep'(f(x)) == keep(x)
    ensures Filter(keep', Map(f, l)) == Map(f, Filter(keep, l))
  {
    if l != [] {
      FilterMap(keep, keep', f, l[1..]);
      assert Map(f, l)[1..] == Map(f, l[1..]);
    }
  }

  lemma MapAppend(f: Snap -> Snap, a: seq<Snap>, b: seq<Snap>)
    ensures Map(f, a + b) == Map(f, a) + Map(f, b)
  {
  }

  lemma RelevantIgnoresSay(s: Snap, t: Snap, index: Index, now: int, app: string)
    ensures forall x :: Relevant(index, now, app)(Say(s, t)(x)) == Relevant(index, now, app)(x)
  {
    hide TargetApp;
    forall x ensures Relevant(index, now, app)(Say(s, t)(x)) == Relevant(index, now, app)(x) {
      TargetIgnoresStatus(Say(s, t)(x), x, index);
    }
  }

  lemma FilterThree(keep: Snap -> bool, before: seq<Snap>, u: Snap, v: Snap, after: seq<Snap>)
    requires keep(u) && keep(v)
    ensures Filter(keep, before + [u, v] + after) == Filter(keep, before) + ([u, v] + Filter(keep, after))
  {
    hide Filter;
    FilterAppend(keep, before + [u, v], after);
    FilterAppend(keep, before, [u, v]);
    BothKept(keep, u, v);
  }

  lemma MapThree(f: Snap -> Snap, l: seq<Snap>, u: Snap, v: Snap, k: seq<Snap>)
    ensures Map(f, l + ([u, v] + k)) == Map(f, l) + ([f(u), f(v)] + Map(f, k))
  {
    hide Map;
    MapAppend(f, l, [u, v] + k);
    MapAppend(f, [u, v], k);
    MapPair(f, u, v);
  }

  /** What is merged into `app` along the rearranged order, in three parts. */
  lemma MergedParts(order: seq<Snap>, index: Index, now: int, app: string, s: Snap, t: Snap, u: Snap, v: Snap)
    requires Targets(u, index, now, app) && Targets(v, index, now, app)
    ensures
      var f, rel := Say(s, t), Relevant(index, now, app);
      Filter(rel, Map(f, Rearranged(order, u, v))) ==
      Map(f, Filter(rel, Filter(UpTo(u, v), order))) + ([f(u), f(v)] + Map(f, Filter(rel, Filter(Beyond(u), order))))
  {
    hide SnapLeq, TargetApp, Fresh, Filter, Map, Say;
    var f, rel := Say(s, t), Relevant(index, now, app);
    var before, after := Filter(UpTo(u, v), order), Filter(Beyond(u), order);
    RelevantIgnoresSay(s, t, index, now, app);
    FilterMap(rel, rel, f, before + [u, v] + after);
    FilterThree(rel, before, u, v, after);
    MapThree(f, Filter(rel, before), u, v, Filter(rel, after));
  }

  lemma NotBeyond(order: seq<Snap>, keep: Snap -> bool, u: Snap, v: Snap)
    requires Tied(u, v)
    ensures u !in Filter(keep, Filter(Beyond(u), order)) && v !in Filter(keep, Filter(Beyond(u), order))
  {
    hide SnapLeq, Filter;
    ReflexiveSnap(u);
  }

  lemma MapPair(f: Snap -> Snap, u: Snap, v: Snap)
    ensures Map(f, [u, v]) == [f(u), f(v)]
  {
  }

  /** When the two come, the application is there, or one of them creates it. */
  lemma ThereOrCreated(order: seq<Snap>, base: seq<ApplicationSurface>, index: Index, now: int, app: string,
                       f: Snap -> Snap,
                       u: Snap, v: Snap)
    requires Clash(u, v, order, base, index, now, app) && forall x :: f(x).allowOrphan == x.allowOrphan
    ensures
      var l := Map(f, Filter(Relevant(index, now, app), Filter(UpTo(u, v), order)));
      AbsorbAll(Lookup(base, app), l, app).Some? || u.allowOrphan || v.allowOrphan
  {
    hide SnapLeq, TargetApp, Fresh, Lookup, AbsorbAll, Filter, Map;
    var l := Filter(Relevant(index, now, app), Filter(UpTo(u, v), order));
    if Lookup(base, app).Some? {
      CreatorMakes(Lookup(base, app), Map(f, l), app);
    } else if !u.allowOrphan && !v.allowOrphan {
      var y :| y in order && Targets(y, index, now, app) && y.allowOrphan && SnapLeq(y, u);
      assert y in l;
      var i :| 0 <= i < |l| && l[i] == y;
      assert Map(f, l)[i] in Map(f, l);
      CreatorMakes(Lookup(base, app), Map(f, l), app);
    }
  }

  /** With those statuses, and `u` and then `v` last of their rank, the surface says what `v` says. */
  lemma LastOfTheTwoIsHeard(
    order: seq<Snap>, base: seq<ApplicationSurface>, index: Index, now: int, app: string, s: Snap, t: Snap, u: Snap,
    v: Snap)
    requires Clash(u, v, order, base, index, now, app) && ((u == s && v == t) || (u == t && v == s))
    ensures
      var r := SurfaceOf(base, Map(Say(s, t), Rearranged(order, u, v)), index, now, app);
      r.Some? && r.value.status.summary == if v == t then "t" else "s"
  {
    hide SnapLeq, TargetApp, Fresh, Lookup, AbsorbAll, Filter, Map, Rearranged, Present;
    var f, rel, a0 := Say(s, t), Relevant(index, now, app), Lookup(base, app);
    var l, k := Filter(rel, Filter(UpTo(u, v), order)), Filter(rel, Filter(Beyond(u), order));
    MergedParts(order, index, now, app, s, t, u, v);
    ThereOrCreated(order, base, index, now, app, f, u, v);
    AbsorbAppend(a0, Map(f, l), [f(u), f(v)] + Map(f, k), app);
    NotBeyond(order, rel, u, v);
    OthersAreSilent(s, t, k);
    LaterSummaryWins(AbsorbAll(a0, Map(f, l), app), f(u), f(v), Map(f, k), app);
  }

  lemma BothKept(keep: Snap -> bool, u: Snap, v: Snap)
    requires keep(u) && keep(v)
    ensures Filter(keep, [u, v]) == [u, v]
  {
    assert [u, v][1..] == [v] && [v][1..] == [];
    assert Filter(keep, [v]) == [v] + Filter(keep, []);
  }

  lemma OthersAreSilent(s: Snap, t: Snap, k: seq<Snap>)
    requires s !in k && t !in k
    ensures Silent(Map(Say(s, t), k))
  {
    var l := Map(Say(s, t), k);
    forall x | x in l ensures x.status.summary == None {
      var i :| 0 <= i < |l| && l[i] == x;
      assert k[i] in k;
    }
  }

  // ----- The two stores have the same orders -----

  /** The snapshots that another store holds under the same keys. */
  function Through(m: Store, o: seq<Snap>): (r: seq<Snap>)
    requires forall x :: x in o ==> KeyOf(x) in m
    ensures |r| == |o| && forall i :: 0 <= i < |o| ==> r[i] == m[KeyOf(o[i])]
  {
    seq(|o|, i requires 0 <= i < |o| => m[KeyOf(o[i])])
  }

  lemma SameStoresKeepInv(m: Store, m': Store)
    requires Inv(m) && SameStores(m, m')
    ensures Inv(m')
  {
    forall k | k in m' ensures KeyOf(m'[k]) == k && Clean(m'[k]) {
      assert SameButStatus(m[k], m'[k]) && Clean(m[k]);
    }
  }

  lemma OrderedIsListed(o: seq<Snap>, m: Store, i: nat)
    requires Inv(m) && Lists(o, m) && i < |o|
    ensures KeyOf(o[i]) in m && m[KeyOf(o[i])] == o[i]
  {
    hide Clean;
    assert o[i] in o;
    var k :| k in m && m[k] == o[i];
  }

  lemma ThroughLists(m: Store, m': Store, o: seq<Snap>)
    requires Inv(m) && Inv(m') && m.Keys == m'.Keys && Lists(o, m)
    ensures forall x :: x in o ==> KeyOf(x) in m'
    ensures Lists(Through(m', o), m')
  {
    hide Clean;
    forall i | 0 <= i < |o| ensures KeyOf(o[i]) in m && m[KeyOf(o[i])] == o[i] { OrderedIsListed(o, m, i); }
    var r := Through(m', o);
    forall i, j | 0 <= i < j < |r| ensures r[i] != r[j] {
      assert KeyOf(r[i]) == KeyOf(o[i]) && KeyOf(r[j]) == KeyOf(o[j]);
    }
    forall x ensures x in r <==> exists k :: k in m' && m'[k] == x {
      if x in r {
        var i :| 0 <= i < |r| && r[i] == x;
        assert m'[KeyOf(o[i])] == x;
      }
      if exists k :: k in m' && m'[k] == x {
        var k :| k in m' && m'[k] == x;
        assert m[k] in o;
        var i :| 0 <= i < |o| && o[i] == m[k];
        assert r[i] == x;
      }
    }
  }

  lemma ThroughIsOrder(m: Store, m': Store, o: seq<Snap>)
    requires Inv(m) && Inv(m') && SameStores(m, m') && IsOrder(o, m)
    ensures forall x :: x in o ==> KeyOf(x) in m'
    ensures IsOrder(Through(m', o), m')
    ensures forall i :: 0 <= i < |o| ==> SameButStatus(o[i], Through(m', o)[i])
  {
    hide Inv, Lists;
    ThroughLists(m, m', o);
    forall i | 0 <= i < |o| ensures KeyOf(o[i]) in m && m[KeyOf(o[i])] == o[i] { OrderedIsListed(o, m, i); }
    var r := Through(m', o);
    forall i, j | 0 <= i < j < |r| ensures SnapLeq(r[i], r[j]) {
      assert SnapLeq(o[i], o[j]) && SameButStatus(o[i], r[i]) && SameButStatus(o[j], r[j]);
    }
  }

  lemma OneIndex(m: Store, a: seq<Snap>, b: seq<Snap>, now: int)
    requires Inv(m) && IsOrder(a, m) && IsOrder(b, m)
    ensures IndexOf(a, now) == IndexOf(b, now) && multiset(a) == multiset(b)
  {
    hide Inv, Sorted, IndexOf;
    SameMembersSameMultiset(a, b);
    StoredAppsAreNamed(a, m);
    IndexOrderIndependent(a, b, now);
  }

  // ----- The exact condition -----

  /** Every possible order of the store's snapshots leads to one semantic revision. */
  ghost predicate OneOutcome(m: Store, base: seq<ApplicationSurface>, now: int, previous: Snapshot,
                             health: seq<ProviderHealth>)
  {
    forall o, o', out, out' ::
      IsOrder(o, m) && IsOrder(o', m) && IsResult(out, base, o, now) && IsResult(out', base, o', now) ==>
        NewSnapshot(previous, out, health).revision == NewSnapshot(previous, out', health).revision
  }

  lemma ClashBySnapshots(s: Snap, t: Snap, s': Snap, t': Snap, order: seq<Snap>, o: seq<Snap>,
                         base: seq<ApplicationSurface>,
                         index: Index, now: int, app: string)
    requires Clash(s', t', o, base, index, now, app) && s in order && t in order && s != t
    requires SameButStatus(s, s') && SameButStatus(t, t')
    requires forall y' :: y' in o ==> exists y :: y in order && SameButStatus(y, y')
    ensures Clash(s, t, order, base, index, now, app)
  {
    hide TargetApp, Lookup;
    TargetIgnoresStatus(s, s', index);
    TargetIgnoresStatus(t, t', index);
    if Lookup(base, app).None? {
      var y' :| y' in o && Targets(y', index, now, app) && y'.allowOrphan && SnapLeq(y', s');
      var y :| y in order && SameButStatus(y, y');
      TargetIgnoresStatus(y, y', index);
      assert Targets(y, index, now, app) && y.allowOrphan && SnapLeq(y, s);
    }
  }

  lemma HarmlessThrough(m: Store, m': Store, order: seq<Snap>, o: seq<Snap>, base: seq<ApplicationSurface>, now: int)
    requires Inv(m) && Inv(m') && SameStores(m, m') && IsOrder(order, m) && IsOrder(o, m') &&
             HarmlessTies(order, base, now)
    ensures HarmlessTies(o, base, now)
  {
    hide Clash, Inv, SnapLeq, IndexOf, Lists;
    ThroughIsOrder(m', m, o);
    var o0 := Through(m, o);
    OneIndex(m, order, o0, now);
    MembersOfPermutation(order, o0);
    IndexIgnoresStatus(o0, o, now);
    forall s', t', app ensures !Clash(s', t', o, base, IndexOf(o, now), now, app) {
      if Clash(s', t', o, base, IndexOf(o, now), now, app) { ClashThrough(m, m', order, o, base, now, s', t', app); }
    }
  }

  lemma ClashThrough(m: Store, m': Store, order: seq<Snap>, o: seq<Snap>, base: seq<ApplicationSurface>, now: int,
                     s': Snap, t': Snap, app: string)
    requires Inv(m) && Inv(m') && SameStores(m, m') && IsOrder(order, m) && IsOrder(o, m')
    requires IndexOf(o, now) == IndexOf(order, now) && Clash(s', t', o, base, IndexOf(o, now), now, app)
    ensures !HarmlessTies(order, base, now)
  {
    hide TargetApp, SnapLeq, IndexOf, Present, Targets, Clean, Sorted;
    var i :| 0 <= i < |o| && o[i] == s';
    var j :| 0 <= j < |o| && o[j] == t';
    OrderedIsListed(o, m', i);
    OrderedIsListed(o, m', j);
    var s, t := m[KeyOf(s')], m[KeyOf(t')];
    assert s != t;
    forall y' | y' in o ensures exists y :: y in order && SameButStatus(y, y') {
      var l :| 0 <= l < |o| && o[l] == y';
      OrderedIsListed(o, m', l);
      assert m[KeyOf(y')] in order;
    }
    ClashBySnapshots(s, t, s', t', order, o, base, IndexOf(order, now), now, app);
  }

  /** The store in which `s` says "s", `t` says "t", and all others say nothing. */
  function Told(m: Store, s: Snap, t: Snap): Store {
    map k | k in m :: Say(s, t)(m[k])
  }

  lemma ToldIsThrough(m: Store, s: Snap, t: Snap, o: seq<Snap>)
    requires Inv(m) && Lists(o, m)
    ensures forall x :: x in o ==> KeyOf(x) in m
    ensures Through(Told(m, s, t), o) == Map(Say(s, t), o)
  {
    hide Clean, Lists, Inv;
    forall i | 0 <= i < |o| ensures KeyOf(o[i]) in m && m[KeyOf(o[i])] == o[i] { OrderedIsListed(o, m, i); }
  }

  lemma RearrangedIsOrder(m: Store, order: seq<Snap>, u: Snap, v: Snap)
    requires IsOrder(order, m) && u in order && v in order && u != v && Tied(u, v)
    ensures IsOrder(Rearranged(order, u, v), m)
  {
    hide SnapLeq, Rearranged;
    RearrangedMembers(order, u, v);
    RearrangedSorted(order, u, v);
  }

  lemma ToldOrder(m: Store, order: seq<Snap>, s: Snap, t: Snap, u: Snap, v: Snap)
    requires Inv(m) && IsOrder(order, m) && u in order && v in order && u != v && Tied(u, v)
    ensures SameStores(m, Told(m, s, t))
    ensures IsOrder(Map(Say(s, t), Rearranged(order, u, v)), Told(m, s, t))
  {
    hide SnapLeq, Clean, Rearranged, Inv, Lists, Sorted, Through, Map;
    var m', o := Told(m, s, t), Rearranged(order, u, v);
    RearrangedIsOrder(m, order, u, v);
    SameStoresKeepInv(m, m');
    ThroughIsOrder(m, m', o);
    ToldIsThrough(m, s, t, o);
  }

  lemma ToldIndex(m: Store, order: seq<Snap>, s: Snap, t: Snap, u: Snap, v: Snap, now: int)
    requires Inv(m) && IsOrder(order, m) && u in order && v in order && u != v && Tied(u, v)
    ensures IndexOf(Map(Say(s, t), Rearranged(order, u, v)), now) == IndexOf(order, now)
  {
    hide SnapLeq, Filter, IndexOf, Inv;
    var o := Rearranged(order, u, v);
    RearrangedMembers(order, u, v);
    RearrangedSorted(order, u, v);
    OneIndex(m, order, o, now);
    IndexIgnoresStatus(o, Map(Say(s, t), o), now);
  }

  /** With `v` last of its rank, there is a result in which the application says what `v` says. */
  lemma ToldResult(m: Store, order: seq<Snap>, base: seq<ApplicationSurface>, now: int, app: string, s: Snap, t: Snap,
                   u: Snap, v: Snap)
    returns (o: seq<Snap>, out: seq<ApplicationSurface>)
    requires Inv(m) && IsOrder(order, m) && DistinctApps(base)
    requires Clash(u, v, order, base, IndexOf(order, now), now, app) && ((u == s && v == t) || (u == t && v == s))
    ensures IsOrder(o, Told(m, s, t)) && IsResult(out, base, o, now) && DistinctApps(out)
    ensures Lookup(out, app).Some? && Lookup(out, app).value.status.summary == if v == t then "t" else "s"
  {
    hide SnapLeq, IndexOf, Inv, Told, Lookup, Keeps, SurfaceOf, Map, Rearranged, Present, Targets, DistinctApps,
         Normalized, IsOrder;
    o := Map(Say(s, t), Rearranged(order, u, v));
    InOrder(u, v, order, base, IndexOf(order, now), now, app);
    ToldOrder(m, order, s, t, u, v);
    ToldIndex(m, order, s, t, u, v, now);
    LastOfTheTwoIsHeard(order, base, IndexOf(order, now), now, app, s, t, u, v);
    out := ResultExists(base, o, now);
    ResultIsDistinct(out, base, o, now);
    NormalizedKeepsStatus(SurfaceOf(base, o, IndexOf(order, now), now, app).value);
  }

  lemma InOrder(u: Snap, v: Snap, order: seq<Snap>, base: seq<ApplicationSurface>, index: Index, now: int, app: string)
    requires Clash(u, v, order, base, index, now, app)
    ensures u in order && v in order && u != v && Tied(u, v)
  {
  }

  lemma NormalizedKeepsStatus(a: ApplicationSurface)
    ensures Normalized(a).status == a.status
  {
  }

  lemma OtherSummaryOtherRevision(
    a: seq<ApplicationSurface>, b: seq<ApplicationSurface>, app: string, previous: Snapshot,
    health: seq<ProviderHealth>)
    requires DistinctApps(a) && DistinctApps(b) && Lookup(a, app).Some? && Lookup(b, app).Some?
    requires Lookup(a, app).value.status.summary != Lookup(b, app).value.status.summary
    ensures NewSnapshot(previous, a, health).revision != NewSnapshot(previous, b, health).revision
  {
    hide Sort, CanonicalSurfaces, CanonicalHealth, Normalized, Lookup, AppLeq, Map, Core;
    if NewSnapshot(previous, a, health).revision == NewSnapshot(previous, b, health).revision {
      var i := IndexOfApp(a, app);
      LookupAt(a, i);
      var j := CoreIsShared(a, b, i);
      CoreKeeps(a[i]);
      CoreKeeps(b[j]);
    }
  }

  lemma CoreKeeps(a: ApplicationSurface)
    ensures Core(a).appId == a.appId && Core(a).status.summary == a.status.summary
  {
  }

  lemma ClashIsSymmetric(s: Snap, t: Snap, order: seq<Snap>, base: seq<ApplicationSurface>, index: Index, now: int,
                         app: string)
    requires Clash(s, t, order, base, index, now, app)
    ensures Clash(t, s, order, base, index, now, app)
  {
    hide TargetApp, Fresh, Lookup, SnapLeq;
    if Lookup(base, app).None? {
      var y :| y in order && Targets(y, index, now, app) && y.allowOrphan && SnapLeq(y, s);
      SnapOrder(y, s, t);
    }
  }

  lemma ClashBreaksOutcome(m: Store, base: seq<ApplicationSurface>, now: int, order: seq<Snap>, s: Snap, t: Snap,
                           app: string,
                           previous: Snapshot, health: seq<ProviderHealth>)
    requires Inv(m) && IsOrder(order, m) && DistinctApps(base) &&
             Clash(s, t, order, base, IndexOf(order, now), now, app)
    ensures !OneOutcome(Told(m, s, t), base, now, previous, health)
  {
    hide Inv, IsOrder, IsResult, Told, Lookup, DistinctApps, Clash, IndexOf, NewSnapshot;
    ClashIsSymmetric(s, t, order, base, IndexOf(order, now), now, app);
    var o, out := ToldResult(m, order, base, now, app, s, t, s, t);
    var o', out' := ToldResult(m, order, base, now, app, s, t, t, s);
    ClashDiffers(s, t, order, base, IndexOf(order, now), now, app);
    OtherSummaryOtherRevision(out, out', app, previous, health);
  }

  lemma ClashDiffers(s: Snap, t: Snap, order: seq<Snap>, base: seq<ApplicationSurface>, index: Index, now: int,
                     app: string)
    requires Clash(s, t, order, base, index, now, app)
    ensures s != t
  {
  }

  /** For given snapshots but for the statuses they report: Apply and then NewSnapshot give one revision for
      every map order and every breaking of ties, whatever the statuses, exactly when no two different
      snapshots of equal rank count for one application. */
  lemma DeterministicExactly(m: Store, base: seq<ApplicationSurface>, now: int, order: seq<Snap>,
                             previous: Snapshot, health: seq<ProviderHealth>)
    requires Inv(m) && DistinctApps(base) && IsOrder(order, m)
    ensures HarmlessTies(order, base, now) <==>
            forall m' :: SameStores(m, m') ==> OneOutcome(m', base, now, previous, health)
  {
    hide Inv, IsOrder, IsResult, DistinctApps, Clash, IndexOf, NewSnapshot, Told, SameStores;
    if HarmlessTies(order, base, now) {
      forall m' | SameStores(m, m') ensures OneOutcome(m', base, now, previous, health) {
        SameStoresKeepInv(m, m');
        forall o, o', out, out' | IsOrder(o, m') && IsOrder(o', m') && IsResult(out, base, o, now) &&
          IsResult(out', base, o', now)
          ensures NewSnapshot(previous, out, health).revision == NewSnapshot(previous, out', health).revision
        {
          HarmlessThrough(m, m', order, o, base, now);
          AggregationIsDeterministic(m', base, now, o, out, o', out', previous, health);
        }
      }
    } else {
      var s, t, app :| Clash(s, t, order, base, IndexOf(order, now), now, app);
      InOrder(s, t, order, base, IndexOf(order, now), now, app);
      ToldOrder(m, order, s, t, s, t);
      ClashBreaksOutcome(m, base, now, order, s, t, app, previous, health);
    }
  }

  // ----- A store with a clash -----

  function Report(provider: string, kind: SourceKind, app: string, hints: seq<string>): Snap {
    Snap(provider, kind, app, hints, 1, 5 * SECOND, 0, 1, kind == Native, "", "", "", [], SILENT, [], CONFIDENCE_MEDIUM)
  }

  /** The window system knows application "n"; a provider reports for "n" and, with "n" as a hint, for "m". */
  function Known(): Snap { Report("w", Native, "n", []) }

  function Direct(): Snap { Report("p", Extension, "n", []) }

  function Hinted(): Snap { Report("p", Extension, "m", ["n"]) }

  function Example(): Store {
    map[KeyOf(Known()) := Known(), KeyOf(Direct()) := Direct(), KeyOf(Hinted()) := Hinted()]
  }

  function ExampleOrder(): seq<Snap> {
    [Known(), Direct(), Hinted()]
  }

  lemma OneLetter(c: char)
    requires 'a' <= c <= 'z'
    ensures Text.TrimSpace([c]) == [c] && Lower([c]) == [c]
  {
    assert !Text.IsSpace(c);
    assert Lower([c])[0] == c;
  }

  lemma OneLetterKeys(c: char)
    requires 'a' <= c <= 'z'
    ensures IdentityKeys([c]) == {"exact:" + [c], "stem:" + [c]}
  {
    OneLetter(c);
    hide Text.TrimSpace, Lower;
    assert [c][0..] == [c] && [c] != "/" && [c][..0] == [];
    assert TrimPrefix([c], "application://") == [c];
    assert TrimSuffix([c], "/") == [c] && TrimSuffix([c], ".desktop") == [c];
    assert AfterLastSlash([]) + [c] == [c];
    assert AfterLastSlash([c]) == [c];
  }

  lemma NoKeys()
    ensures IdentityKeys("") == {}
  {
    assert Text.TrimSpace("") == "" && Lower("") == "";
    assert TrimPrefix("", "application://") == "" && TrimSuffix("", "/") == "";
  }

  lemma SnapKeysAre(s: Snap, k: string)
    requires |s.hints| <= 1
    ensures k in SnapKeys(s) <==>
              k in IdentityKeys(s.appId) || k in IdentityKeys(s.desktopAppId) ||
              (s.hints != [] && k in IdentityKeys(s.hints[0]))
  {
    hide IdentityKeys;
    var values := [s.appId, s.desktopAppId] + s.hints;
    assert values[0] == s.appId && values[1] == s.desktopAppId && (s.hints != [] ==> values[2] == s.hints[0]);
    assert forall v :: v in values ==> v == s.appId || v == s.desktopAppId || (s.hints != [] && v == s.hints[0]);
    assert s.appId in values && s.desktopAppId in values && (s.hints != [] ==> s.hints[0] in values);
  }

  lemma ExampleKeys()
    ensures SnapKeys(Known()) == {"exact:n", "stem:n"} == SnapKeys(Direct())
    ensures SnapKeys(Hinted()) == {"exact:m", "stem:m", "exact:n", "stem:n"}
  {
    hide IdentityKeys, SnapKeys;
    OneLetterKeys('n');
    OneLetterKeys('m');
    NoKeys();
    assert "exact:" + ['n'] == "exact:n" && "stem:" + ['n'] == "stem:n";
    assert "exact:" + ['m'] == "exact:m" && "stem:" + ['m'] == "stem:m";
    forall k ensures k in SnapKeys(Known()) <==> k == "exact:n" || k == "stem:n" { SnapKeysAre(Known(), k); }
    forall k ensures k in SnapKeys(Direct()) <==> k == "exact:n" || k == "stem:n" { SnapKeysAre(Direct(), k); }
    forall k ensures k in SnapKeys(Hinted()) <==> k == "exact:m" || k == "stem:m" || k == "exact:n" || k == "stem:n" {
      SnapKeysAre(Hinted(), k);
    }
  }

  lemma ExampleIndex()
    ensures IndexOf(ExampleOrder(), 1) == map["exact:n" := "n", "stem:n" := "n"]
  {
    ExampleKeys();
    hide SnapKeys;
    var o := ExampleOrder();
    assert o[..2] == [Known(), Direct()] && [Known(), Direct()][..1] == [Known()] && [Known()][..0] == [];
    assert IndexOf([Known()], 1) == AddKeys(map[], SnapKeys(Known()), "n");
    assert IndexOf([Known(), Direct()], 1) == IndexOf([Known()], 1);
    assert IndexOf(o, 1) == IndexOf(o[..2], 1);
  }

  lemma ExampleTargets()
    ensures
      var index := IndexOf(ExampleOrder(), 1);
      Targets(Known(), index, 1, "n") && Targets(Direct(), index, 1, "n") && Targets(Hinted(), index, 1, "n")
  {
    ExampleKeys();
    ExampleIndex();
    hide SnapKeys, IndexOf;
    var index := IndexOf(ExampleOrder(), 1);
    assert Candidates(Direct(), index) == {"n"} by {
      assert "exact:n" in SnapKeys(Direct()) && index["exact:n"] == "n";
    }
    assert Candidates(Hinted(), index) == {"n"} by {
      assert "exact:n" in SnapKeys(Hinted()) && index["exact:n"] == "n";
    }
    TargetIsUnique(Direct(), index, "n");
    TargetIsUnique(Hinted(), index, "n");
  }

  /** Such stores exist: the two reports of one provider tie and count for one application. */
  lemma TiesArise()
    ensures Inv(Example()) && IsOrder(ExampleOrder(), Example())
    ensures !HarmlessTies(ExampleOrder(), [], 1)
  {
    ExampleTargets();
    hide SnapKeys, IndexOf, TargetApp;
    ExampleIsStore();
    TextOrder("p", "p", "p");
    assert Tied(Direct(), Hinted());
    assert SnapLeq(Known(), Direct());
    assert Known() in ExampleOrder();
    assert Clash(Direct(), Hinted(), ExampleOrder(), [], IndexOf(ExampleOrder(), 1), 1, "n");
  }

  lemma ReportIsClean(p: char, kind: SourceKind, c: char, hints: seq<string>)
    requires 'a' <= p <= 'z' && 'a' <= c <= 'z' && (hints == [] || hints == ["n"])
    ensures Clean(Report([p], kind, [c], hints))
  {
    OneLetter(p);
    OneLetter(c);
    OneLetter('n');
    hide Text.TrimSpace, Lower;
  }

  lemma ThreeListed(a: Snap, b: Snap, c: Snap, m: Store)
    requires a != b && a != c && b != c
    requires KeyOf(a) != KeyOf(b) && KeyOf(a) != KeyOf(c) && KeyOf(b) != KeyOf(c)
    requires m == map[KeyOf(a) := a, KeyOf(b) := b, KeyOf(c) := c]
    ensures Lists([a, b, c], m)
  {
    var o := [a, b, c];
    assert m[KeyOf(a)] == a && m[KeyOf(b)] == b && m[KeyOf(c)] == c;
    forall x ensures x in o <==> exists k :: k in m && m[k] == x {
      assert x in o <==> x == a || x == b || x == c;
    }
  }

  lemma ExampleIsStore()
    ensures Inv(Example()) && IsOrder(ExampleOrder(), Example())
  {
    hide Clean, Lists;
    ReportIsClean('w', Native, 'n', []);
    ReportIsClean('p', Extension, 'n', []);
    ReportIsClean('p', Extension, 'm', ["n"]);
    assert "n" != "m" && "w" != "p";
    ThreeListed(Known(), Direct(), Hinted(), Example());
    TextOrder("p", "p", "p");
  }
}
