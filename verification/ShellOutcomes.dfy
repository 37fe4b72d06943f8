/** What the operations of the GNOME Shell adapter come to (internal/adapters/shelldesktop/desktop.go), told
    by the views it reads and the replies it gets alone: which observation is made, when an ensure and a
    close succeed, and what they leave behind. */
module ShellOutcomes {
  import Text
  import opened Sorting
  import opened Wrappers
  import opened Workspace
  import R = Reconcile
  import opened Placement
  import opened ShellDesktop

  // ----- The application an id names -----

  predicate GoesBy(app: App, id: string) {
    app.desktopAppId == id || app.appId == id
  }

  /** The i-th application of a view is the one that the id names: the first that goes by it. */
  ghost predicate Names(v: View, id: string, i: nat) {
    i < |v.surfaces| && GoesBy(v.surfaces[i], id) && forall j :: 0 <= j < i ==> !GoesBy(v.surfaces[j], id)
  }

  lemma {:induction false} FoundIn(apps: seq<App>, id: string) returns (i: nat)
    ensures i <= |apps| && forall j :: 0 <= j < i ==> !GoesBy(apps[j], id)
    ensures i < |apps| ==> GoesBy(apps[i], id)
    ensures FindApplication(apps, id) == if i < |apps| then Some(apps[i]) else None
  {
    if apps == [] || GoesBy(apps[0], id) {
      i := 0;
    } else {
      var k := FoundIn(apps[1..], id);
      i := k + 1;
    }
  }

  lemma FoundIsNamed(v: View, id: string, i: nat)
    requires Names(v, id, i)
    ensures FindApplication(v.surfaces, id) == Some(v.surfaces[i])
  {
    var k := FoundIn(v.surfaces, id);
  }

  lemma NotFoundIsUnnamed(v: View, id: string)
    requires forall i :: !Names(v, id, i)
    ensures FindApplication(v.surfaces, id) == None
  {
    var k := FoundIn(v.surfaces, id);
    if k < |v.surfaces| { assert Names(v, id, k); }
  }

  // ----- Closing -----

  /** None of the windows is shown under the id. */
  ghost predicate ShownWithout(v: View, id: string, windows: seq<string>) {
    forall i: nat, w :: Names(v, id, i) && w in windows ==> w !in v.surfaces[i].windows
  }

  lemma WithoutMeansAbsent(v: View, id: string, windows: seq<string>)
    ensures ShownWithout(v, id, windows) <==> AbsentIn(v, id, windows)
  {
    hide FindApplication;
    var k := FoundIn(v.surfaces, id);
    if k < |v.surfaces| {
      assert Names(v, id, k);
      forall j: nat | Names(v, id, j) ensures j == k { }
      if ShownWithout(v, id, windows) {
        forall w | w in v.surfaces[k].windows ensures w !in windows { }
      }
    }
  }

  /** Every request is answered with success, and unless there was none, some view then shows none of the
      windows. */
  ghost predicate SeenToClose(id: string, windows: seq<string>, a: CloseAnswers) {
    && (forall i: nat :: i < |windows| ==> a.replies(i).Reply? && a.replies(i).success)
    && (windows == [] || exists i :: 0 <= i < |a.absent| && ShownWithout(a.absent[i], id, windows))
  }

  lemma SeenToCloseIsConvergence(r: ResourceSpec, o: Observation, a: CloseAnswers)
    ensures Converges(r, o, a) <==> SeenToClose(r.desktopAppId, Windows(o), a)
  {
    hide AbsentIn, ShownWithout;
    forall i | 0 <= i < |a.absent|
      ensures ShownWithout(a.absent[i], r.desktopAppId, Windows(o)) <==>
              AbsentIn(a.absent[i], r.desktopAppId, Windows(o))
    {
      WithoutMeansAbsent(a.absent[i], r.desktopAppId, Windows(o));
    }
  }

  /** What a close adds to the history: requests for the windows in their order, up to and including the
      first that is not answered with success, and the completion if there is one. */
  ghost predicate ClosingLog(more: seq<Event>, k: Key, app: string, windows: seq<string>, a: CloseAnswers, done: bool) {
    exists n: nat :: RequestsUpTo(more, k, app, windows, a, n) && |more| == n + (if done then 1 else 0) &&
                     (done ==> more[n] == CloseCompleted(k))
  }

  ghost predicate RequestsUpTo(more: seq<Event>, k: Key, app: string, windows: seq<string>, a: CloseAnswers, n: nat) {
    && n <= |windows| && n <= |more|
    && (forall i :: 0 <= i < n ==> more[i] == CloseRequested(k, app, windows[i]))
    && (forall i: nat :: i < n - 1 ==> a.replies(i).Reply? && a.replies(i).success)
    && (n < |windows| ==> n > 0 && !(a.replies(n - 1).Reply? && a.replies(n - 1).success))
  }

  lemma {:induction false} IssuedUpTo(n: nat, replies: nat -> Reply, i: nat)
    requires i <= n
    ensures
      var k := Issued(n, replies, i);
      && (forall j: nat :: i <= j < k - 1 ==> Accepted(replies(j)))
      && (k < n ==> k > i && !Accepted(replies(k - 1)))
    decreases n - i
  {
    if i < n && Accepted(replies(i)) { IssuedUpTo(n, replies, i + 1); }
  }

  lemma RequestsLog(k: Key, app: string, windows: seq<string>, n: nat, a: CloseAnswers, done: bool)
    requires n <= |windows| && (forall i: nat :: i < n - 1 ==> Accepted(a.replies(i)))
    requires n < |windows| ==> n > 0 && !Accepted(a.replies(n - 1))
    ensures ClosingLog(Requests(k, app, windows, n) + if done then [CloseCompleted(k)] else [],
                       k, app, windows, a, done)
  {
    var more := Requests(k, app, windows, n) + if done then [CloseCompleted(k)] else [];
    assert RequestsUpTo(more, k, app, windows, a, n);
  }

  /** A close that goes ahead is without error, completes and gives up the evidence exactly when all
      windows are seen to close. */
  lemma CloseSucceedsExactly(s: Desk, ws: string, r: ResourceSpec, o: Observation, a: CloseAnswers)
    requires r.kind.DesktopApp? && r.ownership.Managed? && o.ownership.Managed? && !o.session.OtherSession?
    ensures
      var windows := if o.session.WindowIds? then o.session.ids else [];
      var done, t := SeenToClose(r.desktopAppId, windows, a), CloseDesk(s, ws, r, o, a);
      && (CloseOk(r, o, a) <==> done)
      && t.managed == (if done then s.managed - {(ws, r.id)} else s.managed)
      && s.log <= t.log && ClosingLog(t.log[|s.log|..], (ws, r.id), r.desktopAppId, windows, a, done)
  {
    hide SeenToClose, Converges, Issued;
    SeenToCloseIsConvergence(r, o, a);
    var windows := Windows(o);
    IssuedUpTo(|windows|, a.replies, 0);
    var n, k := Issued(|windows|, a.replies, 0), (ws, r.id);
    RequestsLog(k, r.desktopAppId, windows, n, a, Converges(r, o, a));
    var more := Requests(k, r.desktopAppId, windows, n) + if Converges(r, o, a) then [CloseCompleted(k)] else [];
    var t := CloseDesk(s, ws, r, o, a);
    assert t.log == s.log + more;
    assert t.log[|s.log|..] == more;
  }

  /** Any other close does nothing, and reports an error exactly when the resource is no desktop application
      or, both sides being managed, its list of windows cannot be read. */
  lemma OtherClosesDoNothing(s: Desk, ws: string, r: ResourceSpec, o: Observation, a: CloseAnswers)
    requires !(r.kind.DesktopApp? && r.ownership.Managed? && o.ownership.Managed? && !o.session.OtherSession?)
    ensures CloseDesk(s, ws, r, o, a) == s
    ensures CloseOk(r, o, a) <==> r.kind.DesktopApp? && !(r.ownership.Managed? && o.ownership.Managed?)
  {
  }

  // ----- Observing -----

  /** Where a placement asks a window to be, the placed window of the application is. */
  ghost predicate InPlace(v: View, r: ResourceSpec) {
    exists target, w ::
      Resolve(r.placement, v.topology) == Placement.Ok(target) && AnchorWindow(v, r.desktopAppId) == Some(w) &&
      PlacementReached(target, w, v.topology.revision)
  }

  /** The observation of a resource whose application is the i-th of the view. */
  ghost function SeenAs(managed: set<Key>, ws: string, r: ResourceSpec, v: View, i: nat): Observation
    requires i < |v.surfaces|
  {
    Observation(r.id, true,
                if r.placement.None? then v.surfaces[i].windows != [] else InPlace(v, r),
                if r.ownership.Managed? && (ws, r.id) !in managed then Adopted else r.ownership,
                WindowIds(v.surfaces[i].windows), v.surfaces[i].appId)
  }

  lemma ObservedAs(managed: set<Key>, ws: string, r: ResourceSpec, v: View, i: nat)
    requires r.kind.DesktopApp? && Names(v, r.desktopAppId, i)
    ensures Observed(managed, ws, r, v) == Some(SeenAs(managed, ws, r, v, i))
  {
    hide FindApplication, Resolve, AnchorWindow, PlacementReached;
    FoundIsNamed(v, r.desktopAppId, i);
  }

  lemma NotObservedAs(managed: set<Key>, ws: string, r: ResourceSpec, v: View)
    requires !r.kind.DesktopApp? || forall i :: !Names(v, r.desktopAppId, i)
    ensures Observed(managed, ws, r, v) == None
  {
    hide FindApplication, PlacementSeen;
    if r.kind.DesktopApp? { NotFoundIsUnnamed(v, r.desktopAppId); }
  }

  /** A resource is observed exactly when it is a desktop application and the view shows one under its id.
      It is ready when it is in place, or without a placement has a window, and managed only on evidence. */
  lemma ObservationMeaning(managed: set<Key>, d: DesiredState, v: View, r: ResourceSpec)
    requires DistinctIds(d.resources) && r in d.resources
    ensures
      var seen := StateSeen(managed, d, v);
      && (r.id in seen.resources <==> r.kind.DesktopApp? && exists i :: Names(v, r.desktopAppId, i))
      && (forall i :: r.kind.DesktopApp? && Names(v, r.desktopAppId, i) ==>
            r.id in seen.resources && seen.resources[r.id] == SeenAs(managed, d.workspaceId, r, v, i))
      && seen.topologyRevision == v.topology.revision
  {
    hide ObservedAll, Observed, SeenAs, DistinctIds;
    var ws, rs := d.workspaceId, d.resources;
    if r.kind.DesktopApp? && exists i :: Names(v, r.desktopAppId, i) {
      forall i | Names(v, r.desktopAppId, i)
        ensures r.id in ObservedAll(managed, ws, rs, v)
        ensures ObservedAll(managed, ws, rs, v)[r.id] == SeenAs(managed, ws, r, v, i)
      {
        ObservedAs(managed, ws, r, v, i);
        ObservedLookup(managed, ws, rs, v, r);
      }
    } else {
      NotObservedAs(managed, ws, r, v);
      if r.id in ObservedAll(managed, ws, rs, v) { ObservedOnlyIf(managed, ws, rs, v, r); }
    }
  }

  lemma LeastIsFirst(ws: seq<Window>)
    requires ws != []
    ensures Sort(ByWindowId, ws)[0] in ws && forall w :: w in ws ==> Text.Leq(Sort(ByWindowId, ws)[0].id, w.id)
  {
    hide Sort;
    var sorted := Sort(ByWindowId, ws);
    MembersOfPermutation(ws, sorted);
    WindowIdsAreOrdered(ws);
    SortIsSorted(ByWindowId, ws);
    forall w | w in ws ensures Text.Leq(sorted[0].id, w.id) {
      var j :| 0 <= j < |sorted| && sorted[j] == w;
      if 0 < j { assert ByWindowId(sorted[0], sorted[j]); } else { Text.LeqTotal(w.id, w.id); }
    }
  }

  lemma WindowIdsAreOrdered(ws: seq<Window>)
    ensures TotalPreorderOn(ByWindowId, ws)
  {
    Text.LeqIsTotalOrder();
  }

  /** The window that a placement is about: the one of least id of the first application under the id. */
  lemma AnchorMeaning(v: View, id: string, i: nat)
    requires i < |v.apps| && (v.apps[i].desktopAppId == id || v.apps[i].appId == id)
    requires forall j :: 0 <= j < i ==> v.apps[j].desktopAppId != id && v.apps[j].appId != id
    ensures AnchorWindow(v, id) == None <==> v.apps[i].windows == []
    ensures AnchorWindow(v, id).Some? ==>
              AnchorWindow(v, id).value in v.apps[i].windows &&
              forall w :: w in v.apps[i].windows ==> Text.Leq(AnchorWindow(v, id).value.id, w.id)
  {
    hide FindShellApplication, Sort, Text.Leq;
    ShellFoundIs(v.apps, id, i);
    if v.apps[i].windows != [] { LeastIsFirst(v.apps[i].windows); }
  }

  lemma {:induction false} ShellFoundIs(apps: seq<ShellApp>, id: string, i: nat)
    requires i < |apps| && (apps[i].desktopAppId == id || apps[i].appId == id)
    requires forall j :: 0 <= j < i ==> apps[j].desktopAppId != id && apps[j].appId != id
    ensures FindShellApplication(apps, id) == Some(apps[i])
  {
    if i > 0 { ShellFoundIs(apps[1..], id, i - 1); }
  }

  // ----- Ensuring -----

  /** The i-th view ends a wait: it shows the resource present and ready, no earlier one does, and up to it
      the topology is the expected one, if one is expected. */
  ghost predicate EndsWait(managed: set<Key>, d: DesiredState, id: string, topology: string, polls: seq<View>, i: nat) {
    && i < |polls| && ReadyIn(managed, d, id, polls[i])
    && (forall j :: 0 <= j < i ==> !ReadyIn(managed, d, id, polls[j]))
    && (topology == "" || forall j :: 0 <= j <= i ==> polls[j].topology.revision == topology)
  }

  ghost predicate ReadyIn(managed: set<Key>, d: DesiredState, id: string, v: View) {
    var seen := StateSeen(managed, d, v).resources;
    id in seen && seen[id].present && seen[id].ready
  }

  lemma WaitShifts(managed: set<Key>, d: DesiredState, id: string, topology: string, polls: seq<View>, i: nat)
    requires polls != [] && !ReadyIn(managed, d, id, polls[0])
    requires topology == "" || polls[0].topology.revision == topology
    ensures !EndsWait(managed, d, id, topology, polls, 0)
    ensures EndsWait(managed, d, id, topology, polls, i + 1) <==> EndsWait(managed, d, id, topology, polls[1..], i)
  {
    hide ReadyIn;
    var rest := polls[1..];
    if EndsWait(managed, d, id, topology, polls, i + 1) {
      forall j | 0 <= j <= i && j < |rest| ensures rest[j] == polls[j + 1] { }
    }
    if EndsWait(managed, d, id, topology, rest, i) {
      forall j | 0 < j <= i + 1 ensures polls[j] == rest[j - 1] { }
    }
  }

  /** A wait returns the observation of the view that ends it, and nothing when none does. */
  lemma {:induction false} WaitMeaning(managed: set<Key>, d: DesiredState, id: string, topology: string,
                                       polls: seq<View>)
    returns (i: nat)
    ensures
      var o := WaitReady(managed, d, id, topology, polls);
      && (o.Some? ==> EndsWait(managed, d, id, topology, polls, i) &&
                      o == Some(StateSeen(managed, d, polls[i]).resources[id]))
      && (o.None? ==> forall j :: !EndsWait(managed, d, id, topology, polls, j))
  {
    hide ObservedAll;
    i := 0;
    if polls != [] {
      var v := polls[0];
      if (topology == "" || v.topology.revision == topology) && !ReadyIn(managed, d, id, v) {
        var k := WaitMeaning(managed, d, id, topology, polls[1..]);
        i := k + 1;
        WaitShifts(managed, d, id, topology, polls, k);
        forall j: nat
          ensures EndsWait(managed, d, id, topology, polls, j) ==>
                    j > 0 && EndsWait(managed, d, id, topology, polls[1..], j - 1)
        {
          if j > 0 { WaitShifts(managed, d, id, topology, polls, j - 1); }
        }
      }
    }
  }

  /** Some window of the application that the id names is shown. */
  ghost predicate ShowsWindow(v: View, id: string) {
    exists k: nat :: Names(v, id, k) && v.surfaces[k].windows != []
  }

  lemma PresentMeaning(v: View, id: string)
    ensures PresentIn(v, id) <==> ShowsWindow(v, id)
  {
    hide FindApplication;
    var k := FoundIn(v.surfaces, id);
    if k < |v.surfaces| {
      assert Names(v, id, k);
      forall j: nat | Names(v, id, j) ensures j == k { }
    }
  }

  /** An ensure returns an observation exactly when the resource is a desktop application, the shell reports
      success, some view then shows the application with a window, a placement is met, and some view ends
      the wait for readiness, whose observation it is. */
  lemma EnsureSucceedsExactly(managed: set<Key>, d: DesiredState, r: ResourceSpec, a: EnsureAnswers) returns (i: nat)
    ensures EnsureResult(managed, d, r, a).Some? <==>
              && r.kind.DesktopApp? && a.reply.Reply? && a.reply.success
              && (exists j :: 0 <= j < |a.present| && ShowsWindow(a.present[j], r.desktopAppId))
              && (r.placement.Some? ==> PlacedOk(managed, d, r, a))
              && exists j :: EndsWait(managed, d, r.id, "", a.ready, j)
    ensures EnsureResult(managed, d, r, a).Some? ==>
              EndsWait(managed, d, r.id, "", a.ready, i) &&
              EnsureResult(managed, d, r, a).value == StateSeen(managed, d, a.ready[i]).resources[r.id]
  {
    hide EndsWait, WaitReady, PlacedOk, PresentIn, ShowsWindow;
    i := WaitMeaning(managed, d, r.id, "", a.ready);
    forall j | 0 <= j < |a.present|
      ensures PresentIn(a.present[j], r.desktopAppId) <==> ShowsWindow(a.present[j], r.desktopAppId)
    {
      PresentMeaning(a.present[j], r.desktopAppId);
    }
  }

  /** A placement is met when the window was in place, or the shell accepted the request to place it and a
      view ended the wait under the topology that the placement was resolved for. */
  lemma PlacementMetExactly(managed: set<Key>, d: DesiredState, r: ResourceSpec, a: EnsureAnswers)
    ensures PlacedOk(managed, d, r, a) <==>
            exists target, w ::
              && Resolve(r.placement, a.placing.topology) == Placement.Ok(target)
              && AnchorWindow(a.placing, r.desktopAppId) == Some(w)
              && (PlacementReached(target, w, a.placing.topology.revision) ||
                  (a.placeReply.Reply? && a.placeReply.success &&
                   exists i :: EndsWait(managed, d, r.id, target.topologyRevision, a.placed, i)))
  {
    hide EndsWait, WaitReady, PlacementReached, Resolve, AnchorWindow;
    if Resolve(r.placement, a.placing.topology).Ok? {
      var target := Resolve(r.placement, a.placing.topology).value;
      var i := WaitMeaning(managed, d, r.id, target.topologyRevision, a.placed);
      if AnchorWindow(a.placing, r.desktopAppId).Some? {
        assert AnchorWindow(a.placing, r.desktopAppId) == Some(AnchorWindow(a.placing, r.desktopAppId).value);
      }
    }
  }

  /** An ensure adds its reply to the history, and evidence exactly for a managed desktop application that
      the shell launched: one it reports as done and as a change. */
  lemma EnsureLeaves(s: Desk, ws: string, r: ResourceSpec, a: EnsureAnswers, k: Key)
    ensures
      var t := EnsureDesk(s, ws, r, a);
      && (k in t.managed <==>
            k in s.managed ||
            (k == (ws, r.id) && r.kind.DesktopApp? && r.ownership.Managed? && a.reply == Reply(true, true)))
      && (if !r.kind.DesktopApp? then t.log == s.log
          else |s.log| < |t.log| <= |s.log| + 2 && t.log[..|s.log|] == s.log &&
               t.log[|s.log|] == EnsureReplied((ws, r.id), r.desktopAppId, r.ownership.Managed?, a.reply))
  {
    hide PlaceEvents, WaitPresent;
  }

  /** The placement resolves and a window is there, but not where it is asked to be. */
  ghost predicate OutOfPlace(v: View, r: ResourceSpec) {
    Resolve(r.placement, v.topology).Ok? && AnchorWindow(v, r.desktopAppId).Some? && !InPlace(v, r)
  }

  lemma PlacesWhenOutOfPlace(ws: string, r: ResourceSpec, v: View)
    ensures PlaceEvents(ws, r, v) ==
            if OutOfPlace(v, r) then [PlaceRequested((ws, r.id), AnchorWindow(v, r.desktopAppId).value.id)] else []
  {
    hide Resolve, AnchorWindow, PlacementReached;
    if Resolve(r.placement, v.topology).Ok? {
      var target := Resolve(r.placement, v.topology).value;
      assert Resolve(r.placement, v.topology) == Placement.Ok(target);
      if AnchorWindow(v, r.desktopAppId).Some? {
        assert AnchorWindow(v, r.desktopAppId) == Some(AnchorWindow(v, r.desktopAppId).value);
      }
    }
  }

  /** The second event, if any, asks for the anchor window to be placed; there is one exactly when the
      reply was a success, the application was seen with a window, and the window was not in place. */
  lemma PlacementRequestedExactly(s: Desk, ws: string, r: ResourceSpec, a: EnsureAnswers)
    requires r.kind.DesktopApp?
    ensures
      var t := EnsureDesk(s, ws, r, a);
      && (|t.log| == |s.log| + 2 <==>
            && a.reply.Reply? && a.reply.success && r.placement.Some?
            && (exists j :: 0 <= j < |a.present| && ShowsWindow(a.present[j], r.desktopAppId))
            && OutOfPlace(a.placing, r))
      && (|t.log| == |s.log| + 2 ==>
            AnchorWindow(a.placing, r.desktopAppId).Some? &&
            t.log[|s.log| + 1] == PlaceRequested((ws, r.id), AnchorWindow(a.placing, r.desktopAppId).value.id))
  {
    hide PresentIn, ShowsWindow, InPlace, AnchorWindow, PlaceEvents, Resolve;
    PlacesWhenOutOfPlace(ws, r, a.placing);
    forall j | 0 <= j < |a.present|
      ensures PresentIn(a.present[j], r.desktopAppId) <==> ShowsWindow(a.present[j], r.desktopAppId)
    {
      PresentMeaning(a.present[j], r.desktopAppId);
    }
  }

  // ----- Completed closes in a run -----

  /** The resource is managed on evidence and its application, as the view shows it, is seen to close. */
  ghost predicate ClosesAsSeen(managed: set<Key>, ws: string, r: ResourceSpec, v: View, a: CloseAnswers) {
    && r.kind.DesktopApp? && r.ownership.Managed? && (ws, r.id) in managed
    && exists i: nat :: Names(v, r.desktopAppId, i) && SeenToClose(r.desktopAppId, v.surfaces[i].windows, a)
  }

  /** One round of the closing loop. */
  function Round(t: Desk, ws: string, r: ResourceSpec, o: map<string, Observation>, a: CloseAnswers): Desk {
    if Wanted(r, o) then CloseDesk(t, ws, r, o[r.id], a) else t
  }

  ghost predicate Adds(t: Desk, u: Desk, k: Key, done: bool) {
    && t.log <= u.log && (forall i :: |t.log| <= i < |u.log| ==> u.log[i].key == k)
    && (CloseCompleted(k) in u.log[|t.log|..] <==> done)
  }

  lemma ClosingLogAdds(t: Desk, u: Desk, k: Key, app: string, windows: seq<string>, a: CloseAnswers, done: bool)
    requires t.log <= u.log && ClosingLog(u.log[|t.log|..], k, app, windows, a, done)
    ensures Adds(t, u, k, done)
  {
    var more := u.log[|t.log|..];
    var n: nat :| RequestsUpTo(more, k, app, windows, a, n) && |more| == n + (if done then 1 else 0) &&
                  (done ==> more[n] == CloseCompleted(k));
    forall i | |t.log| <= i < |u.log| ensures u.log[i].key == k { assert u.log[i] == more[i - |t.log|]; }
  }

  lemma NothingAdds(t: Desk, k: Key)
    ensures Adds(t, t, k, false)
  {
    assert t.log[|t.log|..] == [];
  }

  lemma RoundAdds(t: Desk, managed: set<Key>, ws: string, all: seq<ResourceSpec>, r: ResourceSpec, v: View,
                  a: CloseAnswers)
    requires DistinctIds(all) && r in all
    ensures Adds(t, Round(t, ws, r, ObservedAll(managed, ws, all, v), a), (ws, r.id),
                 ClosesAsSeen(managed, ws, r, v, a))
  {
    hide ObservedAll, Observed, CloseDesk, SeenToClose, ClosingLog, InPlace, DistinctIds;
    var o := ObservedAll(managed, ws, all, v);
    NothingAdds(t, (ws, r.id));
    var k := FoundIn(v.surfaces, r.desktopAppId);
    if r.kind.DesktopApp? && k < |v.surfaces| {
      assert Names(v, r.desktopAppId, k);
      ObservedAs(managed, ws, r, v, k);
      ObservedLookup(managed, ws, all, v, r);
      forall j: nat | Names(v, r.desktopAppId, j) ensures j == k { }
      if r.ownership.Managed? {
        if (ws, r.id) in managed {
          CloseSucceedsExactly(t, ws, r, o[r.id], a);
          ClosingLogAdds(t, CloseDesk(t, ws, r, o[r.id], a), (ws, r.id), r.desktopAppId, v.surfaces[k].windows, a,
                         SeenToClose(r.desktopAppId, v.surfaces[k].windows, a));
        } else {
          OtherClosesDoNothing(t, ws, r, o[r.id], a);
        }
      }
    } else {
      NotObservedAs(managed, ws, r, v);
      if r.id in o { ObservedOnlyIf(managed, ws, all, v, r); }
    }
  }

  /** The history between two states has, of the completions of `k`, one exactly if `done`. */
  ghost predicate Grows(s: Desk, u: Desk, k: Key, done: bool) {
    s.log <= u.log && (CloseCompleted(k) in u.log[|s.log|..] <==> done)
  }

  lemma GrowsMore(s: Desk, t: Desk, u: Desk, k: Key, was: bool, key: Key, done: bool)
    requires Grows(s, t, k, was) && Adds(t, u, key, done)
    ensures Grows(s, u, k, was || (key == k && done))
  {
    assert u.log[|s.log|..] == t.log[|s.log|..] + u.log[|t.log|..];
    if key != k {
      forall i | 0 <= i < |u.log[|t.log|..]| ensures u.log[|t.log|..][i] != CloseCompleted(k) {
        assert u.log[|t.log|..][i] == u.log[|t.log| + i];
      }
    }
  }

  lemma {:induction false} CompletesUpTo(
    s: Desk, managed: set<Key>, ws: string, all: seq<ResourceSpec>, m: nat, v: View, answers: nat -> CloseAnswers,
    n: nat)
    requires DistinctIds(all) && m <= |all| && n < |all|
    ensures Grows(s, CloseAll(s, ws, all[..m], ObservedAll(managed, ws, all, v), answers), (ws, all[n].id),
                  n < m && ClosesAsSeen(managed, ws, all[n], v, answers(n)))
  {
    hide ObservedAll, CloseDesk, ClosesAsSeen, Adds, Grows;
    if m == 0 {
      NothingGrows(s, (ws, all[n].id));
    } else {
      var o, r := ObservedAll(managed, ws, all, v), all[m - 1];
      assert all[..m][..m - 1] == all[..m - 1];
      var t := CloseAll(s, ws, all[..m - 1], o, answers);
      CompletesUpTo(s, managed, ws, all, m - 1, v, answers, n);
      RoundAdds(t, managed, ws, all, r, v, answers(m - 1));
      GrowsMore(s, t, Round(t, ws, r, o, answers(m - 1)), (ws, all[n].id),
                n < m - 1 && ClosesAsSeen(managed, ws, all[n], v, answers(n)),
                (ws, r.id), ClosesAsSeen(managed, ws, r, v, answers(m - 1)));
      assert n != m - 1 ==> r.id != all[n].id;
    }
  }

  lemma NothingGrows(s: Desk, k: Key)
    ensures Grows(s, s, k, false)
  {
    assert s.log[|s.log|..] == [];
  }

  /** A close operation adds the completion of a resource to the history exactly when the resource is managed
      on evidence and all windows of its application, as the view shows them, are seen to close. */
  lemma CompletesExactly(s: Desk, d: DesiredState, v: View, answers: nat -> CloseAnswers, n: nat)
    requires Valid(d) && n < |d.resources|
    ensures
      var u, r := Step(s, CloseOp(d, v, answers)), d.resources[n];
      && s.log <= u.log
      && (CloseCompleted((d.workspaceId, r.id)) in u.log[|s.log|..] <==>
            ClosesAsSeen(s.managed, d.workspaceId, r, v, answers(n)))
  {
    hide ObservedAll, CloseAll, ClosesAsSeen, ResourceValid, Text.Blank;
    assert d.resources[..|d.resources|] == d.resources;
    CompletesUpTo(s, s.managed, d.workspaceId, d.resources, |d.resources|, v, answers, n);
  }

  ghost predicate AddsNoCompletion(s: Desk, u: Desk) {
    s.log <= u.log && forall i :: |s.log| <= i < |u.log| ==> !u.log[i].CloseCompleted?
  }

  lemma {:induction false} EnsuresCompleteNothing(s: Desk, ws: string, rs: seq<ResourceSpec>,
                                                  answers: nat -> EnsureAnswers)
    ensures AddsNoCompletion(s, EnsureAll(s, ws, rs, answers))
  {
    if rs != [] {
      EnsuresCompleteNothing(s, ws, rs[..|rs| - 1], answers);
      EnsureCompletesNothing(EnsureAll(s, ws, rs[..|rs| - 1], answers), ws, rs[|rs| - 1], answers(|rs| - 1));
      hide EnsureDesk;
    }
  }

  lemma EnsureCompletesNothing(s: Desk, ws: string, r: ResourceSpec, a: EnsureAnswers)
    ensures AddsNoCompletion(s, EnsureDesk(s, ws, r, a))
  {
    hide Placing, Launches;
  }

  /** Every completion that a step adds is of some resource of its definition. */
  lemma {:induction false} CompletionsAreOfResources(
    s: Desk, ws: string, rs: seq<ResourceSpec>, o: map<string, Observation>, answers: nat -> CloseAnswers, i: nat)
    requires |s.log| <= i < |CloseAll(s, ws, rs, o, answers).log|
    ensures exists n :: 0 <= n < |rs| && CloseAll(s, ws, rs, o, answers).log[i].key == (ws, rs[n].id)
  {
    if rs != [] {
      var m := |rs| - 1;
      var t := CloseAll(s, ws, rs[..m], o, answers);
      if i < |t.log| { CompletionsAreOfResources(s, ws, rs[..m], o, answers, i); }
    }
    hide Issued, Converges;
  }

  lemma CompletedInStep(s: Desk, op: Operation, i: nat) returns (n: nat)
    requires |s.log| <= i < |Step(s, op).log| && Step(s, op).log[i].CloseCompleted?
    ensures op.CloseOp? && Valid(op.d) && n < |op.d.resources|
    ensures Step(s, op).log[i].key == (op.d.workspaceId, op.d.resources[n].id)
    ensures ClosesAsSeen(s.managed, op.d.workspaceId, op.d.resources[n], op.view, op.results(n))
  {
    hide ClosesAsSeen, Valid, ObservedAll, CloseAll, EnsureAll;
    var d := op.d;
    match op
    case ReconcileOp(_, before, answers) =>
      EnsuresCompleteNothing(s, d.workspaceId, R.PlanOf(d, StateSeen(s.managed, d, before)).actions, answers);
    case CloseOp(_, view, answers) =>
      var o := StateSeen(s.managed, d, view).resources;
      CompletionsAreOfResources(s, d.workspaceId, d.resources, o, answers, i);
      n :| 0 <= n < |d.resources| && Step(s, op).log[i].key == (d.workspaceId, d.resources[n].id);
      CompletesExactly(s, d, view, answers, n);
      assert Step(s, op).log[|s.log|..][i - |s.log|] == CloseCompleted((d.workspaceId, d.resources[n].id));
  }

  /** In every run, a completed close in the history comes from a close operation for a resource that was
      managed on evidence then, and all of whose windows were seen to close. */
  lemma {:induction false} CompletedInRun(ops: seq<Operation>, i: nat) returns (m: nat, n: nat)
    requires i < |Run(ops).log| && Run(ops).log[i].CloseCompleted?
    ensures m < |ops| && ops[m].CloseOp? && Valid(ops[m].d) && n < |ops[m].d.resources|
    ensures
      var ws, r := ops[m].d.workspaceId, ops[m].d.resources[n];
      && Run(ops).log[i].key == (ws, r.id)
      && ClosesAsSeen(Run(ops[..m]).managed, ws, r, ops[m].view, ops[m].results(n))
  {
    hide Step, ClosesAsSeen, Valid;
    var init, op := ops[..|ops| - 1], ops[|ops| - 1];
    var s := Run(init);
    if i < |s.log| {
      StepFits(s, op);
      m, n := CompletedInRun(init, i);
      assert init[..m] == ops[..m];
    } else {
      m := |ops| - 1;
      n := CompletedInStep(s, op, i);
    }
  }

  // ----- What is reported -----

  /** A reconcile reports exactly the ensures of its plan that return nothing, each judged on the evidence
      that is there after it. */
  lemma {:induction false} EnsureFailuresMeaning(s: Desk, d: DesiredState, rs: seq<ResourceSpec>,
                                                 answers: nat -> EnsureAnswers, f: R.Failure)
    ensures f in EnsureFailures(s, d, rs, answers) <==>
            exists n :: 0 <= n < |rs| && f == R.Failure(rs[n].id, "ensure_failed") &&
                        EnsureResult(EnsureAll(s, d.workspaceId, rs[..n + 1], answers).managed, d, rs[n],
                                     answers(n)).None?
  {
    hide EnsureAll, EnsureResult;
    if rs != [] {
      var m := |rs| - 1;
      EnsureFailuresMeaning(s, d, rs[..m], answers, f);
      assert rs[..m + 1] == rs;
      forall n | 0 <= n < m ensures rs[..m][n] == rs[n] && rs[..m][..n + 1] == rs[..n + 1] { }
    }
  }

  /** A close reports exactly the managed and present resources whose close returned an error. */
  lemma {:induction false} CloseFailuresMeaning(rs: seq<ResourceSpec>, o: map<string, Observation>,
                                                answers: nat -> CloseAnswers, f: R.Failure)
    ensures f in CloseFailures(rs, o, answers) <==>
            exists n :: 0 <= n < |rs| && f == R.Failure(rs[n].id, "close_failed") && rs[n].ownership.Managed? &&
                        rs[n].id in o && o[rs[n].id].present && !CloseOk(rs[n], o[rs[n].id], answers(n))
  {
    hide CloseOk;
    if rs != [] {
      var m := |rs| - 1;
      CloseFailuresMeaning(rs[..m], o, answers, f);
      assert forall n :: 0 <= n < m ==> rs[..m][n] == rs[n];
    }
  }
}
