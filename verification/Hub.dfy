/** Concurrent refreshes of the daemon's hub (internal/daemon/hub.go, internal/panel/dsl/manager.go).

    A Refresh reads the registry, reads the previous snapshot under the lock, computes outside it, reads
    the current panel spec, and commits under the lock.  Each of these is one atomic step here, and any
    number of refreshes interleave with one another and with panel-spec applications. */
module Hub {
  import opened Sorting
  import opened Surface
  import opened Wrappers
  import Panel

  /** Manager: the specs applied so far; the spec revision is their number. */
  type Specs = seq<Panel.Spec>

  function SpecAt(specs: Specs, revision: nat): Panel.Spec
    requires revision <= |specs|
  {
    if revision == 0 then Panel.DEFAULT_SPEC else specs[revision - 1]
  }

  /** What compiling a source text gives. */
  datatype Compiled = Compiled(spec: Panel.Spec) | Failed(error: string)

  class Manager {
    var current: Panel.Spec
    var valid: bool
    var revision: nat
    var lastError: Option<string>
    ghost var specs: Specs

    ghost predicate Valid()
      reads this
    {
      revision == |specs| && (valid <==> revision > 0) && (valid ==> current == SpecAt(specs, revision))
    }

    constructor ()
      ensures Valid() && specs == [] && lastError == None
    {
      current, valid, revision, lastError, specs := Panel.DEFAULT_SPEC, false, 0, None, [];
    }

    /** Manager.Apply after compilation: a text that failed to compile leaves the last good spec. */
    method Apply(c: Compiled) returns (spec: Panel.Spec, r: nat, error: Option<string>)
      requires Valid()
      modifies this
      ensures Valid() && spec == current && r == revision && error == lastError
      ensures specs == old(specs) + if c.Compiled? then [c.spec] else []
      ensures lastError == if c.Failed? then Some(c.error) else None
      ensures c.Failed? ==> revision == old(revision) && current == old(current) && valid == old(valid)
    {
      if c.Failed? {
        lastError := Some(c.error);
        return current, revision, lastError;
      }
      current, valid, revision, lastError, specs := c.spec, true, revision + 1, None, specs + [c.spec];
      return c.spec, revision, None;
    }

    /** Current, with the default that Refresh falls back to. */
    method Current() returns (spec: Panel.Spec, r: nat)
      requires Valid()
      ensures r == |specs| && spec == SpecAt(specs, r)
    {
      spec, r := current, revision;
      if !valid { spec := Panel.DEFAULT_SPEC; }
    }
  }

  // ----- States and steps -----

  /** The beginning of a refresh, where it reads the registry: the clock, how many refreshes began before
      it, and how many had committed. */
  datatype Origin = Origin(now: int, order: nat, commitsBefore: nat)

  /** A refresh in progress.  `readAt` counts the commits before its read of the previous snapshot, and
      `specReadAt` is the place of its read of the spec in the log of reads and applications. */
  datatype Refresh =
    | Started(surfaces: seq<ApplicationSurface>, health: seq<ProviderHealth>, origin: Origin)
    | HasPrevious(surfaces: seq<ApplicationSurface>, health: seq<ProviderHealth>, origin: Origin, previous: Snapshot,
                  readAt: nat)
    | Computed(next: Snapshot, origin: Origin, previous: Snapshot, readAt: nat)
    | HasSpec(next: Snapshot, origin: Origin, previous: Snapshot, readAt: nat,
              spec: Panel.Spec, specRevision: nat, specReadAt: nat)

  /** A published panel; all but the first three fields are history. */
  datatype Published = Published(
    revision: nat, generatedAt: int, display: Panel.Display,
    content: Content, specRevision: nat, generation: nat, order: nat, specReadAt: nat)

  datatype SpecEvent = Applied | Read

  /** The hub's fields, the refreshes in progress, and what happened so far: the panels published, the
      clock at the beginning of each refresh, and the order of spec applications and reads. */
  datatype State = State(
    snapshot: Snapshot, panelRevision: nat, lastSpecRevision: nat, specs: Specs, refreshes: map<nat, Refresh>,
    published: seq<Published>, begins: seq<int>, specLog: seq<SpecEvent>)

  const INIT: State := State(EMPTY, 0, 0, [], map[], [], [], [])

  datatype Action =
    | Begin(who: nat, surfaces: seq<ApplicationSurface>, health: seq<ProviderHealth>, now: int)
    | ReadPrevious(who: nat)
    | Compute(who: nat)
    | Fail(who: nat)
    | ReadSpec(who: nat)
    | Commit(who: nat)
    | ApplySpec(compiled: Compiled)

  function Publication(s: State, r: Refresh): Published
    requires r.HasSpec?
  {
    var surfaceChanged := r.next.revision != s.snapshot.revision;
    var specChanged := r.specRevision != s.lastSpecRevision;
    var revision := if surfaceChanged || specChanged || s.panelRevision == 0 then s.panelRevision + 1
      else s.panelRevision;
    Published(revision, r.origin.now, Panel.Project(r.next.surfaces, r.spec),
              ContentOf(r.next.surfaces, r.next.providers),
              r.specRevision, r.next.generation, r.origin.order, r.specReadAt)
  }

  function CommitRefresh(s: State, who: nat, r: Refresh): State
    requires r.HasSpec?
  {
    var p := Publication(s, r);
    s.(snapshot := r.next, panelRevision := p.revision, lastSpecRevision := r.specRevision,
       refreshes := s.refreshes - {who}, published := s.published + [p])
  }

  function Put(s: State, who: nat, r: Refresh): State {
    s.(refreshes := s.refreshes[who := r])
  }

  /** One atomic step; an action that is not enabled changes nothing. */
  function Step(s: State, a: Action): State {
    match a
    case Begin(w, surfaces, health, now) =>
      if w in s.refreshes then s
      else Put(s, w, Started(surfaces, health, Origin(now, |s.begins|, |s.published|))).(begins := s.begins + [now])
    case ApplySpec(c) => if c.Compiled? then s.(specs := s.specs + [c.spec], specLog := s.specLog + [Applied]) else s
    case ReadPrevious(w) =>
      if w in s.refreshes && s.refreshes[w].Started? then
        var r := s.refreshes[w];
        Put(s, w, HasPrevious(r.surfaces, r.health, r.origin, s.snapshot, |s.published|))
      else s
    case Compute(w) =>
      if w in s.refreshes && s.refreshes[w].HasPrevious? then
        var r := s.refreshes[w];
        Put(s, w, Computed(NewSnapshot(r.previous, r.surfaces, r.health), r.origin, r.previous, r.readAt))
      else s
    case Fail(w) => if w in s.refreshes && s.refreshes[w].HasPrevious? then s.(refreshes := s.refreshes - {w}) else s
    case ReadSpec(w) =>
      if w in s.refreshes && s.refreshes[w].Computed? then
        var r := s.refreshes[w];
        var n := |s.specs|;
        Put(s, w, HasSpec(r.next, r.origin, r.previous, r.readAt, SpecAt(s.specs, n), n, |s.specLog|))
          .(specLog := s.specLog + [Read])
      else s
    case Commit(w) =>
      if w in s.refreshes && s.refreshes[w].HasSpec? then CommitRefresh(s, w, s.refreshes[w]) else s
  }

  function Run(s: State, actions: seq<Action>): State
    decreases |actions|
  {
    if actions == [] then s else Run(Step(s, actions[0]), actions[1..])
  }

  // ----- The invariant -----

  ghost predicate Digested(s: Snapshot) {
    s.revision == Digest(ContentOf(s.surfaces, s.providers))
  }

  predicate CountsFrom(next: Snapshot, previous: Snapshot) {
    next.generation == previous.generation + if next.revision == previous.revision then 0 else 1
  }

  /** The generation and the semantic revision after the first `n` publications. */
  function GenerationAt(ps: seq<Published>, n: nat): nat
    requires n <= |ps|
  {
    if n == 0 then 0 else ps[n - 1].generation
  }

  function RevisionAt(ps: seq<Published>, n: nat): Revision
    requires n <= |ps|
  {
    if n == 0 then NoRevision else Digest(ps[n - 1].content)
  }

  /** How many specs had been applied. */
  function CountApplied(log: seq<SpecEvent>): nat {
    if log == [] then 0 else CountApplied(log[..|log| - 1]) + if log[|log| - 1] == Applied then 1 else 0
  }

  ghost predicate OriginOk(o: Origin, s: State) {
    o.order < |s.begins| && s.begins[o.order] == o.now && o.commitsBefore <= |s.published|
  }

  /** Provenance: the previous snapshot is the one that was published at `readAt`. */
  ghost predicate ComesFrom(previous: Snapshot, ps: seq<Published>, readAt: nat) {
    readAt <= |ps| && previous.generation == GenerationAt(ps, readAt) && previous.revision == RevisionAt(ps, readAt)
  }

  ghost predicate SpecReadOk(revision: nat, readAt: nat, log: seq<SpecEvent>) {
    readAt < |log| && revision == CountApplied(log[..readAt])
  }

  ghost predicate RefreshOk(r: Refresh, s: State) {
    && OriginOk(r.origin, s)
    && (!r.Started? ==> ComesFrom(r.previous, s.published, r.readAt))
    && (r.Computed? || r.HasSpec? ==> Digested(r.next) && CountsFrom(r.next, r.previous))
    && (r.HasSpec? ==> SpecReadOk(r.specRevision, r.specReadAt, s.specLog))
    && (r.HasSpec? ==> r.specRevision <= |s.specs| && r.spec == SpecAt(s.specs, r.specRevision))
  }

  /** Nothing published yet was begun, or read its spec, after a refresh that no commit has overtaken
      since it began, or since it read the previous snapshot. */
  ghost predicate Newest(r: Refresh, s: State) {
    s.published != [] ==>
      var p := s.published[|s.published| - 1];
      && (r.origin.commitsBefore == |s.published| ==> p.order < r.origin.order)
      && (r.HasSpec? && r.readAt == |s.published| ==> p.specReadAt < r.specReadAt)
  }

  /** Consecutive publications: the revision goes up by one exactly when the content or the spec
      revision changed, and otherwise the display is the same. */
  ghost predicate Follows(p: Published, q: Published) {
    if p.content == q.content && p.specRevision == q.specRevision
    then q.revision == p.revision && q.display == p.display
    else q.revision == p.revision + 1
  }

  ghost predicate Chained(ps: seq<Published>) {
    && (ps != [] ==> ps[0].revision == 1)
    && forall i :: 0 <= i < |ps| - 1 ==> Follows(ps[i], ps[i + 1])
  }

  /** The last publication is what the hub's fields hold. */
  ghost predicate LastOk(s: State) {
    if s.published == [] then s.panelRevision == 0 && s.snapshot == EMPTY && s.lastSpecRevision == 0
    else
      var p := s.published[|s.published| - 1];
      && Digested(s.snapshot) && s.lastSpecRevision <= |s.specs|
      && p.revision == s.panelRevision > 0 && p.content == ContentOf(s.snapshot.surfaces, s.snapshot.providers)
      && p.specRevision == s.lastSpecRevision && p.generation == s.snapshot.generation
      && p.display == Panel.Project(s.snapshot.surfaces, SpecAt(s.specs, s.lastSpecRevision))
      && p.order < |s.begins| && p.generatedAt == s.begins[p.order]
      && SpecReadOk(p.specRevision, p.specReadAt, s.specLog)
  }

  ghost predicate RefreshesOk(s: State) {
    forall w :: w in s.refreshes ==> RefreshOk(s.refreshes[w], s) && Newest(s.refreshes[w], s)
  }

  ghost predicate Inv(s: State) {
    Chained(s.published) && LastOk(s) && RefreshesOk(s) && |s.specs| == CountApplied(s.specLog)
  }

  // ----- Every step keeps it -----

  /** Only the histories grow. */
  ghost predicate Grows(s: State, t: State) {
    && s.specs <= t.specs && s.begins <= t.begins && s.specLog <= t.specLog && s.published <= t.published
  }

  lemma RefreshStaysOk(r: Refresh, s: State, t: State)
    requires RefreshOk(r, s) && Grows(s, t)
    ensures RefreshOk(r, t)
  {
    hide Digested, CountApplied;
    if r.HasSpec? { assert t.specLog[..r.specReadAt] == s.specLog[..r.specReadAt]; }
  }

  lemma SameContentSameView(s: Snapshot, t: Snapshot, spec: Panel.Spec)
    requires Digested(s) && Digested(t)
    ensures s.revision == t.revision <==> ContentOf(s.surfaces, s.providers) == ContentOf(t.surfaces, t.providers)
    ensures s.revision == t.revision ==> Panel.Project(s.surfaces, spec) == Panel.Project(t.surfaces, spec)
  {
    hide Panel.Project;
    if s.revision == t.revision {
      assert ContentOf(s.surfaces, s.providers).surfaces == ContentOf(t.surfaces, t.providers).surfaces;
      Panel.ProjectionReadsContentOnly(s.surfaces, t.surfaces, spec);
    }
  }

  lemma ChainNext(s: State, r: Refresh)
    requires Chained(s.published) && LastOk(s) && r.HasSpec? && RefreshOk(r, s)
    ensures Chained(s.published + [Publication(s, r)])
  {
    hide Panel.Project, ContentOf, SpecReadOk, OriginOk, ComesFrom;
    var next := s.published + [Publication(s, r)];
    if s.published != [] {
      SameContentSameView(r.next, s.snapshot, r.spec);
      assert Follows(s.published[|s.published| - 1], Publication(s, r));
    }
    forall i | 0 <= i < |next| - 1 ensures Follows(next[i], next[i + 1]) {
      if i < |s.published| - 1 { assert Follows(s.published[i], s.published[i + 1]); }
    }
  }

  lemma CommitKeepsRefreshes(s: State, who: nat)
    requires RefreshesOk(s) && who in s.refreshes && s.refreshes[who].HasSpec?
    ensures RefreshesOk(CommitRefresh(s, who, s.refreshes[who]))
  {
    hide RefreshOk, Publication;
    var next := CommitRefresh(s, who, s.refreshes[who]);
    forall w | w in next.refreshes ensures RefreshOk(next.refreshes[w], next) && Newest(next.refreshes[w], next) {
      var r := s.refreshes[w];
      assert RefreshOk(r, s);
      ReadsBefore(r, s);
      RefreshStaysOk(r, s, next);
    }
  }

  lemma ReadsBefore(r: Refresh, s: State)
    requires RefreshOk(r, s)
    ensures r.origin.commitsBefore <= |s.published| && (!r.Started? ==> r.readAt <= |s.published|)
  {
    hide Digested, CountApplied;
  }

  lemma CommitKeepsInv(s: State, who: nat)
    requires Inv(s) && who in s.refreshes && s.refreshes[who].HasSpec?
    ensures Inv(CommitRefresh(s, who, s.refreshes[who]))
  {
    hide RefreshesOk, Chained, CountApplied, Panel.Project, ContentOf;
    RefreshFacts(s, who);
    var r := s.refreshes[who];
    ChainNext(s, r);
    CommitKeepsRefreshes(s, who);
    assert LastOk(CommitRefresh(s, who, r));
  }

  lemma RefreshFacts(s: State, w: nat)
    requires Inv(s) && w in s.refreshes
    ensures RefreshOk(s.refreshes[w], s) && Newest(s.refreshes[w], s)
  {
    hide RefreshOk, Newest, Chained, LastOk;
  }

  lemma LastStaysOk(s: State, t: State)
    requires LastOk(s) && Grows(s, t) && t.published == s.published && t.snapshot == s.snapshot
    requires t.panelRevision == s.panelRevision && t.lastSpecRevision == s.lastSpecRevision
    ensures LastOk(t)
  {
    hide Panel.Project, ContentOf, Digested, CountApplied;
    if s.published != [] {
      var p := s.published[|s.published| - 1];
      assert t.specLog[..p.specReadAt] == s.specLog[..p.specReadAt];
    }
  }

  /** Steps that publish nothing: the histories grow, and at most one refresh is new. */
  lemma QuietStepKeepsInv(s: State, t: State, w: nat)
    requires Inv(s) && Grows(s, t) && t.published == s.published && t.snapshot == s.snapshot
    requires t.panelRevision == s.panelRevision && t.lastSpecRevision == s.lastSpecRevision
    requires |t.specs| == CountApplied(t.specLog)
    requires forall x :: x in t.refreshes && x != w ==> x in s.refreshes && t.refreshes[x] == s.refreshes[x]
    requires w in t.refreshes ==> RefreshOk(t.refreshes[w], t) && Newest(t.refreshes[w], t)
    ensures Inv(t)
  {
    hide LastOk, Chained, RefreshOk, Grows, CountApplied;
    LastStaysOk(s, t);
    forall x | x in t.refreshes ensures RefreshOk(t.refreshes[x], t) && Newest(t.refreshes[x], t) {
      if x != w {
        RefreshFacts(s, x);
        RefreshStaysOk(s.refreshes[x], s, t);
      }
    }
  }

  lemma BeginKeepsInv(s: State, w: nat, surfaces: seq<ApplicationSurface>, health: seq<ProviderHealth>, now: int)
    requires Inv(s) && w !in s.refreshes
    ensures Inv(Step(s, Begin(w, surfaces, health, now)))
  {
    hide Chained, RefreshesOk, CountApplied, Digested, Panel.Project, ContentOf, CommitRefresh, NewSnapshot;
    QuietStepKeepsInv(s, Step(s, Begin(w, surfaces, health, now)), w);
  }

  lemma PreviousComesFrom(s: State)
    requires LastOk(s)
    ensures ComesFrom(s.snapshot, s.published, |s.published|)
  {
    hide Panel.Project, ContentOf, CountApplied;
  }

  lemma ReadPreviousKeepsInv(s: State, w: nat)
    requires Inv(s) && w in s.refreshes && s.refreshes[w].Started?
    ensures Inv(Step(s, ReadPrevious(w)))
  {
    hide Chained, RefreshesOk, LastOk, CountApplied, Digested, Panel.Project, ContentOf, CommitRefresh, NewSnapshot,
         ComesFrom;
    RefreshFacts(s, w);
    PreviousComesFrom(s);
    QuietStepKeepsInv(s, Step(s, ReadPrevious(w)), w);
  }

  lemma NewSnapshotIsDigested(previous: Snapshot, surfaces: seq<ApplicationSurface>, health: seq<ProviderHealth>)
    ensures
      var next := NewSnapshot(previous, surfaces, health);
      Digested(next) && CountsFrom(next, previous)
  {
  }

  lemma ComputeKeepsInv(s: State, w: nat)
    requires Inv(s) && w in s.refreshes && s.refreshes[w].HasPrevious?
    ensures Inv(Step(s, Compute(w)))
  {
    hide Chained, RefreshesOk, LastOk, CountApplied, Digested, CountsFrom, Panel.Project, ContentOf, CommitRefresh,
         NewSnapshot, ComesFrom;
    RefreshFacts(s, w);
    var r := s.refreshes[w];
    NewSnapshotIsDigested(r.previous, r.surfaces, r.health);
    QuietStepKeepsInv(s, Step(s, Compute(w)), w);
  }

  lemma CountMore(log: seq<SpecEvent>, e: SpecEvent)
    ensures CountApplied(log + [e]) == CountApplied(log) + if e == Applied then 1 else 0
  {
    assert (log + [e])[..|log|] == log;
  }

  lemma ReadSpecKeepsInv(s: State, w: nat)
    requires Inv(s) && w in s.refreshes && s.refreshes[w].Computed?
    ensures Inv(Step(s, ReadSpec(w)))
  {
    hide Chained, RefreshesOk, CountApplied, Digested, CountsFrom, Panel.Project, ContentOf, CommitRefresh, NewSnapshot,
         ComesFrom;
    RefreshFacts(s, w);
    CountMore(s.specLog, Read);
    assert (s.specLog + [Read])[..|s.specLog|] == s.specLog;
    QuietStepKeepsInv(s, Step(s, ReadSpec(w)), w);
  }

  lemma ApplySpecKeepsInv(s: State, c: Compiled, w: nat)
    requires Inv(s) && c.Compiled? && w !in s.refreshes
    ensures Inv(Step(s, ApplySpec(c)))
  {
    hide Chained, RefreshesOk, LastOk, CountApplied, CommitRefresh, NewSnapshot;
    CountMore(s.specLog, Applied);
    QuietStepKeepsInv(s, Step(s, ApplySpec(c)), w);
  }

  lemma FailKeepsInv(s: State, w: nat)
    requires Inv(s)
    ensures Inv(Step(s, Fail(w)))
  {
    hide Chained, RefreshesOk, LastOk, CountApplied, CommitRefresh, NewSnapshot;
    if w in s.refreshes && s.refreshes[w].HasPrevious? { QuietStepKeepsInv(s, Step(s, Fail(w)), w); }
  }

  lemma SomeoneElse(m: map<nat, Refresh>) returns (w: nat)
    ensures w !in m
  {
    w := Above(m.Keys);
  }

  lemma {:induction false} Above(ws: set<nat>) returns (n: nat)
    ensures forall w :: w in ws ==> w < n
  {
    n := 0;
    if ws != {} {
      var x :| x in ws;
      var m := Above(ws - {x});
      n := if m > x then m else x + 1;
      assert forall w :: w in ws ==> w == x || w in ws - {x};
    }
  }

  lemma StepKeepsInv(s: State, a: Action)
    requires Inv(s)
    ensures Inv(Step(s, a))
  {
    hide Inv, NewSnapshot, CommitRefresh, Put, SpecAt;
    match a
    case Commit(w) => if w in s.refreshes && s.refreshes[w].HasSpec? { CommitKeepsInv(s, w); }
    case ApplySpec(c) =>
      if c.Compiled? {
        var w := SomeoneElse(s.refreshes);
        ApplySpecKeepsInv(s, c, w);
      }
    case Begin(w, surfaces, health, now) => if w !in s.refreshes { BeginKeepsInv(s, w, surfaces, health, now); }
    case ReadPrevious(w) => if w in s.refreshes && s.refreshes[w].Started? { ReadPreviousKeepsInv(s, w); }
    case Compute(w) => if w in s.refreshes && s.refreshes[w].HasPrevious? { ComputeKeepsInv(s, w); }
    case ReadSpec(w) => if w in s.refreshes && s.refreshes[w].Computed? { ReadSpecKeepsInv(s, w); }
    case Fail(w) => FailKeepsInv(s, w);
  }

  lemma {:induction false} RunKeepsInv(s: State, actions: seq<Action>)
    requires Inv(s)
    ensures Inv(Run(s, actions))
    decreases |actions|
  {
    hide Inv, Step;
    if actions != [] {
      StepKeepsInv(s, actions[0]);
      RunKeepsInv(Step(s, actions[0]), actions[1..]);
    }
  }

  ghost predicate Reachable(s: State) {
    exists actions :: s == Run(INIT, actions)
  }

  lemma ReachableInv(s: State)
    requires Reachable(s)
    ensures Inv(s)
  {
    hide Run, Step;
    assert Inv(INIT);
    var actions :| s == Run(INIT, actions);
    RunKeepsInv(INIT, actions);
  }

  // ----- What readers of the panel may rely on -----

  lemma {:induction false} RevisionsAscend(ps: seq<Published>, i: nat, j: nat)
    requires Chained(ps) && i <= j < |ps|
    ensures ps[i].revision <= ps[j].revision
    ensures ps[i].revision == ps[j].revision ==> ps[i].display == ps[j].display && ps[i].content == ps[j].content
    decreases j - i
  {
    if i < j {
      RevisionsAscend(ps, i, j - 1);
      assert Follows(ps[j - 1], ps[j - 1 + 1]);
    }
  }

  /** In every interleaving the published panel revision never decreases, and two publications with the
      same revision show the same cards with the same render configuration. */
  lemma PanelRevisionIdentifiesPanel(s: State, i: nat, j: nat)
    requires Reachable(s) && i <= j < |s.published|
    ensures s.published[i].revision <= s.published[j].revision
    ensures s.published[i].revision == s.published[j].revision ==> s.published[i].display == s.published[j].display
  {
    hide Chained, LastOk, RefreshesOk, CountApplied;
    ReachableInv(s);
    RevisionsAscend(s.published, i, j);
  }

  /** How often the content or the spec revision differs from that of the publication before. */
  function VisibleChanges(ps: seq<Published>): nat {
    if ps == [] then 0
    else if |ps| == 1 then 1
    else
      var p, q := ps[|ps| - 2], ps[|ps| - 1];
      VisibleChanges(ps[..|ps| - 1]) + if p.content == q.content && p.specRevision == q.specRevision then 0 else 1
  }

  lemma {:induction false} RevisionCountsChanges(ps: seq<Published>)
    requires Chained(ps) && ps != []
    ensures ps[|ps| - 1].revision == VisibleChanges(ps)
  {
    if |ps| > 1 {
      var init := ps[..|ps| - 1];
      assert Chained(init) by {
        forall i | 0 <= i < |init| - 1 ensures Follows(init[i], init[i + 1]) { assert Follows(ps[i], ps[i + 1]); }
      }
      RevisionCountsChanges(init);
      assert Follows(ps[|ps| - 2], ps[|ps| - 2 + 1]);
    }
  }

  /** The panel revision is exactly the number of changes of content or spec revision published so far. */
  lemma PanelRevisionIsExact(s: State)
    requires Reachable(s)
    ensures s.panelRevision == VisibleChanges(s.published)
  {
    hide Chained, RefreshesOk, CountApplied, Panel.Project, ContentOf;
    ReachableInv(s);
    if s.published != [] { RevisionCountsChanges(s.published); }
  }

  // ----- When exactly the generation, the spec or the observation goes back -----

  /** The generation after a commit is the one published when the refresh read the previous snapshot, plus
      one if the content published then was another.  So the commit lowers the generation exactly when
      this is below the last published one. */
  lemma GenerationLoweredExactly(s: State, who: nat)
    requires Reachable(s) && who in s.refreshes && s.refreshes[who].HasSpec?
    ensures s.refreshes[who].readAt <= |s.published|
    ensures
      var r, ps, next := s.refreshes[who], s.published, Step(s, Commit(who)).snapshot;
      var g := GenerationAt(ps, r.readAt) +
               if RevisionAt(ps, r.readAt) == Digest(ContentOf(r.next.surfaces, r.next.providers)) then 0 else 1;
      && next.generation == g && s.snapshot.generation == GenerationAt(ps, |ps|)
      && (next.generation < s.snapshot.generation <==> g < GenerationAt(ps, |ps|))
  {
    hide Chained, RefreshesOk, Panel.Project, ContentOf, CountApplied;
    ReachableInv(s);
    RefreshFacts(s, who);
  }

  /** A refresh that no other commit overtook continues the sequential chain: the generation goes up by
      one when the content changes and otherwise stays. */
  lemma GenerationWhenNotOvertaken(s: State, who: nat)
    requires Reachable(s) && who in s.refreshes && s.refreshes[who].HasSpec? && s.refreshes[who].readAt == |s.published|
    ensures
      var next := Step(s, Commit(who)).snapshot;
      next.generation == s.snapshot.generation + if next.revision == s.snapshot.revision then 0 else 1
  {
    hide Chained, RefreshesOk, Panel.Project, ContentOf, CountApplied;
    ReachableInv(s);
    RefreshFacts(s, who);
  }

  lemma {:induction false} CountGrows(log: seq<SpecEvent>, i: nat, j: nat)
    requires i <= j <= |log|
    ensures CountApplied(log[..i]) <= CountApplied(log[..j])
    ensures CountApplied(log[..i]) < CountApplied(log[..j]) <==> exists k :: i <= k < j && log[k] == Applied
    decreases j - i
  {
    if i < j {
      CountGrows(log, i, j - 1);
      assert log[..j][..j - 1] == log[..j - 1];
    }
  }

  /** A spec was applied after the refresh read the spec and before the last committed one did. */
  ghost predicate SpecAppliedBetween(s: State, r: Refresh)
    requires r.HasSpec?
  {
    s.published != [] &&
    exists k :: r.specReadAt <= k < s.published[|s.published| - 1].specReadAt && k < |s.specLog| &&
      s.specLog[k] == Applied
  }

  /** A commit lowers the shown spec revision exactly when a spec was applied between its refresh's read of
      the spec and the later read by the refresh that committed last. */
  lemma SpecLoweredExactly(s: State, who: nat)
    requires Reachable(s) && who in s.refreshes && s.refreshes[who].HasSpec?
    ensures Step(s, Commit(who)).lastSpecRevision < s.lastSpecRevision <==> SpecAppliedBetween(s, s.refreshes[who])
  {
    hide Chained, RefreshesOk, Panel.Project, ContentOf, CountApplied;
    ReachableInv(s);
    RefreshFacts(s, who);
    var r := s.refreshes[who];
    if s.published != [] {
      var p := s.published[|s.published| - 1];
      if r.specReadAt <= p.specReadAt {
        CountGrows(s.specLog, r.specReadAt, p.specReadAt);
      } else {
        CountGrows(s.specLog, p.specReadAt, r.specReadAt);
      }
    }
  }

  /** A refresh that no other commit overtook never lowers the shown spec revision. */
  lemma SpecWhenNotOvertaken(s: State, who: nat)
    requires Reachable(s) && who in s.refreshes && s.refreshes[who].HasSpec? && s.refreshes[who].readAt == |s.published|
    ensures Step(s, Commit(who)).lastSpecRevision >= s.lastSpecRevision
  {
    hide Chained, RefreshesOk, Panel.Project, ContentOf, CountApplied;
    ReachableInv(s);
    RefreshFacts(s, who);
    SpecLoweredExactly(s, who);
  }

  /** Later refreshes began at later times. */
  ghost predicate ClockAdvances(s: State) {
    forall i, j :: 0 <= i < j < |s.begins| ==> s.begins[i] < s.begins[j]
  }

  /** A commit replaces the shown observation by an older one exactly when the refresh that committed last
      began after it. */
  lemma ObservationGoesBackExactly(s: State, who: nat)
    requires Reachable(s) && who in s.refreshes && s.refreshes[who].HasSpec? && s.published != [] && ClockAdvances(s)
    ensures
      var last, next := s.published[|s.published| - 1], Step(s, Commit(who)).published[|s.published|];
      next.generatedAt < last.generatedAt <==> s.refreshes[who].origin.order < last.order
  {
    hide Chained, RefreshesOk, Panel.Project, ContentOf, CountApplied;
    ReachableInv(s);
    RefreshFacts(s, who);
  }

  /** A refresh since whose beginning nothing was committed shows a newer observation. */
  lemma ObservationWhenFirstSinceBegin(s: State, who: nat)
    requires Reachable(s) && who in s.refreshes && s.refreshes[who].HasSpec? && s.published != [] && ClockAdvances(s)
    requires s.refreshes[who].origin.commitsBefore == |s.published|
    ensures Step(s, Commit(who)).published[|s.published|].generatedAt > s.published[|s.published| - 1].generatedAt
  {
    hide Chained, RefreshesOk, Panel.Project, ContentOf, CountApplied;
    ReachableInv(s);
    RefreshFacts(s, who);
  }

  // ----- All three do go back -----

  const SPEC_X: Panel.Spec := Panel.DEFAULT_SPEC.(height := 50)

  function App(name: string): ApplicationSurface {
    ApplicationSurface("app", name, "", "", [], Status("", false, false, Normal, "", "", "", "", None, "", 0, "", 0),
                       map[], map[])
  }

  /** A whole refresh with nothing in between. */
  function Refreshed(s: State, who: nat, name: string, now: int): State {
    Run(s, [Begin(who, [App(name)], [], now), ReadPrevious(who), Compute(who), ReadSpec(who), Commit(who)])
  }

  lemma RunFive(s: State, a0: Action, a1: Action, a2: Action, a3: Action, a4: Action)
    ensures Run(s, [a0, a1, a2, a3, a4]) == Step(Step(Step(Step(Step(s, a0), a1), a2), a3), a4)
  {
    hide Step;
    assert [a0, a1, a2, a3, a4][1..] == [a1, a2, a3, a4];
    RunFour(Step(s, a0), a1, a2, a3, a4);
  }

  lemma RunFour(s: State, a0: Action, a1: Action, a2: Action, a3: Action)
    ensures Run(s, [a0, a1, a2, a3]) == Step(Step(Step(Step(s, a0), a1), a2), a3)
  {
    hide Step;
    assert [a0, a1, a2, a3][1..] == [a1, a2, a3];
    RunThree(Step(s, a0), a1, a2, a3);
  }

  lemma RunThree(s: State, a0: Action, a1: Action, a2: Action)
    ensures Run(s, [a0, a1, a2]) == Step(Step(Step(s, a0), a1), a2)
  {
    hide Step;
    assert [a0, a1, a2][1..] == [a1, a2] && [a1, a2][1..] == [a2] && [a2][1..] == [];
    assert Run(Step(Step(s, a0), a1), [a2]) == Run(Step(Step(Step(s, a0), a1), a2), []);
  }

  lemma AppContent(name: string)
    ensures CanonicalSurfaces([App(name)]) == [App(name)] && CanonicalHealth([]) == []
    ensures ContentOf([App(name)], []) == Content([App(name)], [])
  {
    assert Normalized(App(name)).windows == [];
    assert Normalized(App(name)) == App(name);
    assert [App(name)][1..] == [];
    assert Map(Normalized, [App(name)]) == [App(name)];
    assert Erased(App(name)) == App(name);
    assert Map(Erased, [App(name)]) == [App(name)];
  }

  /** The snapshot that a refresh of one application computes. */
  function Next(previous: Snapshot, name: string): Snapshot {
    var digest := Digest(Content([App(name)], []));
    Snapshot(previous.generation + (if previous.revision == digest then 0 else 1), digest, [App(name)], [])
  }

  lemma NextIs(previous: Snapshot, name: string)
    ensures NewSnapshot(previous, [App(name)], []) == Next(previous, name)
  {
    hide CanonicalSurfaces, CanonicalHealth, ContentOf, App;
    AppContent(name);
  }

  /** A refresh that has read everything and waits to commit. */
  function Waiting(s: State, name: string, now: int): Refresh {
    HasSpec(Next(s.snapshot, name), Origin(now, |s.begins|, |s.published|), s.snapshot, |s.published|,
            SpecAt(s.specs, |s.specs|), |s.specs|, |s.specLog|)
  }

  /** A refresh of one application that has begun in `s` and got as far as `r`. */
  function Underway(s: State, who: nat, now: int, r: Refresh): State {
    Put(s, who, r).(begins := s.begins + [now])
  }

  lemma UnderwayAgain(s: State, who: nat, now: int, r: Refresh, next: Refresh)
    ensures Put(Underway(s, who, now, r), who, next) == Underway(s, who, now, next)
  {
    assert s.refreshes[who := r][who := next] == s.refreshes[who := next];
  }

  lemma UnderwayReads(s: State, who: nat, now: int, r: Refresh)
    requires r.Started?
    ensures Step(Underway(s, who, now, r), ReadPrevious(who)) ==
            Underway(s, who, now, HasPrevious(r.surfaces, r.health, r.origin, s.snapshot, |s.published|))
  {
    UnderwayAgain(s, who, now, r, HasPrevious(r.surfaces, r.health, r.origin, s.snapshot, |s.published|));
  }

  lemma UnderwayComputes(s: State, who: nat, now: int, r: Refresh)
    requires r.HasPrevious?
    ensures Step(Underway(s, who, now, r), Compute(who)) ==
            Underway(s, who, now,
                     Computed(NewSnapshot(r.previous, r.surfaces, r.health), r.origin, r.previous, r.readAt))
  {
    hide NewSnapshot;
    var next := NewSnapshot(r.previous, r.surfaces, r.health);
    UnderwayAgain(s, who, now, r, Computed(next, r.origin, r.previous, r.readAt));
  }

  lemma UnderwayReadsSpec(s: State, who: nat, now: int, r: Refresh)
    requires r.Computed?
    ensures
      var n := |s.specs|;
      var next := HasSpec(r.next, r.origin, r.previous, r.readAt, SpecAt(s.specs, n), n, |s.specLog|);
      Step(Underway(s, who, now, r), ReadSpec(who)) == Underway(s, who, now, next).(specLog := s.specLog + [Read])
  {
    var n := |s.specs|;
    UnderwayAgain(s, who, now, r, HasSpec(r.next, r.origin, r.previous, r.readAt, SpecAt(s.specs, n), n, |s.specLog|));
  }

  lemma WaitingIs(s: State, who: nat, name: string, now: int)
    requires who !in s.refreshes
    ensures
      Step(Step(Step(Step(s, Begin(who, [App(name)], [], now)), ReadPrevious(who)), Compute(who)), ReadSpec(who)) ==
      Put(s, who, Waiting(s, name, now)).(begins := s.begins + [now], specLog := s.specLog + [Read])
  {
    hide NewSnapshot, CommitRefresh, Next, App, Run, SpecAt;
    var o := Origin(now, |s.begins|, |s.published|);
    assert Step(s, Begin(who, [App(name)], [], now)) == Underway(s, who, now, Started([App(name)], [], o));
    hide Step, Underway;
    WaitingFrom(s, who, name, now, o);
  }

  lemma WaitingFrom(s: State, who: nat, name: string, now: int, o: Origin)
    requires o == Origin(now, |s.begins|, |s.published|)
    ensures
      Step(Step(Step(Underway(s, who, now, Started([App(name)], [], o)), ReadPrevious(who)), Compute(who)),
           ReadSpec(who)) ==
      Underway(s, who, now, Waiting(s, name, now)).(specLog := s.specLog + [Read])
  {
    hide NewSnapshot, CommitRefresh, Next, App, Run, SpecAt, Step, Underway, Put;
    UnderwayReads(s, who, now, Started([App(name)], [], o));
    UnderwayComputes(s, who, now, HasPrevious([App(name)], [], o, s.snapshot, |s.published|));
    NextIs(s.snapshot, name);
    UnderwayReadsSpec(s, who, now, Computed(Next(s.snapshot, name), o, s.snapshot, |s.published|));
  }

  lemma CommitWaiting(s: State, who: nat, t: State, name: string, now: int)
    requires who !in s.refreshes
    requires t == Put(s, who, Waiting(s, name, now)).(begins := s.begins + [now], specLog := s.specLog + [Read])
    ensures
      var n := Step(t, Commit(who));
      && n.snapshot == Next(s.snapshot, name) && n.refreshes == s.refreshes && n.specs == s.specs
      && n.lastSpecRevision == |s.specs| && n.published != [] && n.published[|n.published| - 1].generatedAt == now
  {
    hide NewSnapshot, Next, App, Panel.Project, ContentOf;
    assert s.refreshes[who := Waiting(s, name, now)] - {who} == s.refreshes;
  }

  lemma RefreshedIs(s: State, who: nat, name: string, now: int)
    requires who !in s.refreshes
    ensures
      var n := Refreshed(s, who, name, now);
      && n.snapshot == Next(s.snapshot, name) && n.refreshes == s.refreshes && n.specs == s.specs
      && n.lastSpecRevision == |s.specs| && n.published != [] && n.published[|n.published| - 1].generatedAt == now
  {
    hide Run, Step, Next, App, Put, Waiting;
    RunFive(s, Begin(who, [App(name)], [], now), ReadPrevious(who), Compute(who), ReadSpec(who), Commit(who));
    WaitingIs(s, who, name, now);
    var t := Put(s, who, Waiting(s, name, now)).(begins := s.begins + [now], specLog := s.specLog + [Read]);
    CommitWaiting(s, who, t, name, now);
  }

  lemma {:induction false} RunAppend(s: State, a: seq<Action>, b: seq<Action>)
    ensures Run(s, a + b) == Run(Run(s, a), b)
    decreases |a|
  {
    hide Step;
    if a == [] {
      assert a + b == b;
    } else {
      assert (a + b)[1..] == a[1..] + b;
      RunAppend(Step(s, a[0]), a[1..], b);
    }
  }

  lemma ReachMore(s: State, b: seq<Action>)
    requires Reachable(s)
    ensures Reachable(Run(s, b))
  {
    hide Run, Step;
    var a :| s == Run(INIT, a);
    RunAppend(INIT, a, b);
  }

  lemma ReachRefreshed(s: State, who: nat, name: string, now: int)
    requires Reachable(s)
    ensures Reachable(Refreshed(s, who, name, now))
  {
    hide Reachable, Run, App;
    ReachMore(s, [Begin(who, [App(name)], [], now), ReadPrevious(who), Compute(who), ReadSpec(who), Commit(who)]);
  }

  /** A refresh has read the empty snapshot and the default spec and waits to commit. */
  function Begun(): State {
    Run(INIT, [Begin(0, [App("a")], [], 0), ReadPrevious(0), Compute(0), ReadSpec(0)])
  }

  lemma BegunIs()
    ensures Reachable(Begun()) && Begun() == Put(INIT, 0, Waiting(INIT, "a", 0)).(begins := [0], specLog := [Read])
  {
    hide Run, Step, App, Next, Put, Waiting;
    RunFour(INIT, Begin(0, [App("a")], [], 0), ReadPrevious(0), Compute(0), ReadSpec(0));
    WaitingIs(INIT, 0, "a", 0);
    assert [] + [0] == [0] && [] + [Read] == [Read];
  }

  /** A spec is applied and two other refreshes run before it commits. */
  function Overtaken(): State {
    Refreshed(Refreshed(Step(Begun(), ApplySpec(Compiled(SPEC_X))), 1, "b", 1), 2, "c", 2)
  }

  lemma AppliedIs()
    ensures
      var applied := Step(Begun(), ApplySpec(Compiled(SPEC_X)));
      && Reachable(applied) && applied.refreshes == map[0 := Waiting(INIT, "a", 0)] && applied.snapshot == EMPTY
      && |applied.specs| == 1
  {
    hide Run, Begun, Reachable, Waiting;
    BegunIs();
    ReachMore(Begun(), [ApplySpec(Compiled(SPEC_X))]);
    RunOne(Begun(), ApplySpec(Compiled(SPEC_X)));
  }

  lemma RunOne(s: State, a: Action)
    ensures Run(s, [a]) == Step(s, a)
  {
    hide Step;
    assert Run(s, [a]) == Run(Step(s, a), []);
  }

  lemma NamesDiffer(s: Snapshot)
    ensures Next(Next(s, "b"), "c").generation >= s.generation + 1
    ensures s.revision == NoRevision ==> Next(Next(s, "b"), "c").generation == s.generation + 2
  {
    assert App("b").name != App("c").name;
  }

  lemma OvertakenIs()
    ensures Reachable(Overtaken()) && Overtaken().refreshes == map[0 := Waiting(INIT, "a", 0)]
    ensures Overtaken().snapshot.generation == 2 && Overtaken().lastSpecRevision == 1
    ensures Overtaken().published != [] && Overtaken().published[|Overtaken().published| - 1].generatedAt == 2
  {
    hide Run, Step, Reachable, Refreshed, Waiting, Begun, Next, App;
    AppliedIs();
    var applied := Step(Begun(), ApplySpec(Compiled(SPEC_X)));
    RefreshedIs(applied, 1, "b", 1);
    ReachRefreshed(applied, 1, "b", 1);
    var first := Refreshed(applied, 1, "b", 1);
    RefreshedIs(first, 2, "c", 2);
    ReachRefreshed(first, 2, "c", 2);
    NamesDiffer(EMPTY);
  }

  lemma CommitOld(s: State)
    requires 0 in s.refreshes && s.refreshes[0] == Waiting(INIT, "a", 0)
    ensures s.refreshes[0].HasSpec?
    ensures
      var next := Step(s, Commit(0));
      && next.snapshot.generation == 1 && next.lastSpecRevision == 0 && |next.published| == |s.published| + 1
      && next.published[|s.published|].generatedAt == 0
      && (s.lastSpecRevision != 0 ==> next.panelRevision == s.panelRevision + 1)
  {
    hide Panel.Project, ContentOf, App;
  }

  /** A commit of the refresh takes back the generation, the shown spec and the observation at once, while
      the panel revision goes up. */
  ghost predicate GoesBack(s: State, who: nat) {
    && who in s.refreshes && s.refreshes[who].HasSpec? && s.published != []
    && var next := Step(s, Commit(who));
    && next.snapshot.generation < s.snapshot.generation && next.lastSpecRevision < s.lastSpecRevision
    && |next.published| == |s.published| + 1
    && next.published[|s.published|].generatedAt < s.published[|s.published| - 1].generatedAt
    && next.panelRevision == s.panelRevision + 1
  }

  /** All three can happen. */
  lemma OvertakenRefreshGoesBack()
    ensures exists s, who :: Reachable(s) && GoesBack(s, who)
  {
    hide Step, Overtaken, Reachable, Waiting;
    OvertakenIs();
    CommitOld(Overtaken());
    assert GoesBack(Overtaken(), 0);
  }

  // ----- A refresh by itself -----

  function Alone(s: State, who: nat, surfaces: seq<ApplicationSurface>, health: seq<ProviderHealth>, now: int): State {
    Step(Step(Step(Step(Step(s, Begin(who, surfaces, health, now)), ReadPrevious(who)), Compute(who)), ReadSpec(who)),
         Commit(who))
  }

  function ReadyToCommit(s: State, surfaces: seq<ApplicationSurface>, health: seq<ProviderHealth>, now: int): Refresh {
    HasSpec(NewSnapshot(s.snapshot, surfaces, health), Origin(now, |s.begins|, |s.published|), s.snapshot,
            |s.published|, SpecAt(s.specs, |s.specs|), |s.specs|, |s.specLog|)
  }

  lemma AloneUntilCommit(s: State, who: nat, surfaces: seq<ApplicationSurface>, health: seq<ProviderHealth>, now: int)
    requires who !in s.refreshes
    ensures Alone(s, who, surfaces, health, now) ==
            Step(Underway(s, who, now, ReadyToCommit(s, surfaces, health, now)).(specLog := s.specLog + [Read]),
                 Commit(who))
  {
    hide NewSnapshot, CommitRefresh, SpecAt;
    var o := Origin(now, |s.begins|, |s.published|);
    assert Step(s, Begin(who, surfaces, health, now)) == Underway(s, who, now, Started(surfaces, health, o));
    hide Step, Underway, Put;
    UnderwayReads(s, who, now, Started(surfaces, health, o));
    var r := HasPrevious(surfaces, health, o, s.snapshot, |s.published|);
    UnderwayComputes(s, who, now, r);
    UnderwayReadsSpec(s, who, now, Computed(NewSnapshot(s.snapshot, surfaces, health), o, s.snapshot, |s.published|));
  }

  /** A refresh that runs without interference publishes the snapshot of its surfaces and health over the one
      before, projected with the current spec, at its own time, under the next panel revision if the content
      or the spec changed or nothing was published yet, and under the same one otherwise. */
  lemma RefreshAlone(s: State, who: nat, surfaces: seq<ApplicationSurface>, health: seq<ProviderHealth>, now: int)
    requires who !in s.refreshes
    ensures
      var t, next, n := Alone(s, who, surfaces, health, now), NewSnapshot(s.snapshot, surfaces, health), |s.specs|;
      && t.snapshot == next && t.lastSpecRevision == n && t.specs == s.specs && t.refreshes == s.refreshes
      && t.panelRevision ==
         s.panelRevision +
         (if next.revision != s.snapshot.revision || n != s.lastSpecRevision || s.panelRevision == 0 then 1 else 0)
      && |t.published| == |s.published| + 1 && t.published[..|s.published|] == s.published
      && var p := t.published[|s.published|];
         && p.revision == t.panelRevision && p.generatedAt == now && p.generation == next.generation
         && p.specRevision == n && p.content == ContentOf(next.surfaces, next.providers)
         && p.display == Panel.Project(next.surfaces, if n == 0 then Panel.DEFAULT_SPEC else s.specs[n - 1])
  {
    hide NewSnapshot, Panel.Project, ContentOf, Alone;
    AloneUntilCommit(s, who, surfaces, health, now);
    var r := ReadyToCommit(s, surfaces, health, now);
    assert s.refreshes[who := r] - {who} == s.refreshes;
  }

  // ----- What is published -----

  /** Every publication shows its content under the spec of its revision. */
  ghost predicate Projected(s: State) {
    forall i :: 0 <= i < |s.published| ==> Shows(s.published[i], s.specs)
  }

  ghost predicate Shows(p: Published, specs: Specs) {
    p.specRevision <= |specs| && p.display == Panel.Project(p.content.surfaces, SpecAt(specs, p.specRevision))
  }

  lemma PublicationShows(s: State, r: Refresh)
    requires r.HasSpec? && r.specRevision <= |s.specs| && r.spec == SpecAt(s.specs, r.specRevision)
    ensures Shows(Publication(s, r), s.specs)
  {
    hide Panel.Project, SpecAt, Map;
    var erased := Map(Erased, r.next.surfaces);
    assert Map(Erased, erased) == erased;
    Panel.ProjectionReadsContentOnly(erased, r.next.surfaces, r.spec);
  }

  lemma StepKeepsProjected(s: State, a: Action)
    requires Inv(s) && Projected(s)
    ensures Projected(Step(s, a))
  {
    hide Panel.Project, NewSnapshot, Chained, Publication, Shows;
    match a
    case Commit(w) =>
      if w in s.refreshes && s.refreshes[w].HasSpec? { CommitShows(s, w); }
    case ApplySpec(c) => if c.Compiled? { MoreSpecsShow(s, c.spec); }
    case _ =>
  }

  lemma CommitShows(s: State, w: nat)
    requires Inv(s) && w in s.refreshes && s.refreshes[w].HasSpec?
    ensures Shows(Publication(s, s.refreshes[w]), s.specs)
  {
    hide Panel.Project, Chained, Publication, LastOk, Shows, SpecAt;
    assert RefreshOk(s.refreshes[w], s);
    PublicationShows(s, s.refreshes[w]);
  }

  lemma MoreSpecsShow(s: State, spec: Panel.Spec)
    requires Projected(s)
    ensures forall i :: 0 <= i < |s.published| ==> Shows(s.published[i], s.specs + [spec])
  {
    hide Panel.Project;
    forall i | 0 <= i < |s.published| ensures Shows(s.published[i], s.specs + [spec]) {
      assert Shows(s.published[i], s.specs);
    }
  }

  lemma {:induction false} RunKeepsProjected(s: State, actions: seq<Action>)
    requires Inv(s) && Projected(s)
    ensures Projected(Run(s, actions))
    decreases |actions|
  {
    if actions != [] {
      StepKeepsInv(s, actions[0]);
      StepKeepsProjected(s, actions[0]);
      hide Step, Inv, Projected;
      RunKeepsProjected(Step(s, actions[0]), actions[1..]);
    }
  }

  /** In every interleaving, what is published is the projection of its content under the spec of its spec
      revision, which was applied before. */
  lemma PublishedIsProjection(s: State, i: nat)
    requires Reachable(s) && i < |s.published|
    ensures
      var p := s.published[i];
      && p.specRevision <= |s.specs|
      && p.display == Panel.Project(p.content.surfaces,
                                    if p.specRevision == 0 then Panel.DEFAULT_SPEC else s.specs[p.specRevision - 1])
  {
    var actions :| s == Run(INIT, actions);
    InitInv();
    hide Run, Inv, Panel.Project;
    RunKeepsProjected(INIT, actions);
    assert Shows(s.published[i], s.specs);
  }

  lemma InitInv()
    ensures Inv(INIT) && Projected(INIT)
  {
  }
}
