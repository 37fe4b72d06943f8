/** Reconciliation of a workspace definition with an observation of the desktop: planning and evaluation
    (internal/domain/reconcile.go), and what a result means (internal/application/reconcile/reconciler.go). */
module Reconcile {
  import Text
  import opened Sorting
  import opened Workspace

  predicate Reached(o: ObservedState, id: string) {
    id in o.resources && o.resources[id].present && o.resources[id].ready
  }

  predicate ById(a: ResourceSpec, b: ResourceSpec) {
    Text.Leq(a.id, b.id)
  }

  function Ids(rs: seq<ResourceSpec>): (ids: seq<string>)
    ensures |ids| == |rs|
    ensures forall i :: 0 <= i < |rs| ==> ids[i] == rs[i].id
  {
    seq(|rs|, i requires 0 <= i < |rs| => rs[i].id)
  }

  /** The groups that planning and evaluation sort resources into. */
  datatype Group = ToEnsure | ToAwait | Required | Optional | MissingRequired | MissingOptional

  predicate In(o: ObservedState, g: Group, r: ResourceSpec) {
    match g
    case ToEnsure => !Reached(o, r.id) && !r.ownership.External?
    case ToAwait => !Reached(o, r.id) && r.ownership.External?
    case Required => r.required
    case Optional => !r.required
    case MissingRequired => r.required && !Reached(o, r.id)
    case MissingOptional => !r.required && !Reached(o, r.id)
  }

  /** The members of a group, in order. */
  function Pick(o: ObservedState, g: Group, rs: seq<ResourceSpec>): (r: seq<ResourceSpec>)
    ensures forall x :: x in r <==> x in rs && In(o, g, x)
  {
    if rs == [] then []
    else
      assert rs == rs[..|rs| - 1] + [rs[|rs| - 1]];
      Pick(o, g, rs[..|rs| - 1]) + if In(o, g, rs[|rs| - 1]) then [rs[|rs| - 1]] else []
  }

  function PickIds(o: ObservedState, g: Group, rs: seq<ResourceSpec>): seq<string> {
    if rs == [] then []
    else PickIds(o, g, rs[..|rs| - 1]) + if In(o, g, rs[|rs| - 1]) then [rs[|rs| - 1].id] else []
  }

  function Count(o: ObservedState, g: Group, rs: seq<ResourceSpec>): nat {
    if rs == [] then 0
    else Count(o, g, rs[..|rs| - 1]) + if In(o, g, rs[|rs| - 1]) then 1 else 0
  }

  lemma Nothing(o: ObservedState, g: Group)
    ensures Pick(o, g, []) == [] && PickIds(o, g, []) == [] && Count(o, g, []) == 0
  {
  }

  lemma Step(o: ObservedState, g: Group, rs: seq<ResourceSpec>, i: nat)
    requires i < |rs|
    ensures Pick(o, g, rs[..i + 1]) == Pick(o, g, rs[..i]) + if In(o, g, rs[i]) then [rs[i]] else []
    ensures PickIds(o, g, rs[..i + 1]) == PickIds(o, g, rs[..i]) + if In(o, g, rs[i]) then [rs[i].id] else []
    ensures Count(o, g, rs[..i + 1]) == Count(o, g, rs[..i]) + if In(o, g, rs[i]) then 1 else 0
  {
    assert rs[..i + 1][..i] == rs[..i];
    hide In;
  }

  // ----- Planning -----

  /** `actions` are the resources to ensure, `unmanaged` the missing ones HWS must not start. */
  datatype Plan = Plan(actions: seq<ResourceSpec>, unmanaged: seq<string>)

  function PlanFor(rs: seq<ResourceSpec>, o: ObservedState): Plan {
    Plan(Pick(o, ToEnsure, rs), PickIds(o, ToAwait, rs))
  }

  function PlanOf(d: DesiredState, o: ObservedState): Plan {
    PlanFor(Sort(ById, d.resources), o)
  }

  method BuildReconcilePlan(d: DesiredState, o: ObservedState) returns (plan: Plan)
    ensures plan == PlanOf(d, o)
  {
    hide Pick, PickIds, Count;
    var rs := Sort(ById, d.resources);
    plan := Plan([], []);
    Nothing(o, ToEnsure);
    Nothing(o, ToAwait);
    for i := 0 to |rs|
      invariant plan.actions == Pick(o, ToEnsure, rs[..i])
      invariant plan.unmanaged == PickIds(o, ToAwait, rs[..i])
    {
      var r := rs[i];
      Step(o, ToEnsure, rs, i);
      Step(o, ToAwait, rs, i);
      if r.id in o.resources && o.resources[r.id].present && o.resources[r.id].ready {
        continue;
      }
      if r.ownership.External? {
        plan := plan.(unmanaged := plan.unmanaged + [r.id]);
        continue;
      }
      plan := plan.(actions := plan.actions + [r]);
    }
    assert rs[..|rs|] == rs;
  }

  // ----- Evaluation -----

  datatype Evaluation = Evaluation(
    requiredTotal: nat, requiredReached: nat, optionalTotal: nat, optionalReached: nat,
    missingRequired: seq<string>, missingOptional: seq<string>)

  lemma {:induction false} CountParts(o: ObservedState, rs: seq<ResourceSpec>)
    ensures Count(o, MissingRequired, rs) <= Count(o, Required, rs)
    ensures Count(o, MissingOptional, rs) <= Count(o, Optional, rs)
    ensures Count(o, Required, rs) + Count(o, Optional, rs) == |rs|
  {
    if rs != [] {
      CountParts(o, rs[..|rs| - 1]);
      hide Reached;
    }
  }

  function EvaluationFor(rs: seq<ResourceSpec>, o: ObservedState): Evaluation {
    CountParts(o, rs);
    Evaluation(
      Count(o, Required, rs), Count(o, Required, rs) - Count(o, MissingRequired, rs),
      Count(o, Optional, rs), Count(o, Optional, rs) - Count(o, MissingOptional, rs),
      PickIds(o, MissingRequired, rs), PickIds(o, MissingOptional, rs))
  }

  function EvaluationOf(d: DesiredState, o: ObservedState): Evaluation {
    EvaluationFor(Sort(ById, d.resources), o)
  }

  method EvaluateReconcile(d: DesiredState, o: ObservedState) returns (e: Evaluation)
    ensures e == EvaluationOf(d, o)
  {
    hide Pick, PickIds, Count;
    var rs := Sort(ById, d.resources);
    var requiredTotal, requiredReached, optionalTotal, optionalReached := 0, 0, 0, 0;
    var missingRequired, missingOptional: seq<string> := [], [];
    forall g ensures Count(o, g, []) == 0 && PickIds(o, g, []) == [] { Nothing(o, g); }
    for i := 0 to |rs|
      invariant requiredTotal == Count(o, Required, rs[..i]) && optionalTotal == Count(o, Optional, rs[..i])
      invariant requiredReached + Count(o, MissingRequired, rs[..i]) == requiredTotal
      invariant optionalReached + Count(o, MissingOptional, rs[..i]) == optionalTotal
      invariant missingRequired == PickIds(o, MissingRequired, rs[..i])
      invariant missingOptional == PickIds(o, MissingOptional, rs[..i])
    {
      var r := rs[i];
      Step(o, Required, rs, i);
      Step(o, Optional, rs, i);
      Step(o, MissingRequired, rs, i);
      Step(o, MissingOptional, rs, i);
      var reached := r.id in o.resources && o.resources[r.id].present && o.resources[r.id].ready;
      if r.required {
        requiredTotal := requiredTotal + 1;
        if reached { requiredReached := requiredReached + 1; }
        else { missingRequired := missingRequired + [r.id]; }
        continue;
      }
      optionalTotal := optionalTotal + 1;
      if reached { optionalReached := optionalReached + 1; }
      else { missingOptional := missingOptional + [r.id]; }
    }
    assert rs[..|rs|] == rs;
    e := Evaluation(requiredTotal, requiredReached, optionalTotal, optionalReached, missingRequired, missingOptional);
  }

  // ----- What a plan and an evaluation have to do with each other -----

  /** How often a group lists an id. */
  ghost function Times(o: ObservedState, g: Group, rs: seq<ResourceSpec>, x: string): nat {
    multiset(PickIds(o, g, rs))[x]
  }

  lemma TimesOfLast(o: ObservedState, g: Group, rs: seq<ResourceSpec>, x: string)
    requires rs != []
    ensures Times(o, g, rs, x) ==
            Times(o, g, rs[..|rs| - 1], x) + if In(o, g, rs[|rs| - 1]) && rs[|rs| - 1].id == x then 1 else 0
  {
    hide In;
  }

  lemma NoTimes(o: ObservedState, x: string)
    ensures forall g :: Times(o, g, [], x) == 0
  {
  }

  lemma {:induction false} SplitTwoWays(o: ObservedState, rs: seq<ResourceSpec>, x: string)
    ensures Times(o, ToEnsure, rs, x) + Times(o, ToAwait, rs, x) ==
            Times(o, MissingRequired, rs, x) + Times(o, MissingOptional, rs, x)
  {
    hide Times, Reached;
    if rs == [] {
      NoTimes(o, x);
    } else {
      SplitTwoWays(o, rs[..|rs| - 1], x);
      TimesOfLast(o, ToEnsure, rs, x);
      TimesOfLast(o, ToAwait, rs, x);
      TimesOfLast(o, MissingRequired, rs, x);
      TimesOfLast(o, MissingOptional, rs, x);
    }
  }

  lemma {:induction false} PickIdsAreIds(o: ObservedState, g: Group, rs: seq<ResourceSpec>)
    ensures Ids(Pick(o, g, rs)) == PickIds(o, g, rs) && |PickIds(o, g, rs)| == Count(o, g, rs)
  {
    if rs != [] { PickIdsAreIds(o, g, rs[..|rs| - 1]); }
  }

  /** The plan acts on, or waits for, exactly the resources that the evaluation of the same observation
      reports missing. */
  lemma PlanCoversMissing(d: DesiredState, o: ObservedState)
    ensures multiset(Ids(PlanOf(d, o).actions) + PlanOf(d, o).unmanaged) ==
            multiset(EvaluationOf(d, o).missingRequired + EvaluationOf(d, o).missingOptional)
  {
    var rs := Sort(ById, d.resources);
    PickIdsAreIds(o, ToEnsure, rs);
    hide Pick, PickIds, Count, In;
    var missing := EvaluationOf(d, o).missingRequired + EvaluationOf(d, o).missingOptional;
    forall x ensures multiset(Ids(PlanOf(d, o).actions) + PlanOf(d, o).unmanaged)[x] == multiset(missing)[x] {
      SplitTwoWays(o, rs, x);
    }
  }

  lemma ByIdIsOrder(rs: seq<ResourceSpec>)
    requires DistinctIds(rs)
    ensures TotalPreorderOn(ById, rs) && TieFreeOn(ById, rs)
  {
    Text.LeqIsTotalOrder();
    forall x, y | x in rs && y in rs && ById(x, y) && ById(y, x) ensures x == y {
      var i :| 0 <= i < |rs| && rs[i] == x;
      var j :| 0 <= j < |rs| && rs[j] == y;
      assert rs[i].id == rs[j].id;
    }
  }

  /** The order in which a definition lists its resources does not matter. */
  lemma ResourceOrderIsIrrelevant(d: DesiredState, rs: seq<ResourceSpec>, o: ObservedState)
    requires Valid(d) && multiset(rs) == multiset(d.resources)
    ensures PlanOf(d.(resources := rs), o) == PlanOf(d, o)
    ensures EvaluationOf(d.(resources := rs), o) == EvaluationOf(d, o)
  {
    ByIdIsOrder(d.resources);
    SortCanonical(ById, d.resources, rs);
    hide Sort, PlanFor, EvaluationFor, ById;
  }

  // ----- Results -----

  datatype Failure = Failure(resourceId: string, code: string)

  datatype Status = Inactive | Preparing | Active | Degraded | Recovering | Closing | Failed

  datatype Result = Result(observed: ObservedState, evaluation: Evaluation, failures: seq<Failure>)

  function TargetStatus(e: Evaluation): Status {
    if e.requiredTotal == 0 || e.requiredReached == e.requiredTotal then Active
    else if e.requiredReached > 0 then Degraded
    else Failed
  }

  function FailureCode(e: Evaluation, failures: seq<Failure>): string {
    if |failures| > 0 then failures[0].code
    else if |e.missingRequired| > 0 then "required_resource_unreached"
    else ""
  }

  ghost predicate AllRequiredReached(rs: seq<ResourceSpec>, o: ObservedState) {
    forall r :: r in rs && r.required ==> Reached(o, r.id)
  }

  ghost predicate SomeRequiredReached(rs: seq<ResourceSpec>, o: ObservedState) {
    exists r :: r in rs && r.required && Reached(o, r.id)
  }

  lemma NothingRequired(o: ObservedState)
    ensures Count(o, MissingRequired, []) == 0 == Count(o, Required, [])
    ensures AllRequiredReached([], o) && !SomeRequiredReached([], o)
  {
  }

  lemma RequiredNext(rs: seq<ResourceSpec>, o: ObservedState, n: nat)
    requires n + 1 == |rs|
    ensures AllRequiredReached(rs, o) <==> AllRequiredReached(rs[..n], o) && (rs[n].required ==> Reached(o, rs[n].id))
    ensures SomeRequiredReached(rs, o) <==> SomeRequiredReached(rs[..n], o) || (rs[n].required && Reached(o, rs[n].id))
  {
    hide Reached;
    assert rs == rs[..n] + [rs[n]];
    assert forall x :: x in rs <==> x in rs[..n] || x == rs[n];
  }

  lemma {:induction false} CountsMeanQuantifiers(rs: seq<ResourceSpec>, o: ObservedState)
    ensures Count(o, MissingRequired, rs) == 0 <==> AllRequiredReached(rs, o)
    ensures Count(o, MissingRequired, rs) < Count(o, Required, rs) <==> SomeRequiredReached(rs, o)
  {
    hide Pick, PickIds, Count, Reached, AllRequiredReached, SomeRequiredReached;
    if rs == [] {
      NothingRequired(o);
    } else {
      var n := |rs| - 1;
      CountsMeanQuantifiers(rs[..n], o);
      CountParts(o, rs[..n]);
      assert rs[..n + 1] == rs;
      RequiredNext(rs, o, n);
      Step(o, Required, rs, n);
      Step(o, MissingRequired, rs, n);
    }
  }

  /** What the status of an evaluated workspace means, and that it never stays silent: without ensure
      failures there is a failure code exactly when the workspace is not active. */
  lemma StatusMeaning(d: DesiredState, o: ObservedState)
    ensures EvaluationOf(d, o).requiredReached <= EvaluationOf(d, o).requiredTotal
    ensures TargetStatus(EvaluationOf(d, o)) == Active <==> AllRequiredReached(d.resources, o)
    ensures TargetStatus(EvaluationOf(d, o)) == Degraded <==>
              SomeRequiredReached(d.resources, o) && !AllRequiredReached(d.resources, o)
    ensures TargetStatus(EvaluationOf(d, o)) == Failed <==>
              !SomeRequiredReached(d.resources, o) && !AllRequiredReached(d.resources, o)
    ensures FailureCode(EvaluationOf(d, o), []) == "" <==> TargetStatus(EvaluationOf(d, o)) == Active
  {
    var rs := Sort(ById, d.resources);
    MembersOfPermutation(d.resources, rs);
    CountParts(o, rs);
    PickIdsAreIds(o, MissingRequired, rs);
    CountsMeanQuantifiers(rs, o);
    assert AllRequiredReached(rs, o) <==> AllRequiredReached(d.resources, o);
    assert SomeRequiredReached(rs, o) <==> SomeRequiredReached(d.resources, o);
    hide Pick, PickIds, Count, Reached, AllRequiredReached, SomeRequiredReached;
  }

  // ----- What a plan and an evaluation say -----

  /** Each id once, in ascending order. */
  ghost predicate Ascending(ids: seq<string>) {
    forall i, j :: 0 <= i < j < |ids| ==> ids[i] != ids[j] && Text.Leq(ids[i], ids[j])
  }

  lemma SortedAscend(rs: seq<ResourceSpec>)
    requires DistinctIds(rs)
    ensures Ascending(Ids(Sort(ById, rs)))
  {
    var sorted := Sort(ById, rs);
    ByIdIsOrder(rs);
    SortIsSorted(ById, rs);
    MembersOfPermutation(rs, sorted);
    NoDupPermutation(rs, sorted);
    forall i, j | 0 <= i < j < |sorted| ensures sorted[i].id != sorted[j].id && Text.Leq(sorted[i].id, sorted[j].id) {
      assert ById(sorted[i], sorted[j]) && sorted[i] in rs && sorted[j] in rs;
      var k :| 0 <= k < |rs| && rs[k] == sorted[i];
      var l :| 0 <= l < |rs| && rs[l] == sorted[j];
      assert k != l;
    }
  }

  lemma NothingAscends()
    ensures Ascending(Ids([]))
  {
  }

  lemma LastIsGreatest(rs: seq<ResourceSpec>)
    requires rs != [] && Ascending(Ids(rs))
    ensures Ascending(Ids(rs[..|rs| - 1]))
    ensures forall r :: r in rs[..|rs| - 1] ==> r.id != rs[|rs| - 1].id && Text.Leq(r.id, rs[|rs| - 1].id)
  {
    hide Text.Leq;
    var n, init := |rs| - 1, rs[..|rs| - 1];
    assert Ids(rs)[..n] == Ids(init);
    forall r | r in init ensures r.id != rs[n].id && Text.Leq(r.id, rs[n].id) {
      var k :| 0 <= k < n && init[k] == r;
      assert Ids(rs)[k] == r.id && Ids(rs)[n] == rs[n].id;
    }
  }

  lemma AscendsOneMore(rs: seq<ResourceSpec>, r: ResourceSpec)
    requires Ascending(Ids(rs)) && forall x :: x in rs ==> x.id != r.id && Text.Leq(x.id, r.id)
    ensures Ascending(Ids(rs + [r]))
  {
    hide Text.Leq;
    assert Ids(rs + [r]) == Ids(rs) + [r.id];
    forall i | 0 <= i < |rs| ensures Ids(rs)[i] != r.id && Text.Leq(Ids(rs)[i], r.id) { assert rs[i] in rs; }
  }

  lemma {:induction false} PickAscends(o: ObservedState, g: Group, rs: seq<ResourceSpec>)
    requires Ascending(Ids(rs))
    ensures Ascending(Ids(Pick(o, g, rs)))
  {
    hide In, Ascending, Text.Leq;
    if rs == [] {
      NothingAscends();
    } else {
      var n := |rs| - 1;
      LastIsGreatest(rs);
      PickAscends(o, g, rs[..n]);
      if In(o, g, rs[n]) {
        AscendsOneMore(Pick(o, g, rs[..n]), rs[n]);
      } else {
        assert Pick(o, g, rs) == Pick(o, g, rs[..n]);
      }
    }
  }

  ghost function Members(o: ObservedState, g: Group, rs: seq<ResourceSpec>): set<ResourceSpec> {
    set r | r in rs && In(o, g, r)
  }

  lemma LastIsNew(rs: seq<ResourceSpec>)
    requires rs != [] && Ascending(Ids(rs))
    ensures Ascending(Ids(rs[..|rs| - 1])) && rs[|rs| - 1] !in rs[..|rs| - 1]
  {
    LastIsGreatest(rs);
  }

  lemma MembersNext(o: ObservedState, g: Group, rs: seq<ResourceSpec>)
    requires rs != [] && rs[|rs| - 1] !in rs[..|rs| - 1]
    ensures |Members(o, g, rs)| == |Members(o, g, rs[..|rs| - 1])| + if In(o, g, rs[|rs| - 1]) then 1 else 0
  {
    hide In, Reached;
    var init, r := rs[..|rs| - 1], rs[|rs| - 1];
    assert rs == init + [r];
    assert Members(o, g, rs) == Members(o, g, init) + if In(o, g, r) then {r} else {};
  }

  lemma {:induction false} CountIsSize(o: ObservedState, g: Group, rs: seq<ResourceSpec>)
    requires Ascending(Ids(rs))
    ensures Count(o, g, rs) == |Members(o, g, rs)|
  {
    hide In, Ascending;
    if rs == [] {
      assert Members(o, g, rs) == {};
    } else {
      LastIsNew(rs);
      CountIsSize(o, g, rs[..|rs| - 1]);
      MembersNext(o, g, rs);
    }
  }

  /** The plan starts exactly the resources that are not reached and not external, in the order of their
      ids, and names those that are not reached and external. */
  lemma PlanMeaning(d: DesiredState, o: ObservedState)
    requires DistinctIds(d.resources)
    ensures forall r :: r in PlanOf(d, o).actions <==> r in d.resources && !Reached(o, r.id) && r.ownership != External
    ensures forall id :: id in PlanOf(d, o).unmanaged <==>
              exists r :: r in d.resources && r.id == id && !Reached(o, r.id) && r.ownership == External
    ensures Ascending(Ids(PlanOf(d, o).actions)) && Ascending(PlanOf(d, o).unmanaged)
  {
    hide Reached, Sort;
    var rs := Sort(ById, d.resources);
    MembersOfPermutation(d.resources, rs);
    SortedAscend(d.resources);
    PickAscends(o, ToEnsure, rs);
    PickAscends(o, ToAwait, rs);
    IdsPicked(o, ToAwait, rs);
  }

  lemma IdsPicked(o: ObservedState, g: Group, rs: seq<ResourceSpec>)
    ensures PickIds(o, g, rs) == Ids(Pick(o, g, rs))
    ensures forall id :: id in PickIds(o, g, rs) <==> exists r :: r in rs && r.id == id && In(o, g, r)
  {
    hide In;
    PickIdsAreIds(o, g, rs);
    var picked := Pick(o, g, rs);
    forall id ensures id in Ids(picked) <==> exists r :: r in rs && r.id == id && In(o, g, r) {
      if id in Ids(picked) {
        var i :| 0 <= i < |picked| && Ids(picked)[i] == id;
        assert picked[i] in picked;
      }
      if r :| r in rs && r.id == id && In(o, g, r) {
        var i :| 0 <= i < |picked| && picked[i] == r;
        assert Ids(picked)[i] == id;
      }
    }
  }

  /** The evaluation counts the required and the optional resources and those of them that are reached, and
      lists the others by id. */
  lemma EvaluationMeaning(d: DesiredState, o: ObservedState)
    requires DistinctIds(d.resources)
    ensures
      var e := EvaluationOf(d, o);
      && e.requiredTotal == |set r | r in d.resources && r.required|
      && e.optionalTotal == |set r | r in d.resources && !r.required|
      && e.requiredReached + |set r | r in d.resources && r.required && !Reached(o, r.id)| == e.requiredTotal
      && e.optionalReached + |set r | r in d.resources && !r.required && !Reached(o, r.id)| == e.optionalTotal
    ensures Ascending(EvaluationOf(d, o).missingRequired) && Ascending(EvaluationOf(d, o).missingOptional)
    ensures forall id :: id in EvaluationOf(d, o).missingRequired <==>
              exists r :: r in d.resources && r.id == id && r.required && !Reached(o, r.id)
    ensures forall id :: id in EvaluationOf(d, o).missingOptional <==>
              exists r :: r in d.resources && r.id == id && !r.required && !Reached(o, r.id)
  {
    hide Reached, Sort, Pick, PickIds, Count, Ascending;
    var rs := Sort(ById, d.resources);
    MembersOfPermutation(d.resources, rs);
    SortedAscend(d.resources);
    CountParts(o, rs);
    CountsAre(d, o, rs);
    PickAscends(o, MissingRequired, rs);
    PickAscends(o, MissingOptional, rs);
    IdsPicked(o, MissingRequired, rs);
    IdsPicked(o, MissingOptional, rs);
  }

  lemma CountsAre(d: DesiredState, o: ObservedState, rs: seq<ResourceSpec>)
    requires Ascending(Ids(rs)) && forall r :: r in rs <==> r in d.resources
    ensures Count(o, Required, rs) == |set r | r in d.resources && r.required|
    ensures Count(o, Optional, rs) == |set r | r in d.resources && !r.required|
    ensures Count(o, MissingRequired, rs) == |set r | r in d.resources && r.required && !Reached(o, r.id)|
    ensures Count(o, MissingOptional, rs) == |set r | r in d.resources && !r.required && !Reached(o, r.id)|
  {
    hide Reached, Count, Ascending;
    CountIsSize(o, Required, rs);
    CountIsSize(o, Optional, rs);
    CountIsSize(o, MissingRequired, rs);
    CountIsSize(o, MissingOptional, rs);
    assert Members(o, Required, rs) == set r | r in d.resources && r.required;
    assert Members(o, Optional, rs) == set r | r in d.resources && !r.required;
    assert Members(o, MissingRequired, rs) == set r | r in d.resources && r.required && !Reached(o, r.id);
    assert Members(o, MissingOptional, rs) == set r | r in d.resources && !r.required && !Reached(o, r.id);
  }
}
