/** The shell action broker (internal/shellaction/broker.go) as a protocol of atomic steps.

    A Request registers a channel under the mutex, emits, waits, and in the end runs its deferred
    cleanup; a Complete looks the channel up under the mutex and sends on it later, without the mutex.
    Any interleaving of these steps is a run. */
module Broker {
  import Text
  import opened Workspace

  const SCHEMA_VERSION: nat := 1

  datatype Kind = EnsureDesktopApp | CloseWindow | PlaceWindow | OtherKind(name: string)

  datatype Request = Request(
    id: string, kind: Kind, workspaceId: string, resourceId: string, desktopAppId: string, windowId: string,
    topologyRevision: string, monitorRef: string, monitorIndex: int, targetWorkspace: int, rect: LogicalRect)

  datatype Result = Result(schema: nat, id: string, success: bool, changed: bool, code: string, message: string)

  /** validateRequest; the schema field is always set by the broker itself. */
  predicate ValidRequest(r: Request) {
    && !Text.Blank(r.id) && !Text.Blank(r.workspaceId) && !Text.Blank(r.resourceId)
    && match r.kind
       case EnsureDesktopApp => !Text.Blank(r.desktopAppId)
       case CloseWindow => !Text.Blank(r.windowId)
       case PlaceWindow =>
         !Text.Blank(r.windowId) && !Text.Blank(r.topologyRevision) && !Text.Blank(r.monitorRef) &&
         r.monitorIndex >= 0 && r.targetWorkspace >= 0 && r.rect.Valid()
       case OtherKind(_) => false
  }

  predicate ValidResult(r: Result) {
    r.schema == SCHEMA_VERSION && !Text.Blank(r.id)
  }

  // ----- States and steps -----

  datatype Outcome = Got(result: Result) | EmitFailed | TimedOut | Cancelled

  /** Ended: the return value is chosen, the deferred cleanup has not run yet. */
  datatype Phase = Emitting | Waiting | Ended(outcome: Outcome) | Done(outcome: Outcome)

  datatype Call = Call(id: string, phase: Phase)

  /** A Complete between its lookup and its send: the channel it found, and when (`at` channels existed). */
  datatype Sender = Sender(channel: nat, result: Result, at: nat)

  datatype Accepted = Accepted(result: Result, at: nat)

  /** Channels are numbered in the order of registration; call `n` owns channel `n`.  `accepted` is
      history: the results accepted on each channel so far. */
  datatype State = State(
    pending: map<string, nat>, calls: seq<Call>, buffers: seq<seq<Result>>, accepted: seq<seq<Accepted>>,
    senders: map<nat, Sender>)

  datatype Action =
    | Register(request: Request, emitterSet: bool)
    | Emit(n: nat, ok: bool)
    | Receive(n: nat)
    | Timeout(n: nat)
    | Cancel(n: nat)
    | Cleanup(n: nat)
    | LookUp(who: nat, result: Result)
    | Send(who: nat)

  const INIT: State := State(map[], [], [], [], map[])

  predicate InPhase(s: State, n: nat, p: Phase) {
    n < |s.calls| && s.calls[n].phase == p
  }

  function SetPhase(s: State, n: nat, p: Phase): State
    requires n < |s.calls|
  {
    s.(calls := s.calls[n := s.calls[n].(phase := p)])
  }

  predicate Shaped(s: State) {
    |s.calls| == |s.buffers| == |s.accepted| && forall w :: w in s.senders ==> s.senders[w].channel < |s.calls|
  }

  /** One atomic step; an action that is not enabled changes nothing. */
  function Step(s: State, a: Action): (next: State)
    requires Shaped(s)
    ensures Shaped(next)
  {
    match a
    case Register(r, emitterSet) =>
      if !ValidRequest(r) || !emitterSet || r.id in s.pending then s
      else s.(pending := s.pending[r.id := |s.calls|], calls := s.calls + [Call(r.id, Emitting)],
              buffers := s.buffers + [[]], accepted := s.accepted + [[]])
    case Emit(n, ok) =>
      if InPhase(s, n, Emitting) then SetPhase(s, n, if ok then Waiting else Ended(EmitFailed)) else s
    case Receive(n) =>
      if InPhase(s, n, Waiting) && s.buffers[n] != [] then
        SetPhase(s.(buffers := s.buffers[n := s.buffers[n][1..]]), n, Ended(Got(s.buffers[n][0])))
      else s
    case Timeout(n) => if InPhase(s, n, Waiting) then SetPhase(s, n, Ended(TimedOut)) else s
    case Cancel(n) => if InPhase(s, n, Waiting) then SetPhase(s, n, Ended(Cancelled)) else s
    case Cleanup(n) =>
      if n < |s.calls| && s.calls[n].phase.Ended? then
        SetPhase(s, n, Done(s.calls[n].phase.outcome)).(pending := s.pending - {s.calls[n].id})
      else s
    case LookUp(w, r) =>
      if ValidResult(r) && r.id in s.pending && s.pending[r.id] < |s.calls| && w !in s.senders then
        s.(senders := s.senders[w := Sender(s.pending[r.id], r, |s.calls|)])
      else s
    case Send(w) =>
      if w !in s.senders then s
      else
        var x := s.senders[w];
        var rest := s.(senders := s.senders - {w});
        if s.buffers[x.channel] != [] then rest
        else rest.(buffers := s.buffers[x.channel := [x.result]],
                   accepted := s.accepted[x.channel := s.accepted[x.channel] + [Accepted(x.result, x.at)]])
  }

  function Run(s: State, actions: seq<Action>): (next: State)
    requires Shaped(s)
    ensures Shaped(next)
    decreases |actions|
  {
    if actions == [] then s else Run(Step(s, actions[0]), actions[1..])
  }

  // ----- The invariant -----

  predicate InFlight(s: State, n: nat) {
    n < |s.calls| && !s.calls[n].phase.Done?
  }

  /** `pending` holds exactly the in-flight ids, each with the channel of its own call. */
  ghost predicate PendingIsInFlight(s: State) {
    && (forall id :: id in s.pending ==> InFlight(s, s.pending[id]) && s.calls[s.pending[id]].id == id)
    && (forall n: nat :: InFlight(s, n) ==> s.calls[n].id in s.pending && s.pending[s.calls[n].id] == n)
  }

  function OutcomeOf(c: Call): (o: seq<Outcome>)
    ensures |o| <= 1
  {
    if c.phase.Ended? || c.phase.Done? then [c.phase.outcome] else []
  }

  function Results(xs: seq<Accepted>): (rs: seq<Result>)
    ensures |rs| == |xs| && forall i :: 0 <= i < |xs| ==> rs[i] == xs[i].result
  {
    seq(|xs|, i requires 0 <= i < |xs| => xs[i].result)
  }

  /** What was accepted on the channel of a call is what it consumed, then what is still buffered;
      every accepted result carries the call's id and was looked up after the call registered. */
  ghost predicate ChannelOk(c: Call, n: nat, buffer: seq<Result>, accepted: seq<Accepted>) {
    && |buffer| <= 1
    && Results(accepted) == (if c.phase.Ended? || c.phase.Done? then ConsumedBy(c.phase.outcome) else []) + buffer
    && forall i :: 0 <= i < |accepted| ==> accepted[i].result.id == c.id && n < accepted[i].at
  }

  function ConsumedBy(o: Outcome): seq<Result> {
    if o.Got? then [o.result] else []
  }

  ghost predicate SendersOk(s: State)
    requires Shaped(s)
  {
    forall w :: w in s.senders ==>
      s.senders[w].result.id == s.calls[s.senders[w].channel].id && s.senders[w].channel < s.senders[w].at
  }

  ghost predicate ChannelsOk(s: State)
    requires Shaped(s)
  {
    forall n :: 0 <= n < |s.calls| ==> ChannelOk(s.calls[n], n, s.buffers[n], s.accepted[n])
  }

  ghost predicate Inv(s: State) {
    Shaped(s) && PendingIsInFlight(s) && ChannelsOk(s) && SendersOk(s)
  }

  lemma RegisterKeepsPending(s: State, r: Request)
    requires Inv(s) && r.id !in s.pending
    ensures PendingIsInFlight(s.(pending := s.pending[r.id := |s.calls|], calls := s.calls + [Call(r.id, Emitting)]))
  {
    hide ChannelsOk, SendersOk;
    var next := s.(pending := s.pending[r.id := |s.calls|], calls := s.calls + [Call(r.id, Emitting)]);
    forall n: nat | InFlight(next, n) ensures next.calls[n].id in next.pending && next.pending[next.calls[n].id] == n {
      if n < |s.calls| { assert InFlight(s, n); }
    }
    forall id | id in next.pending ensures InFlight(next, next.pending[id]) && next.calls[next.pending[id]].id == id {
      if id in s.pending && id != r.id { assert InFlight(s, s.pending[id]); }
    }
  }

  /** The deferred cleanup removes the call's own entry and no other. */
  lemma CleanupKeepsPending(s: State, n: nat, o: Outcome)
    requires Inv(s) && InPhase(s, n, Ended(o))
    ensures PendingIsInFlight(SetPhase(s, n, Done(o)).(pending := s.pending - {s.calls[n].id}))
  {
    hide ChannelsOk, SendersOk;
    assert InFlight(s, n);
    var next := SetPhase(s, n, Done(o)).(pending := s.pending - {s.calls[n].id});
    forall m: nat | InFlight(next, m) ensures next.calls[m].id in next.pending && next.pending[next.calls[m].id] == m {
      assert InFlight(s, m);
    }
  }

  ghost predicate SameFlights(s: State, next: State) {
    && next.pending == s.pending && |next.calls| == |s.calls|
    && forall m: nat :: m < |s.calls| ==>
         next.calls[m].id == s.calls[m].id && (next.calls[m].phase.Done? <==> s.calls[m].phase.Done?)
  }

  lemma SameFlightsKeepPending(s: State, next: State)
    requires PendingIsInFlight(s) && SameFlights(s, next)
    ensures PendingIsInFlight(next)
  {
    forall m: nat ensures InFlight(next, m) <==> InFlight(s, m) { }
  }

  lemma StepKeepsPending(s: State, a: Action)
    requires Inv(s)
    ensures PendingIsInFlight(Step(s, a))
  {
    hide ValidRequest, ValidResult, PendingIsInFlight, ChannelsOk, SendersOk;
    if a.Register? && ValidRequest(a.request) && a.emitterSet && a.request.id !in s.pending {
      RegisterKeepsPending(s, a.request);
      SamePending(Step(s, a), s.(pending := s.pending[a.request.id := |s.calls|],
                                 calls := s.calls + [Call(a.request.id, Emitting)]));
    } else if a.Cleanup? && a.n < |s.calls| && s.calls[a.n].phase.Ended? {
      CleanupKeepsPending(s, a.n, s.calls[a.n].phase.outcome);
    } else {
      assert SameFlights(s, Step(s, a));
      SameFlightsKeepPending(s, Step(s, a));
    }
  }

  lemma SamePending(s: State, t: State)
    requires s.pending == t.pending && s.calls == t.calls && PendingIsInFlight(t)
    ensures PendingIsInFlight(s)
  {
    forall m: nat ensures InFlight(s, m) <==> InFlight(t, m) { }
  }

  lemma SendKeepsChannels(s: State, w: nat)
    requires Inv(s)
    ensures ChannelsOk(Step(s, Send(w)))
  {
    if w in s.senders && s.buffers[s.senders[w].channel] == [] {
      var x, next := s.senders[w], Step(s, Send(w));
      var c, more := x.channel, s.accepted[x.channel] + [Accepted(x.result, x.at)];
      assert ChannelOk(s.calls[c], c, s.buffers[c], s.accepted[c]);
      assert Results(more) == Results(s.accepted[c]) + [x.result];
      assert ChannelOk(s.calls[c], c, [x.result], more);
    }
  }

  lemma ReceiveKeepsChannels(s: State, n: nat)
    requires Inv(s)
    ensures ChannelsOk(Step(s, Receive(n)))
  {
    if InPhase(s, n, Waiting) && s.buffers[n] != [] {
      assert ChannelOk(s.calls[n], n, s.buffers[n], s.accepted[n]);
      assert [s.buffers[n][0]] + s.buffers[n][1..] == s.buffers[n];
    }
  }

  lemma StepKeepsChannels(s: State, a: Action)
    requires Inv(s)
    ensures ChannelsOk(Step(s, a))
  {
    hide PendingIsInFlight, SendersOk, Text.Blank;
    match a
    case Send(w) => SendKeepsChannels(s, w);
    case Receive(n) => ReceiveKeepsChannels(s, n);
    case _ =>
      var next := Step(s, a);
      forall n | 0 <= n < |next.calls| ensures ChannelOk(next.calls[n], n, next.buffers[n], next.accepted[n]) {
        if n < |s.calls| { assert ChannelOk(s.calls[n], n, s.buffers[n], s.accepted[n]); }
      }
  }

  lemma StepKeepsSenders(s: State, a: Action)
    requires Inv(s)
    ensures SendersOk(Step(s, a))
  {
    hide ChannelOk, Text.Blank;
  }

  lemma StepKeepsInv(s: State, a: Action)
    requires Inv(s)
    ensures Inv(Step(s, a))
  {
    StepKeepsPending(s, a);
    StepKeepsChannels(s, a);
    StepKeepsSenders(s, a);
    hide Step, PendingIsInFlight, ChannelsOk, SendersOk;
  }

  lemma {:induction false} RunKeepsInv(s: State, actions: seq<Action>)
    requires Inv(s)
    ensures Inv(Run(s, actions))
    decreases |actions|
  {
    if actions != [] {
      StepKeepsInv(s, actions[0]);
      hide Step, Inv;
      RunKeepsInv(Step(s, actions[0]), actions[1..]);
    }
  }

  /** Every state that some interleaving of requests, completions, timeouts and cancellations reaches. */
  ghost predicate Reachable(s: State) {
    exists actions :: s == Run(INIT, actions)
  }

  lemma ReachableInv(s: State)
    requires Reachable(s)
    ensures Inv(s)
  {
    var actions :| s == Run(INIT, actions);
    assert Inv(INIT);
    hide Inv;
    RunKeepsInv(INIT, actions);
  }

  // ----- What the protocol guarantees -----

  /** `pending` maps exactly the ids of the calls in flight, each to its own channel; in particular no
      two calls in flight share an id, and when every call is done `pending` is empty. */
  lemma PendingIsExact(s: State)
    requires Reachable(s)
    ensures forall id :: id in s.pending <==> exists n: nat :: InFlight(s, n) && s.calls[n].id == id
    ensures forall n: nat, m: nat :: InFlight(s, n) && InFlight(s, m) && s.calls[n].id == s.calls[m].id ==> n == m
    ensures (forall n: nat :: !InFlight(s, n)) ==> s.pending == map[]
  {
    ReachableInv(s);
    hide ChannelsOk, SendersOk, Reachable;
    forall n: nat, m: nat | InFlight(s, n) && InFlight(s, m) && s.calls[n].id == s.calls[m].id ensures n == m {
      assert s.pending[s.calls[n].id] == n;
    }
  }

  /** A call consumes at most one result: its own id's, the first one accepted on its channel, and one
      whose completion was looked up after the call registered. */
  lemma ConsumedIsFirstAccepted(s: State, n: nat, r: Result)
    requires Reachable(s) && n < |s.calls| && Got(r) in OutcomeOf(s.calls[n])
    ensures Shaped(s) && |s.accepted[n]| >= 1
    ensures s.accepted[n][0].result == r && r.id == s.calls[n].id && n < s.accepted[n][0].at
    ensures |s.accepted[n]| <= 2
  {
    ReachableInv(s);
    hide PendingIsInFlight, SendersOk, Reachable;
    assert ChannelOk(s.calls[n], n, s.buffers[n], s.accepted[n]);
    assert Results(s.accepted[n])[0] == r;
  }

  /** Once a call's return value is chosen it never changes. */
  lemma {:induction false} OutcomeIsFinal(s: State, actions: seq<Action>, n: nat)
    requires Shaped(s) && n < |s.calls| && OutcomeOf(s.calls[n]) != []
    ensures n < |Run(s, actions).calls| && OutcomeOf(Run(s, actions).calls[n]) == OutcomeOf(s.calls[n])
    ensures Run(s, actions).calls[n].id == s.calls[n].id
    decreases |actions|
  {
    if actions != [] {
      OutcomeStaysOneStep(s, actions[0], n);
      hide Step;
      OutcomeIsFinal(Step(s, actions[0]), actions[1..], n);
    }
  }

  lemma OutcomeStaysOneStep(s: State, a: Action, n: nat)
    requires Shaped(s) && n < |s.calls| && OutcomeOf(s.calls[n]) != []
    ensures n < |Step(s, a).calls| && OutcomeOf(Step(s, a).calls[n]) == OutcomeOf(s.calls[n])
    ensures Step(s, a).calls[n].id == s.calls[n].id
  {
    hide ValidRequest, ValidResult;
  }

  /** The deferred cleanup of one call leaves every other call in flight registered. */
  lemma CleanupIsLocal(s: State, n: nat, m: nat)
    requires Reachable(s) && InFlight(s, m) && m != n
    ensures Shaped(s)
    ensures var next := Step(s, Cleanup(n));
            s.calls[m].id in next.pending && next.pending[s.calls[m].id] == m
  {
    ReachableInv(s);
    hide ChannelsOk, SendersOk, Reachable;
    if n < |s.calls| && s.calls[n].phase.Ended? { assert InFlight(s, n); }
  }

  /** A second request with an id in flight is refused and changes nothing. */
  lemma DuplicateIsRefused(s: State, n: nat, r: Request, emitterSet: bool)
    requires Reachable(s) && InFlight(s, n) && r.id == s.calls[n].id
    ensures Shaped(s) && Step(s, Register(r, emitterSet)) == s
  {
    ReachableInv(s);
    hide ChannelsOk, SendersOk, Reachable, ValidRequest;
  }

  /** After the cleanup of a call, a completion for its id finds nothing unless the id was registered again. */
  lemma LateCompletionIsRejected(s: State, who: nat, r: Result)
    requires Reachable(s) && forall n: nat :: InFlight(s, n) ==> s.calls[n].id != r.id
    ensures Shaped(s) && Step(s, LookUp(who, r)) == s
  {
    ReachableInv(s);
    hide ChannelsOk, SendersOk, Reachable, ValidResult;
  }

  const EXAMPLE_REQUEST := Request("r", CloseWindow, "w", "a", "", "win", "", "", 0, 0, LogicalRect(0, 0, 0, 0))

  lemma ExampleIsValid()
    ensures ValidRequest(EXAMPLE_REQUEST)
    ensures ValidResult(Result(SCHEMA_VERSION, "r", true, true, "", ""))
  {
    assert forall c: string :: |c| == 1 && !Text.IsSpace(c[0]) ==> Text.TrimSpace(c) == c;
    assert !Text.Blank("r") && !Text.Blank("w") && !Text.Blank("a");
    assert Text.TrimSpace("win") == "win";
  }

  /** Complete may report success although nobody ever reads the result: the lookup and the send are
      separate steps, so a timeout and its cleanup fit between them. */
  lemma AcceptedNeedNotBeConsumed()
    ensures exists s :: Reachable(s) && |s.calls| == 1 && s.calls[0].phase == Done(TimedOut) && s.pending == map[] &&
                        |s.accepted| == 1 && |s.accepted[0]| == 1
  {
    hide ValidRequest, Run, Text.Blank;
    ExampleIsValid();
    var r := Result(SCHEMA_VERSION, "r", true, true, "", "");
    var a0, a1, a2 := Register(EXAMPLE_REQUEST, true), Emit(0, true), LookUp(7, r);
    var a3, a4, a5 := Timeout(0), Cleanup(0), Send(7);
    var s1 := Step(INIT, a0);
    var s2 := Step(s1, a1);
    var s3 := Step(s2, a2);
    var s4 := Step(s3, a3);
    var s5 := Step(s4, a4);
    var s6 := Step(s5, a5);
    RunSix(a0, a1, a2, a3, a4, a5);
    assert Reachable(s6);
    assert s3.senders[7] == Sender(0, r, 1) && s5.pending == map[];
  }

  lemma RunSix(a0: Action, a1: Action, a2: Action, a3: Action, a4: Action, a5: Action)
    ensures Run(INIT, [a0, a1, a2, a3, a4, a5]) == Step(Step(Step(Step(Step(Step(INIT, a0), a1), a2), a3), a4), a5)
  {
    hide Step;
    var s1 := Step(INIT, a0);
    var s2 := Step(s1, a1);
    var s3 := Step(s2, a2);
    var s4 := Step(s3, a3);
    var s5 := Step(s4, a4);
    assert [a0, a1, a2, a3, a4, a5][1..] == [a1, a2, a3, a4, a5];
    assert [a1, a2, a3, a4, a5][1..] == [a2, a3, a4, a5];
    assert [a2, a3, a4, a5][1..] == [a3, a4, a5];
    assert [a3, a4, a5][1..] == [a4, a5];
    assert [a4, a5][1..] == [a5];
    assert Run(s5, [a5]) == Run(Step(s5, a5), []);
    assert Run(s4, [a4, a5]) == Run(s5, [a5]);
    assert Run(s3, [a3, a4, a5]) == Run(s4, [a4, a5]);
    assert Run(s2, [a2, a3, a4, a5]) == Run(s3, [a3, a4, a5]);
    assert Run(s1, [a1, a2, a3, a4, a5]) == Run(s2, [a2, a3, a4, a5]);
  }

  // ----- What single calls come to -----

  /** A request is registered exactly when it is valid, an emitter is set and no call in flight has its id;
      it then gets a channel of its own and waits to be emitted. */
  lemma RegisteredExactly(s: State, r: Request, emitterSet: bool)
    requires Reachable(s)
    ensures Shaped(s)
    ensures
      Step(s, Register(r, emitterSet)) ==
      if ValidRequest(r) && emitterSet && forall n: nat :: InFlight(s, n) ==> s.calls[n].id != r.id then
        State(s.pending[r.id := |s.calls|], s.calls + [Call(r.id, Emitting)], s.buffers + [[]], s.accepted + [[]],
              s.senders)
      else s
  {
    hide ValidRequest, ChannelsOk, SendersOk, Reachable;
    ReachableInv(s);
  }

  /** A completion of the known schema with an id finds the channel of the call in flight that has this id. */
  lemma LookedUpExactly(s: State, who: nat, r: Result, n: nat)
    requires Reachable(s) && who !in s.senders && InFlight(s, n) && s.calls[n].id == r.id
    ensures Shaped(s)
    ensures Step(s, LookUp(who, r)) ==
            if r.schema == 1 && Text.TrimSpace(r.id) != "" then s.(senders := s.senders[who := Sender(n, r, |s.calls|)])
            else s
  {
    hide ChannelsOk, SendersOk, Reachable;
    ReachableInv(s);
  }

  /** A result is taken exactly when the channel holds none yet. */
  lemma SentExactly(s: State, who: nat)
    requires Shaped(s) && who in s.senders
    ensures
      var x, t := s.senders[who], Step(s, Send(who));
      && t.senders == s.senders - {who} && t.calls == s.calls && t.pending == s.pending
      && t.buffers == (if s.buffers[x.channel] == [] then s.buffers[x.channel := [x.result]] else s.buffers)
      && (|t.accepted[x.channel]| == |s.accepted[x.channel]| + 1 <==> s.buffers[x.channel] == [])
  {
  }

  /** How a call that was registered last stands: `calls` and `pending` are those before it. */
  ghost predicate Stands(s: State, pending: map<string, nat>, calls: seq<Call>, id: string, phase: Phase,
                         buffer: seq<Result>)
  {
    && Shaped(s) && s.calls == calls + [Call(id, phase)]
    && s.pending == (if phase.Done? then pending else pending[id := |calls|])
    && s.buffers[|calls|] == buffer
  }

  lemma Emitted(s: State, pending: map<string, nat>, calls: seq<Call>, id: string, ok: bool)
    requires Stands(s, pending, calls, id, Emitting, [])
    ensures Stands(Step(s, Emit(|calls|, ok)), pending, calls, id, if ok then Waiting else Ended(EmitFailed), [])
    ensures Step(s, Emit(|calls|, ok)).senders == s.senders
  {
  }

  lemma Completed(s: State, pending: map<string, nat>, calls: seq<Call>, id: string, who: nat, r: Result)
    requires Stands(s, pending, calls, id, Waiting, []) && who !in s.senders && ValidResult(r) && r.id == id
    ensures Stands(Step(Step(s, LookUp(who, r)), Send(who)), pending, calls, id, Waiting, [r])
  {
    hide ValidResult;
  }

  /** Every end of a waiting call gives its outcome, and the cleanup leaves `pending` as it was. */
  lemma EndedCall(s: State, pending: map<string, nat>, calls: seq<Call>, id: string, buffer: seq<Result>, a: Action,
                  o: Outcome)
    requires Stands(s, pending, calls, id, Waiting, buffer) && id !in pending
    requires || (a == Timeout(|calls|) && o == TimedOut) || (a == Cancel(|calls|) && o == Cancelled)
             || (a == Receive(|calls|) && buffer != [] && o == Got(buffer[0]))
    ensures
      var t := Step(Step(s, a), Cleanup(|calls|));
      t.calls == calls + [Call(id, Done(o))] && t.pending == pending
  {
    assert pending[id := |calls|] - {id} == pending;
  }

  /** A call that is answered while it waits returns that answer, and afterwards nothing is left of it: in
      every reachable state, for every valid request whose id is not in flight. */
  lemma AnsweredCall(s: State, q: Request, r: Result, who: nat)
    requires Reachable(s) && ValidRequest(q) && (forall n: nat :: InFlight(s, n) ==> s.calls[n].id != q.id)
    requires ValidResult(r) && r.id == q.id && who !in s.senders
    ensures Shaped(s)
    ensures
      var n := |s.calls|;
      var t := Step(Step(Step(Step(Step(Step(s, Register(q, true)), Emit(n, true)), LookUp(who, r)), Send(who)),
                         Receive(n)), Cleanup(n));
      t.calls == s.calls + [Call(q.id, Done(Got(r)))] && t.pending == s.pending
  {
    hide Step, ValidRequest, ValidResult, Stands, Reachable;
    var n := |s.calls|;
    Registered(s, q);
    var s1 := Step(s, Register(q, true));
    Emitted(s1, s.pending, s.calls, q.id, true);
    var s2 := Step(s1, Emit(n, true));
    Completed(s2, s.pending, s.calls, q.id, who, r);
    EndedCall(Step(Step(s2, LookUp(who, r)), Send(who)), s.pending, s.calls, q.id, [r], Receive(n), Got(r));
  }

  /** Without an answer it ends as timed out or cancelled, again leaving nothing behind. */
  lemma UnansweredCall(s: State, q: Request, cancelled: bool)
    requires Reachable(s) && ValidRequest(q) && (forall n: nat :: InFlight(s, n) ==> s.calls[n].id != q.id)
    ensures Shaped(s)
    ensures
      var n := |s.calls|;
      var t := Step(Step(Step(Step(s, Register(q, true)), Emit(n, true)), if cancelled then Cancel(n) else Timeout(n)),
                    Cleanup(n));
      t.calls == s.calls + [Call(q.id, Done(if cancelled then Cancelled else TimedOut))] && t.pending == s.pending
  {
    hide Step, ValidRequest, Stands, Reachable;
    var n := |s.calls|;
    Registered(s, q);
    Emitted(Step(s, Register(q, true)), s.pending, s.calls, q.id, true);
    EndedCall(Step(Step(s, Register(q, true)), Emit(n, true)), s.pending, s.calls, q.id, [],
              if cancelled then Cancel(n) else Timeout(n), if cancelled then Cancelled else TimedOut);
  }

  lemma Registered(s: State, q: Request)
    requires Reachable(s) && ValidRequest(q) && (forall n: nat :: InFlight(s, n) ==> s.calls[n].id != q.id)
    ensures Shaped(s) && q.id !in s.pending
    ensures Stands(Step(s, Register(q, true)), s.pending, s.calls, q.id, Emitting, [])
    ensures Step(s, Register(q, true)).senders == s.senders
  {
    hide ValidRequest, Reachable, Step;
    PendingIsExact(s);
    RegisteredExactly(s, q, true);
  }
}
