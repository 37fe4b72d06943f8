/** The store of provider snapshots (internal/providers/registry.go): what may enter it, and what every
    run of Ingest, ReplaceProvider and DropProvider keeps. */
module Registry {
  import Text
  import opened Surface

  const ZERO_TIME: int := 0
  const SECOND: int := 1_000_000_000
  const CONFIDENCE_MEDIUM: nat := 2

  datatype SourceKind = Native | Extension | AtSpi | Heuristic | System | OtherKind(name: string)

  datatype WindowPatch = WindowPatch(
    windowId: string, providerWindowId: string, title: string, workspaceId: string, monitorRef: string, focused: bool,
    minimized: bool, mru: nat, authoritative: bool, views: seq<View>)

  datatype Snap = Snap(
    providerId: string, kind: SourceKind, appId: string, hints: seq<string>, observedAt: int, ttl: int, priority: int,
    revision: nat, allowOrphan: bool, appName: string, iconName: string, desktopAppId: string,
    windows: seq<WindowPatch>, status: StatusPatch, capabilities: seq<string>, confidence: nat)

  datatype Error = ProviderRequired | AppRequired | TimeRequired | Stale | ForeignProvider | DuplicateApp

  datatype Outcome<+T> = Ok(value: T) | Err(error: Error)

  type Key = (string, string)

  type Store = map<Key, Snap>

  function KeyOf(s: Snap): Key {
    (s.providerId, s.appId)
  }

  // ----- normalizeSnapshot -----

  function LowerChar(c: char): char {
    if 'A' <= c <= 'Z' then c - 'A' + 'a' else c
  }

  /** strings.ToLower, on ASCII letters. */
  function Lower(s: string): string {
    seq(|s|, i requires 0 <= i < |s| => LowerChar(s[i]))
  }

  function CleanHints(hints: seq<string>, seen: set<string>): (r: seq<string>)
    ensures forall h :: h in r ==> Text.TrimSpace(h) == h != "" && Lower(h) !in seen
    ensures forall i, j :: 0 <= i < j < |r| ==> Lower(r[i]) != Lower(r[j])
    decreases |hints|
  {
    if hints == [] then []
    else
      Text.TrimTwice(hints[0]);
      var h := Text.TrimSpace(hints[0]);
      if h == "" || Lower(h) in seen then CleanHints(hints[1..], seen)
      else [h] + CleanHints(hints[1..], seen + {Lower(h)})
  }

  /** No hint is lost: each one that is not blank survives up to case and surrounding space. */
  lemma {:induction false} CleanHintsKeepsAll(hints: seq<string>, seen: set<string>, h: string)
    requires h in hints && !Text.Blank(h)
    ensures Lower(Text.TrimSpace(h)) in seen ||
            exists k :: k in CleanHints(hints, seen) && Lower(k) == Lower(Text.TrimSpace(h))
    decreases |hints|
  {
    var first := Text.TrimSpace(hints[0]);
    if hints[0] != h || first == "" || Lower(first) in seen {
      if hints[0] != h {
        assert h in hints[1..];
        CleanHintsKeepsAll(hints[1..], if first == "" || Lower(first) in seen then seen else seen + {Lower(first)}, h);
        if first != "" && Lower(first) !in seen && Lower(first) == Lower(Text.TrimSpace(h)) {
          assert first in CleanHints(hints, seen);
        }
      }
    } else {
      assert first in CleanHints(hints, seen);
    }
  }

  lemma CleanStep(hints: seq<string>, i: nat, seen: set<string>, clean: seq<string>)
    requires i < |hints|
    ensures
      var h := Text.TrimSpace(hints[i]);
      clean + CleanHints(hints[i..], seen) ==
      if h == "" || Lower(h) in seen then clean + CleanHints(hints[i + 1..], seen)
      else clean + [h] + CleanHints(hints[i + 1..], seen + {Lower(h)})
  {
    hide Lower, Text.TrimSpace;
    assert hints[i..][1..] == hints[i + 1..];
    var h := Text.TrimSpace(hints[i]);
    var rest := CleanHints(hints[i + 1..], seen + {Lower(h)});
    assert clean + ([h] + rest) == clean + [h] + rest;
  }

  method NormalizeHints(hints: seq<string>) returns (clean: seq<string>)
    ensures clean == CleanHints(hints, {})
  {
    hide *;
    clean := [];
    var seen: set<string> := {};
    assert hints[0..] == hints;
    for i := 0 to |hints|
      invariant CleanHints(hints, {}) == clean + CleanHints(hints[i..], seen)
    {
      CleanStep(hints, i, seen, clean);
      var hint := Text.TrimSpace(hints[i]);
      if hint == "" { continue; }
      var key := Lower(hint);
      if key in seen { continue; }
      seen := seen + {key};
      clean := clean + [hint];
    }
    NoHints(seen);
    assert hints[|hints|..] == [] && clean + [] == clean;
  }

  lemma NoHints(seen: set<string>)
    ensures CleanHints([], seen) == []
  {
  }

  function NormalizeSnapshot(s: Snap): Outcome<Snap> {
    var provider := Text.TrimSpace(s.providerId);
    if provider == "" then Err(ProviderRequired)
    else if Text.Blank(s.appId) then Err(AppRequired)
    else if s.observedAt == ZERO_TIME then Err(TimeRequired)
    else Ok(s.(providerId := provider,
               ttl := if s.ttl <= 0 then 5 * SECOND else s.ttl,
               confidence := if s.confidence == 0 then CONFIDENCE_MEDIUM else s.confidence,
               hints := CleanHints(s.hints, {})))
  }

  ghost predicate Clean(s: Snap) {
    && Text.TrimSpace(s.providerId) == s.providerId != "" && !Text.Blank(s.appId)
    && s.observedAt != ZERO_TIME && s.ttl > 0 && s.confidence > 0
    && (forall h :: h in s.hints ==> Text.TrimSpace(h) == h != "")
    && forall i, j :: 0 <= i < j < |s.hints| ==> Lower(s.hints[i]) != Lower(s.hints[j])
  }

  lemma NormalizedIsClean(s: Snap)
    requires NormalizeSnapshot(s).Ok?
    ensures Clean(NormalizeSnapshot(s).value) && NormalizeSnapshot(s).value.revision == s.revision
    ensures NormalizeSnapshot(s).value.appId == s.appId
    ensures NormalizeSnapshot(s).value.providerId == Text.TrimSpace(s.providerId)
  {
    hide Lower, Text.TrimSpace;
    Text.TrimTwice(s.providerId);
  }

  /** Which snapshots are accepted, and why the others are not. */
  lemma AcceptedExactly(s: Snap)
    ensures NormalizeSnapshot(s).Ok? <==> !Text.Blank(s.providerId) && !Text.Blank(s.appId) && s.observedAt != ZERO_TIME
    ensures Text.Blank(s.providerId) ==> NormalizeSnapshot(s) == Err(ProviderRequired)
    ensures !Text.Blank(s.providerId) && Text.Blank(s.appId) ==> NormalizeSnapshot(s) == Err(AppRequired)
    ensures !Text.Blank(s.providerId) && !Text.Blank(s.appId) && s.observedAt == ZERO_TIME ==>
              NormalizeSnapshot(s) == Err(TimeRequired)
  {
  }

  /** Normalising trims the provider, gives a lifetime of five seconds and medium confidence where there is
      none, cleans the hints, and leaves everything else alone. */
  lemma NormalizedFields(s: Snap)
    requires NormalizeSnapshot(s).Ok?
    ensures
      var n := NormalizeSnapshot(s).value;
      && n == s.(providerId := Text.TrimSpace(s.providerId), ttl := n.ttl, confidence := n.confidence, hints := n.hints)
      && (s.ttl > 0 ==> n.ttl == s.ttl) && (s.ttl <= 0 ==> n.ttl == 5_000_000_000)
      && (s.confidence != 0 ==> n.confidence == s.confidence) && (s.confidence == 0 ==> n.confidence == 2)
      && exists at :: FirstsAt(n.hints, s.hints, at)
  {
    hide CleanHints, FirstsAt, Text.TrimSpace;
    var at := CleanHintsAreFirsts(s.hints, {});
  }

  /** Each kept hint is the first of its spellings, trimmed, and they keep their order. */
  ghost predicate FirstsAt(clean: seq<string>, hints: seq<string>, at: seq<nat>) {
    && |at| == |clean|
    && (forall j :: 0 <= j < |at| ==> at[j] < |hints| && clean[j] == Text.TrimSpace(hints[at[j]]))
    && (forall i, j :: 0 <= i < j < |at| ==> at[i] < at[j])
    && (forall i, j :: 0 <= j < |at| && 0 <= i < at[j] ==> Lower(Text.TrimSpace(hints[i])) != Lower(clean[j]))
  }

  lemma {:induction false} CleanHintsAreFirsts(hints: seq<string>, seen: set<string>) returns (at: seq<nat>)
    ensures FirstsAt(CleanHints(hints, seen), hints, at)
    decreases |hints|
  {
    hide Lower, Text.TrimSpace, FirstsAt;
    if hints == [] {
      at := [];
      NoFirsts();
    } else {
      var h, rest := Text.TrimSpace(hints[0]), hints[1..];
      var later := if h == "" || Lower(h) in seen then seen else seen + {Lower(h)};
      var tail := CleanHintsAreFirsts(rest, later);
      at := seq(|tail|, j requires 0 <= j < |tail| => tail[j] + 1);
      BlankIsLower();
      FirstsLength(CleanHints(rest, later), rest, tail);
      FirstsShift(hints, CleanHints(rest, later), tail, at);
      if h != "" && Lower(h) !in seen {
        FirstsFront(hints, CleanHints(rest, later), at);
        at := [0] + at;
      }
    }
  }

  lemma NoFirsts()
    ensures FirstsAt([], [], [])
  {
  }

  lemma FirstsLength(clean: seq<string>, hints: seq<string>, at: seq<nat>)
    requires FirstsAt(clean, hints, at)
    ensures |at| == |clean|
  {
  }

  lemma FirstsFront(hints: seq<string>, clean: seq<string>, at: seq<nat>)
    requires hints != [] && FirstsAt(clean, hints, at) && forall j :: 0 <= j < |at| ==> at[j] > 0
    ensures FirstsAt([Text.TrimSpace(hints[0])] + clean, hints, [0] + at)
  {
    hide Lower, Text.TrimSpace;
  }

  lemma BlankIsLower()
    ensures Lower("") == "" && forall k: string :: k != "" ==> Lower(k) != ""
  {
  }

  lemma FirstsShift(hints: seq<string>, clean: seq<string>, tail: seq<nat>, at: seq<nat>)
    requires hints != [] && FirstsAt(clean, hints[1..], tail)
    requires |at| == |tail| && forall j :: 0 <= j < |at| ==> at[j] == tail[j] + 1
    requires forall j :: 0 <= j < |clean| ==> Lower(clean[j]) != Lower(Text.TrimSpace(hints[0]))
    ensures FirstsAt(clean, hints, at)
  {
    hide Lower, Text.TrimSpace;
    forall i, j | 0 <= j < |at| && 0 <= i < at[j]
      ensures Lower(Text.TrimSpace(hints[i])) != Lower(clean[j])
    {
      if i > 0 { assert hints[1..][i - 1] == hints[i]; }
    }
  }

  // ----- The operations, on the store -----

  function IngestInto(m: Store, s: Snap): Outcome<Store> {
    match NormalizeSnapshot(s)
    case Err(e) => Err(e)
    case Ok(n) =>
      if KeyOf(n) in m && n.revision < m[KeyOf(n)].revision then Err(Stale) else Ok(m[KeyOf(n) := n])
  }

  /** The snapshot normalises, and no stored entry of its key has a higher revision. */
  ghost predicate Storable(m: Store, s: Snap) {
    NormalizeSnapshot(s).Ok? &&
    var n := NormalizeSnapshot(s).value;
    (n.providerId, n.appId) in m ==> m[(n.providerId, n.appId)].revision <= n.revision
  }

  /** An ingest is accepted exactly when the snapshot can be stored, and then stores it under its provider
      and application and nothing else; otherwise the error is that of the snapshot, or that it is stale. */
  lemma IngestIsExact(m: Store, s: Snap, k: Key)
    ensures IngestInto(m, s).Ok? <==> Storable(m, s)
    ensures
      IngestInto(m, s).Ok? ==>
        var n, next := NormalizeSnapshot(s).value, IngestInto(m, s).value;
        if k == (n.providerId, n.appId) then k in next && next[k] == n
        else (k in next <==> k in m) && (k in m ==> next[k] == m[k])
    ensures
      IngestInto(m, s).Err? ==>
        IngestInto(m, s).error == if NormalizeSnapshot(s).Err? then NormalizeSnapshot(s).error else Stale
  {
    hide NormalizeSnapshot;
  }

  /** The normalised batch of a replacement, built entry by entry. */
  function Batch(providerId: string, snaps: seq<Snap>): Outcome<Store> {
    if snaps == [] then Ok(map[])
    else
      match Batch(providerId, snaps[..|snaps| - 1])
      case Err(e) => Err(e)
      case Ok(batch) => AddToBatch(providerId, batch, snaps[|snaps| - 1])
  }

  function AddToBatch(providerId: string, batch: Store, raw: Snap): Outcome<Store> {
    var s := if Text.Blank(raw.providerId) then raw.(providerId := providerId) else raw;
    if s.providerId != providerId then Err(ForeignProvider)
    else
      match NormalizeSnapshot(s)
      case Err(e) => Err(e)
      case Ok(n) => if KeyOf(n) in batch then Err(DuplicateApp) else Ok(batch[KeyOf(n) := n])
  }

  predicate Outdated(m: Store, batch: Store) {
    exists k :: k in batch && k in m && batch[k].revision < m[k].revision
  }

  function Without(m: Store, providerId: string): Store {
    map k | k in m && m[k].providerId != providerId :: m[k]
  }

  function ReplaceIn(m: Store, providerId: string, snaps: seq<Snap>): Outcome<Store> {
    var provider := Text.TrimSpace(providerId);
    if provider == "" then Err(ProviderRequired)
    else
      match Batch(provider, snaps)
      case Err(e) => Err(e)
      case Ok(batch) => if Outdated(m, batch) then Err(Stale) else Ok(Without(m, provider) + batch)
  }

  // ----- The registry -----

  class ProviderRegistry {
    var snapshots: Store

    constructor ()
      ensures snapshots == map[]
    {
      snapshots := map[];
    }

    /** A rejected snapshot changes nothing. */
    method Ingest(s: Snap) returns (r: Outcome<()>)
      modifies this
      ensures r.Ok? <==> IngestInto(old(snapshots), s).Ok?
      ensures r.Ok? ==> snapshots == IngestInto(old(snapshots), s).value
      ensures r.Err? ==> snapshots == old(snapshots) && r.error == IngestInto(old(snapshots), s).error
      ensures r.Ok? <==> Storable(old(snapshots), s)
      ensures r.Ok? ==> snapshots == old(snapshots)[KeyOf(NormalizeSnapshot(s).value) := NormalizeSnapshot(s).value]
    {
      var n := NormalizeSnapshot(s);
      if n.Err? { return Err(n.error); }
      var key := KeyOf(n.value);
      if key in snapshots && n.value.revision < snapshots[key].revision { return Err(Stale); }
      snapshots := snapshots[key := n.value];
      r := Ok(());
    }

    /** Replace all entries of one provider, or change nothing; the map loops run in any order. */
    method ReplaceProvider(providerId: string, snaps: seq<Snap>) returns (r: Outcome<()>)
      modifies this
      ensures r.Ok? <==> ReplaceIn(old(snapshots), providerId, snaps).Ok?
      ensures r.Ok? ==> snapshots == ReplaceIn(old(snapshots), providerId, snaps).value
      ensures r.Err? ==> snapshots == old(snapshots) && r.error == ReplaceIn(old(snapshots), providerId, snaps).error
    {
      var provider := Text.TrimSpace(providerId);
      if provider == "" { return Err(ProviderRequired); }
      var batch := BuildBatch(provider, snaps);
      if batch.Err? { return Err(batch.error); }
      var stale := AnyOutdated(snapshots, batch.value);
      if stale { return Err(Stale); }
      Drop(provider);
      PutAll(batch.value);
      r := Ok(());
    }

    method PutAll(next: Store)
      modifies this
      ensures snapshots == old(snapshots) + next
    {
      var todo := next.Keys;
      while todo != {}
        invariant todo <= next.Keys
        invariant snapshots.Keys == old(snapshots).Keys + (next.Keys - todo)
        invariant forall k :: k in snapshots ==>
                    snapshots[k] == if k in next && k !in todo then next[k] else old(snapshots)[k]
      {
        var k :| k in todo;
        snapshots := snapshots[k := next[k]];
        todo := todo - {k};
      }
      assert snapshots == old(snapshots) + next;
    }

    /** DropProvider. */
    method Drop(providerId: string)
      modifies this
      ensures snapshots == Without(old(snapshots), providerId)
      ensures forall k :: k in snapshots <==> k in old(snapshots) && old(snapshots)[k].providerId != providerId
      ensures forall k :: k in snapshots ==> snapshots[k] == old(snapshots)[k]
    {
      var todo := snapshots.Keys;
      while todo != {}
        invariant todo <= snapshots.Keys
        invariant forall k :: k in snapshots ==> k in old(snapshots) && snapshots[k] == old(snapshots)[k]
        invariant forall k :: k in old(snapshots) && (k in todo || old(snapshots)[k].providerId != providerId) ==>
                  k in snapshots
        invariant forall k :: k in snapshots && k !in todo ==> snapshots[k].providerId != providerId
      {
        var k :| k in todo;
        if snapshots[k].providerId == providerId { snapshots := snapshots - {k}; }
        todo := todo - {k};
      }
      assert snapshots == Without(old(snapshots), providerId);
    }
  }

  /** The revision check of ReplaceProvider, over the batch in any order. */
  method AnyOutdated(m: Store, batch: Store) returns (stale: bool)
    ensures stale <==> Outdated(m, batch)
  {
    var todo := batch.Keys;
    while todo != {}
      invariant todo <= batch.Keys
      invariant forall k :: k in batch && k !in todo && k in m ==> batch[k].revision >= m[k].revision
    {
      var k :| k in todo;
      if k in m && batch[k].revision < m[k].revision { return true; }
      todo := todo - {k};
    }
    stale := false;
  }

  method BuildBatch(providerId: string, snaps: seq<Snap>) returns (r: Outcome<Store>)
    ensures r == Batch(providerId, snaps)
  {
    var next: Store := map[];
    for i := 0 to |snaps|
      invariant Batch(providerId, snaps[..i]) == Ok(next)
    {
      assert snaps[..i + 1][..i] == snaps[..i] && snaps[..i + 1][i] == snaps[i];
      var raw := snaps[i];
      if Text.Blank(raw.providerId) { raw := raw.(providerId := providerId); }
      if raw.providerId != providerId {
        BatchFails(providerId, snaps, i);
        return Err(ForeignProvider);
      }
      var n := NormalizeSnapshot(raw);
      if n.Err? {
        BatchFails(providerId, snaps, i);
        return Err(n.error);
      }
      if KeyOf(n.value) in next {
        BatchFails(providerId, snaps, i);
        return Err(DuplicateApp);
      }
      next := next[KeyOf(n.value) := n.value];
    }
    assert snaps[..|snaps|] == snaps;
    r := Ok(next);
  }

  lemma {:induction false} BatchFails(providerId: string, snaps: seq<Snap>, i: nat)
    requires i < |snaps| && Batch(providerId, snaps[..i + 1]).Err?
    ensures Batch(providerId, snaps) == Batch(providerId, snaps[..i + 1])
    decreases |snaps|
  {
    if i + 1 < |snaps| {
      var init := snaps[..|snaps| - 1];
      assert init[..i + 1] == snaps[..i + 1];
      BatchFails(providerId, init, i);
    } else {
      assert snaps[..i + 1] == snaps;
    }
  }

  // ----- Runs -----

  datatype Op = DoIngest(s: Snap) | DoReplace(providerId: string, snaps: seq<Snap>) | DoDrop(dropped: string)

  function Apply(m: Store, op: Op): Store {
    match op
    case DoIngest(s) => (match IngestInto(m, s) case Ok(n) => n case Err(_) => m)
    case DoReplace(p, snaps) => (match ReplaceIn(m, p, snaps) case Ok(n) => n case Err(_) => m)
    case DoDrop(p) => Without(m, p)
  }

  /** Every entry is clean and stored under its own provider and application. */
  ghost predicate Inv(m: Store) {
    forall k :: k in m ==> KeyOf(m[k]) == k && Clean(m[k])
  }

  lemma {:induction false} BatchIsClean(providerId: string, snaps: seq<Snap>)
    requires Batch(providerId, snaps).Ok? && Text.TrimSpace(providerId) == providerId != ""
    ensures Inv(Batch(providerId, snaps).value)
    ensures forall k :: k in Batch(providerId, snaps).value ==> k.0 == providerId
  {
    hide Clean, Text.TrimSpace, Text.Blank, CleanHints, NormalizeSnapshot;
    if snaps != [] {
      BatchIsClean(providerId, snaps[..|snaps| - 1]);
      var raw := snaps[|snaps| - 1];
      var s := if Text.Blank(raw.providerId) then raw.(providerId := providerId) else raw;
      NormalizedIsClean(s);
    }
  }

  lemma ReplaceKeepsInv(m: Store, p: string, snaps: seq<Snap>)
    requires Inv(m)
    ensures Inv(Apply(m, DoReplace(p, snaps)))
  {
    hide Clean, Batch, Text.TrimSpace;
    Text.TrimTwice(p);
    var provider := Text.TrimSpace(p);
    if provider != "" && Batch(provider, snaps).Ok? { BatchIsClean(provider, snaps); }
  }

  lemma OpKeepsInv(m: Store, op: Op)
    requires Inv(m)
    ensures Inv(Apply(m, op))
  {
    hide Clean, NormalizeSnapshot, ReplaceIn, Batch, Text.TrimSpace;
    match op
    case DoIngest(s) => if NormalizeSnapshot(s).Ok? { NormalizedIsClean(s); }
    case DoReplace(p, snaps) => ReplaceKeepsInv(m, p, snaps);
    case DoDrop(p) =>
  }

  /** A successful replacement makes the provider's entries exactly the normalised batch and leaves
      every other provider's entries as they were. */
  lemma ReplacementIsExact(m: Store, providerId: string, snaps: seq<Snap>)
    requires Inv(m) && ReplaceIn(m, providerId, snaps).Ok?
    ensures
      var provider, next := Text.TrimSpace(providerId), ReplaceIn(m, providerId, snaps).value;
      && Batch(provider, snaps).Ok?
      && (forall k :: k in next && k.0 == provider <==> k in Batch(provider, snaps).value)
      && (forall k :: k in Batch(provider, snaps).value ==> next[k] == Batch(provider, snaps).value[k])
      && (forall k: Key :: k.0 != provider ==> (k in next <==> k in m) && (k in m ==> next[k] == m[k]))
  {
    var provider := Text.TrimSpace(providerId);
    Text.TrimTwice(providerId);
    BatchIsClean(provider, snaps);
    hide Clean, Batch, Text.TrimSpace;
  }

  /** What happens to one key in one operation: it disappears, or its revision does not go down. */
  lemma RevisionsNeverDrop(m: Store, op: Op, k: Key)
    requires Inv(m) && k in m && k in Apply(m, op)
    ensures m[k].revision <= Apply(m, op)[k].revision
  {
    match op
    case DoIngest(s) => hide NormalizeSnapshot, Clean;
    case DoReplace(p, snaps) =>
      hide Batch, Clean, Text.TrimSpace;
      var b := Batch(Text.TrimSpace(p), snaps);
      if Text.TrimSpace(p) != "" && b.Ok? && k in b.value {
        assert !Outdated(m, b.value) ==> m[k].revision <= b.value[k].revision;
      }
    case DoDrop(_) =>
  }

  /** The stores along a run. */
  ghost predicate IsRun(stores: seq<Store>, ops: seq<Op>) {
    && |stores| == |ops| + 1 && stores[0] == map[]
    && forall i :: 0 <= i < |ops| ==> stores[i + 1] == Apply(stores[i], ops[i])
  }

  lemma {:induction false} RunKeepsInv(stores: seq<Store>, ops: seq<Op>, i: nat)
    requires IsRun(stores, ops) && i < |stores|
    ensures Inv(stores[i])
  {
    if i > 0 {
      RunKeepsInv(stores, ops, i - 1);
      OpKeepsInv(stores[i - 1], ops[i - 1]);
      hide Inv, Apply;
    }
  }

  lemma OneStepOfRun(stores: seq<Store>, ops: seq<Op>, k: Key, j: nat)
    requires IsRun(stores, ops) && 0 < j < |stores| && k in stores[j - 1] && k in stores[j]
    ensures stores[j - 1][k].revision <= stores[j][k].revision
  {
    RunKeepsInv(stores, ops, j - 1);
    assert stores[j - 1 + 1] == Apply(stores[j - 1], ops[j - 1]);
    RevisionsNeverDrop(stores[j - 1], ops[j - 1], k);
    hide Inv, Apply;
  }

  ghost predicate StaysPresent(stores: seq<Store>, k: Key, i: nat, j: nat) {
    i <= j < |stores| && forall n :: i <= n <= j ==> k in stores[n]
  }

  /** Along every run, a key's revision never decreases while the key stays present. */
  lemma {:induction false} RevisionsMonotone(stores: seq<Store>, ops: seq<Op>, k: Key, i: nat, j: nat)
    requires IsRun(stores, ops) && StaysPresent(stores, k, i, j)
    ensures stores[i][k].revision <= stores[j][k].revision
    decreases j - i
  {
    hide IsRun;
    if i < j {
      assert k in stores[j - 1];
      RevisionsMonotone(stores, ops, k, i, j - 1);
      OneStepOfRun(stores, ops, k, j);
    }
  }

  // ----- What a replacement is made of -----

  /** An entry of a batch without a provider of its own is given that of the batch. */
  function Filled(providerId: string, raw: Snap): Snap {
    if Text.Blank(raw.providerId) then raw.(providerId := providerId) else raw
  }

  /** The entry belongs to the provider and normalises. */
  predicate Fitting(providerId: string, raw: Snap) {
    Filled(providerId, raw).providerId == providerId && NormalizeSnapshot(Filled(providerId, raw)).Ok?
  }

  ghost predicate FitsTogether(providerId: string, snaps: seq<Snap>) {
    && (forall i :: 0 <= i < |snaps| ==> Fitting(providerId, snaps[i]))
    && (forall i, j :: 0 <= i < j < |snaps| ==> snaps[i].appId != snaps[j].appId)
  }

  /** A batch is accepted exactly when all entries belong to the provider and normalise and no application
      comes twice; it then holds each entry, normalised, under its application, and nothing else. */
  lemma {:induction false} BatchMeaning(providerId: string, snaps: seq<Snap>)
    requires Text.TrimSpace(providerId) == providerId != ""
    ensures Batch(providerId, snaps).Ok? <==> FitsTogether(providerId, snaps)
    ensures Batch(providerId, snaps).Ok? ==> BatchHolds(providerId, snaps, Batch(providerId, snaps).value)
  {
    hide Text.TrimSpace, Text.Blank, NormalizeSnapshot, BatchHolds, FitsTogether;
    if snaps == [] {
      EmptyBatch(providerId);
    } else {
      var init := snaps[..|snaps| - 1];
      BatchMeaning(providerId, init);
      assert snaps == init + [snaps[|snaps| - 1]];
      FitsTogetherNext(providerId, init, snaps[|snaps| - 1]);
      if Batch(providerId, init).Ok? { BatchNext(providerId, init, Batch(providerId, init).value, snaps[|snaps| - 1]); }
    }
  }

  ghost predicate BatchHolds(providerId: string, snaps: seq<Snap>, batch: Store) {
    && (forall k :: k in batch ==> k.0 == providerId && exists i :: 0 <= i < |snaps| && snaps[i].appId == k.1)
    && (forall i :: 0 <= i < |snaps| ==>
          (providerId, snaps[i].appId) in batch && Fitting(providerId, snaps[i]) &&
          batch[(providerId, snaps[i].appId)] == NormalizeSnapshot(Filled(providerId, snaps[i])).value)
  }

  lemma EmptyBatch(providerId: string)
    ensures FitsTogether(providerId, []) && BatchHolds(providerId, [], map[])
  {
  }

  lemma FitsTogetherNext(providerId: string, snaps: seq<Snap>, raw: Snap)
    ensures FitsTogether(providerId, snaps + [raw]) <==>
            && FitsTogether(providerId, snaps) && Fitting(providerId, raw)
            && forall i :: 0 <= i < |snaps| ==> snaps[i].appId != raw.appId
  {
    hide Fitting;
    var all := snaps + [raw];
    assert forall i :: 0 <= i < |snaps| ==> all[i] == snaps[i];
    if FitsTogether(providerId, all) { assert Fitting(providerId, all[|snaps|]) && all[|snaps|] == raw; }
  }

  lemma AddedExactly(providerId: string, snaps: seq<Snap>, batch: Store, raw: Snap)
    requires BatchHolds(providerId, snaps, batch) && Text.TrimSpace(providerId) == providerId
    ensures AddToBatch(providerId, batch, raw).Ok? <==>
            Fitting(providerId, raw) && forall i :: 0 <= i < |snaps| ==> snaps[i].appId != raw.appId
    ensures AddToBatch(providerId, batch, raw).Ok? ==>
              AddToBatch(providerId, batch, raw).value ==
              batch[(providerId, raw.appId) := NormalizeSnapshot(Filled(providerId, raw)).value]
  {
    hide Text.TrimSpace, Text.Blank, NormalizeSnapshot;
    if Fitting(providerId, raw) {
      NormalizedIsClean(Filled(providerId, raw));
      if forall i :: 0 <= i < |snaps| ==> snaps[i].appId != raw.appId { assert (providerId, raw.appId) !in batch; }
    }
  }

  lemma HoldsOneMore(providerId: string, snaps: seq<Snap>, batch: Store, raw: Snap)
    requires BatchHolds(providerId, snaps, batch) && Fitting(providerId, raw)
    requires forall i :: 0 <= i < |snaps| ==> snaps[i].appId != raw.appId
    ensures BatchHolds(providerId, snaps + [raw],
                       batch[(providerId, raw.appId) := NormalizeSnapshot(Filled(providerId, raw)).value])
  {
    hide Text.TrimSpace, Text.Blank, NormalizeSnapshot, Fitting, Filled;
    var all := snaps + [raw];
    assert all[|snaps|] == raw;
    forall k | k in batch ensures exists i :: 0 <= i < |all| && all[i].appId == k.1 {
      var i :| 0 <= i < |snaps| && snaps[i].appId == k.1;
      assert all[i].appId == k.1;
    }
  }

  lemma BatchNext(providerId: string, snaps: seq<Snap>, batch: Store, raw: Snap)
    requires BatchHolds(providerId, snaps, batch) && Text.TrimSpace(providerId) == providerId
    ensures AddToBatch(providerId, batch, raw).Ok? <==>
            Fitting(providerId, raw) && forall i :: 0 <= i < |snaps| ==> snaps[i].appId != raw.appId
    ensures AddToBatch(providerId, batch, raw).Ok? ==>
              BatchHolds(providerId, snaps + [raw], AddToBatch(providerId, batch, raw).value)
  {
    hide AddToBatch, BatchHolds, Fitting, Filled, NormalizeSnapshot;
    AddedExactly(providerId, snaps, batch, raw);
    if AddToBatch(providerId, batch, raw).Ok? { HoldsOneMore(providerId, snaps, batch, raw); }
  }

  /** A replacement is accepted exactly when the provider has a name, its batch is accepted, and no entry
      of the batch has a lower revision than the stored one. */
  lemma ReplacementAcceptedExactly(m: Store, providerId: string, snaps: seq<Snap>)
    ensures
      var p := Text.TrimSpace(providerId);
      ReplaceIn(m, providerId, snaps).Ok? <==>
      && p != "" && FitsTogether(p, snaps)
      && forall i :: 0 <= i < |snaps| && (p, snaps[i].appId) in m ==>
           m[(p, snaps[i].appId)].revision <= snaps[i].revision
  {
    hide Text.TrimSpace, FitsTogether, NormalizeSnapshot, Fitting, Filled;
    var p := Text.TrimSpace(providerId);
    Text.TrimTwice(providerId);
    if p != "" {
      BatchMeaning(p, snaps);
      if FitsTogether(p, snaps) {
        var batch := Batch(p, snaps).value;
        forall i | 0 <= i < |snaps| ensures batch[(p, snaps[i].appId)].revision == snaps[i].revision {
          FilledRevision(p, snaps[i]);
        }
      }
    }
  }

  lemma FilledRevision(providerId: string, raw: Snap)
    requires Fitting(providerId, raw)
    ensures NormalizeSnapshot(Filled(providerId, raw)).value.revision == raw.revision
  {
    NormalizedIsClean(Filled(providerId, raw));
  }
}
