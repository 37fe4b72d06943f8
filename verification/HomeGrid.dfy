/** The shell's own copy of the context tree (shell-extension/homeGridModel.js), and the snapshot the
    daemon publishes to it (internal/contexttree/manager.go). */
module HomeGrid {
  import Text
  import opened Sorting
  import opened Hierarchy

  const MAX_NODES: nat := 4096
  const MAX_DEPTH: nat := 4096

  /** A decoded JSON value, as far as the shell tells values apart. */
  datatype JsValue = JsString(s: string) | JsInteger(n: int) | JsOther

  datatype RawNode =
    | NotAnObject
    | RawNode(id: JsValue, parentId: JsValue, kind: JsValue, title: JsValue, order: JsValue, workspaceId: JsValue)

  datatype Payload =
    | NoPayload
    | Payload(schema: int, rootId: JsValue, nodesIsArray: bool, nodes: seq<RawNode>)

  datatype Model = Model(rootId: string, byId: map<string, Node>, children: map<string, seq<Node>>)

  datatype Built = Accepted(model: Model) | Rejected

  // ----- Reading the payload -----

  predicate IsNonEmptyString(v: JsValue) {
    v.JsString? && v.s != ""
  }

  function StringOr(v: JsValue, otherwise: string): string {
    if v.JsString? then v.s else otherwise
  }

  predicate Readable(raw: RawNode) {
    raw.RawNode? && IsNonEmptyString(raw.id) && IsNonEmptyString(raw.title)
  }

  function ReadNode(raw: RawNode): (n: Node)
    requires Readable(raw)
    ensures n.id != "" && n.title != "" && n.kind != ""
  {
    Node(raw.id.s, StringOr(raw.parentId, ""),
         if IsNonEmptyString(raw.kind) then raw.kind.s else "category",
         raw.title.s, if raw.order.JsInteger? then raw.order.n else 0, StringOr(raw.workspaceId, ""))
  }

  ghost predicate AllReadable(nodes: seq<RawNode>) {
    forall i :: 0 <= i < |nodes| ==> Readable(nodes[i])
  }

  function ReadNodes(nodes: seq<RawNode>): (r: seq<Node>)
    requires AllReadable(nodes)
    ensures |r| == |nodes| && forall i :: 0 <= i < |nodes| ==> r[i] == ReadNode(nodes[i])
  {
    seq(|nodes|, i requires 0 <= i < |nodes| => ReadNode(nodes[i]))
  }

  ghost predicate WellShaped(p: Payload) {
    p.Payload? && p.schema == 1 && IsNonEmptyString(p.rootId) && p.nodesIsArray && 1 <= |p.nodes| <= MAX_NODES &&
    AllReadable(p.nodes) && UniqueIds(ReadNodes(p.nodes))
  }

  /** What the shell accepts: a well-shaped payload whose nodes form a tree under the declared root. */
  ghost predicate ShellValid(p: Payload) {
    WellShaped(p) && Rooted(NodeMap(ReadNodes(p.nodes)), p.rootId.s)
  }

  ghost predicate IsModelOf(p: Payload, m: Model) {
    && ShellValid(p) && m.rootId == p.rootId.s && m.byId == NodeMap(ReadNodes(p.nodes))
    && ListsAllChildren(m)
  }

  /** Each child list holds the children of its node, once each. */
  ghost predicate ListsAllChildren(m: Model) {
    forall p :: p in m.byId ==> ListsChildren(m.byId, p, IdsOf(ChildrenOf(m, p))) && FromMap(m.byId, ChildrenOf(m, p))
  }

  ghost predicate FromMap(byId: map<string, Node>, nodes: seq<Node>) {
    forall i :: 0 <= i < |nodes| ==> nodes[i].id in byId && byId[nodes[i].id] == nodes[i]
  }

  /** What every model the shell builds satisfies. */
  ghost predicate GoodModel(m: Model) {
    Rooted(m.byId, m.rootId) && KeyedById(m.byId) && |m.byId| <= MAX_NODES && ListsAllChildren(m)
  }

  function ChildrenOf(m: Model, id: string): seq<Node> {
    if id in m.children then m.children[id] else []
  }

  // ----- sanitizePath -----

  /** One element of a stored path: a string, or an object with an id. */
  datatype Candidate = Name(s: string) | Entry(id: string) | Nothing

  function CandidateId(c: Candidate): string {
    match c case Name(s) => s case Entry(id) => id case Nothing => ""
  }

  function WithoutRoot(rootId: string, source: seq<Candidate>): seq<Candidate> {
    if source != [] && source[0] == Name(rootId) then source[1..] else source
  }

  function Follow(byId: map<string, Node>, parent: string, source: seq<Candidate>, length: nat): seq<string>
    decreases |source|
  {
    if source == [] then []
    else
      var id := CandidateId(source[0]);
      if id == "" || id !in byId || byId[id].parentId != parent then []
      else if length + 1 >= MAX_DEPTH then [id]
      else [id] + Follow(byId, id, source[1..], length + 1)
  }

  function Sanitized(m: Model, source: seq<Candidate>): (path: seq<string>)
    ensures path != [] && path[0] == m.rootId
  {
    [m.rootId] + Follow(m.byId, m.rootId, WithoutRoot(m.rootId, source), 1)
  }

  /** sanitizePath for an array argument; the shell treats anything else as the empty array. */
  method SanitizePath(m: Model, source: seq<Candidate>) returns (path: seq<string>)
    ensures path == Sanitized(m, source)
  {
    var rest := WithoutRoot(m.rootId, source);
    path := [m.rootId];
    var parent, k := m.rootId, 0;
    while k < |rest|
      invariant 0 <= k <= |rest|
      invariant Sanitized(m, source) == path + Follow(m.byId, parent, rest[k..], |path|)
    {
      var id := CandidateId(rest[k]);
      if id == "" { break; }
      if id !in m.byId || m.byId[id].parentId != parent { break; }
      ghost var was, from := path, parent;
      path := path + [id];
      parent := id;
      k := k + 1;
      if |path| >= MAX_DEPTH {
        assert Follow(m.byId, from, rest[k - 1..], |was|) == [id];
        return;
      }
      assert was + ([id] + Follow(m.byId, id, rest[k..], |path|)) == path + Follow(m.byId, id, rest[k..], |path|);
    }
  }

  lemma ExtendChain(byId: map<string, Node>, root: string, path: seq<string>, id: string)
    requires Rooted(byId, root) && IsRootChain(byId, root, path)
    ensures IsRootChain(byId, root, path + [id]) <==> id in byId && byId[id].parentId == path[|path| - 1]
    ensures id in byId ==> id != ""
  {
    var next := path + [id];
    assert next[|path|] == id && next[|path| - 1] == path[|path| - 1];
    if IsRootChain(byId, root, next) { assert byId[next[|path|]].parentId == next[|path| - 1]; }
  }

  ghost predicate Matches(got: seq<string>, source: seq<Candidate>) {
    |got| <= |source| && forall i :: 0 <= i < |got| ==> got[i] == CandidateId(source[i])
  }

  /** `got` is the longest prefix of `source` that extends the root chain `path`. */
  ghost predicate Longest(m: Model, path: seq<string>, got: seq<string>, source: seq<Candidate>) {
    && IsRootChain(m.byId, m.rootId, path + got) && Matches(got, source)
    && (|got| < |source| ==> !IsRootChain(m.byId, m.rootId, path + got + [CandidateId(source[|got|])]))
  }

  lemma LongestCons(m: Model, path: seq<string>, id: string, got: seq<string>, source: seq<Candidate>)
    requires source != [] && CandidateId(source[0]) == id && Longest(m, path + [id], got, source[1..])
    ensures Longest(m, path, [id] + got, source)
  {
    assert path + ([id] + got) == path + [id] + got;
    if |got| + 1 < |source| { assert source[1..][|got|] == source[|got| + 1]; }
  }

  /** The depth limit never cuts a real chain short: it equals the largest number of nodes. */
  lemma DepthLimitIsHarmless(m: Model, path: seq<string>, source: seq<Candidate>)
    requires GoodModel(m) && IsRootChain(m.byId, m.rootId, path) && |path| >= MAX_DEPTH
    ensures Longest(m, path, [], source)
  {
    assert path + [] == path;
    if source != [] && IsRootChain(m.byId, m.rootId, path + [CandidateId(source[0])]) {
      RootChainBound(m.byId, m.rootId, path + [CandidateId(source[0])]);
      assert false;
    }
  }

  /** Following from the end of a root chain gives the longest extension. */
  lemma {:induction false} FollowIsLongest(m: Model, path: seq<string>, source: seq<Candidate>)
    requires GoodModel(m) && IsRootChain(m.byId, m.rootId, path)
    ensures Longest(m, path, Follow(m.byId, path[|path| - 1], source, |path|), source)
    decreases |source|
  {
    if source == [] {
      assert path + [] == path;
    } else {
      var id := CandidateId(source[0]);
      var next := path + [id];
      ExtendChain(m.byId, m.rootId, path, id);
      FollowStep(m.byId, path[|path| - 1], source, |path|);
      hide *;
      if IsRootChain(m.byId, m.rootId, next) {
        if |next| >= MAX_DEPTH {
          DepthLimitIsHarmless(m, next, source[1..]);
          LongestCons(m, path, id, [], source);
          assert [id] + [] == [id];
        } else {
          FollowIsLongest(m, next, source[1..]);
          LongestCons(m, path, id, Follow(m.byId, id, source[1..], |next|), source);
        }
      } else {
        StopsAtOnce(m, path, source);
      }
    }
  }

  lemma FollowStep(byId: map<string, Node>, parent: string, source: seq<Candidate>, length: nat)
    requires source != []
    ensures
      var id, got := CandidateId(source[0]), Follow(byId, parent, source, length);
      if id == "" || id !in byId || byId[id].parentId != parent then got == []
      else got == [id] + if length + 1 >= MAX_DEPTH then [] else Follow(byId, id, source[1..], length + 1)
  {
  }

  lemma StopsAtOnce(m: Model, path: seq<string>, source: seq<Candidate>)
    requires IsRootChain(m.byId, m.rootId, path) && source != []
    requires !IsRootChain(m.byId, m.rootId, path + [CandidateId(source[0])])
    ensures Longest(m, path, [], source)
  {
    assert path + [] == path;
  }

  /** On any input sanitizePath returns the longest real root chain that the input spells. */
  lemma SanitizeIsLongest(m: Model, source: seq<Candidate>)
    requires GoodModel(m)
    ensures Longest(m, [m.rootId], Sanitized(m, source)[1..], WithoutRoot(m.rootId, source))
    ensures IsRootChain(m.byId, m.rootId, Sanitized(m, source))
  {
    FollowIsLongest(m, [m.rootId], WithoutRoot(m.rootId, source));
    assert Sanitized(m, source)[1..] == Follow(m.byId, m.rootId, WithoutRoot(m.rootId, source), 1);
  }

  function Names(path: seq<string>): (r: seq<Candidate>)
    ensures |r| == |path| && forall i :: 0 <= i < |path| ==> r[i] == Name(path[i])
  {
    seq(|path|, i requires 0 <= i < |path| => Name(path[i]))
  }

  /** It leaves every real root chain alone. */
  lemma SanitizeFixesRootChains(m: Model, path: seq<string>)
    requires GoodModel(m) && IsRootChain(m.byId, m.rootId, path)
    ensures Sanitized(m, Names(path)) == path
  {
    var got := Sanitized(m, Names(path));
    SanitizeIsLongest(m, Names(path));
    NamesWithoutRoot(m.rootId, path);
    LongestOfItself(m, path, got[1..]);
    hide *;
    assert [m.rootId] + got[1..] == got;
  }

  lemma NamesWithoutRoot(root: string, path: seq<string>)
    requires path != [] && path[0] == root
    ensures WithoutRoot(root, Names(path)) == Names(path[1..])
  {
  }

  lemma LongestOfItself(m: Model, path: seq<string>, got: seq<string>)
    requires IsRootChain(m.byId, m.rootId, path) && Longest(m, [m.rootId], got, Names(path[1..]))
    ensures [m.rootId] + got == path
  {
    var k := |got| + 1;
    assert [m.rootId] + got == path[..k];
    assert k < |path| ==> path[..k] + [path[k]] == path[..k + 1] && Names(path[1..])[|got|] == Name(path[k]);
    if k < |path| {
      RootChainPrefix(m.byId, m.rootId, path, k + 1);
      assert false;
    }
  }

  lemma RootChainPrefix(byId: map<string, Node>, root: string, path: seq<string>, k: nat)
    requires IsRootChain(byId, root, path) && 0 < k <= |path|
    ensures IsRootChain(byId, root, path[..k])
  {
  }

  /** Sanitizing is idempotent. */
  lemma SanitizeIdempotent(m: Model, source: seq<Candidate>)
    requires GoodModel(m)
    ensures Sanitized(m, Names(Sanitized(m, source))) == Sanitized(m, source)
  {
    SanitizeIsLongest(m, source);
    SanitizeFixesRootChains(m, Sanitized(m, source));
  }

  // ----- pathToNode, selectPathNode, rowsForPath -----

  lemma TrailOf(m: Model, id: string) returns (trail: seq<string>)
    requires GoodModel(m) && id in m.byId
    ensures IsTrail(m.byId, trail) && trail[0] == id && NoDup(trail) && |trail| <= MAX_DEPTH
    ensures forall i :: 0 <= i < |trail| ==> m.byId[trail[i]].id == trail[i]
    ensures forall i :: 0 <= i < |trail| ==> (m.byId[trail[i]].parentId == "" <==> i == |trail| - 1)
    ensures IsRootChain(m.byId, m.rootId, Reversed(trail)) && Reversed(trail)[|trail| - 1] == id
    ensures Reversed(trail)[0] == m.rootId
  {
    trail :| IsTrail(m.byId, trail) && trail[0] == id;
    TrailBound(m.byId, trail);
    TrailHasNoRepeats(m.byId, trail);
    TrailIsRootChain(m.byId, m.rootId, trail);
    forall i | 0 <= i < |trail| ensures m.byId[trail[i]].parentId == "" <==> i == |trail| - 1 {
      if i < |trail| - 1 { assert m.byId[trail[i]].parentId == trail[i + 1] && trail[i + 1] in m.byId; }
    }
  }

  /** The trail of a node, with what the walk up needs to know about it. */
  ghost predicate WalksUp(m: Model, id: string, trail: seq<string>) {
    && trail != [] && trail[0] == id && NoDup(trail) && |trail| <= MAX_DEPTH
    && (forall i :: 0 <= i < |trail| ==> trail[i] in m.byId && m.byId[trail[i]].id == trail[i])
    && (forall i :: 0 <= i < |trail| - 1 ==> m.byId[trail[i]].parentId == trail[i + 1])
    && (forall i :: 0 <= i < |trail| ==> (m.byId[trail[i]].parentId == "" <==> i == |trail| - 1))
  }

  ghost predicate Climbed(m: Model, trail: seq<string>, current: Node, reverse: seq<string>, seen: set<string>) {
    && |reverse| < |trail| && reverse == trail[..|reverse|]
    && trail[|reverse|] in m.byId && current == m.byId[trail[|reverse|]]
    && forall x :: x in seen ==> x in reverse
  }

  lemma ClimbStarts(m: Model, id: string) returns (trail: seq<string>)
    requires GoodModel(m) && id in m.byId
    ensures WalksUp(m, id, trail) && Climbed(m, trail, m.byId[id], [], {})
    ensures IsRootChain(m.byId, m.rootId, Reversed(trail))
    ensures |Reversed(trail)| == |trail| > 0 && Reversed(trail)[0] == m.rootId && Reversed(trail)[|trail| - 1] == id
  {
    hide GoodModel, Reversed, IsRootChain;
    trail := TrailOf(m, id);
  }

  lemma ClimbStep(m: Model, id: string, trail: seq<string>, current: Node, reverse: seq<string>, seen: set<string>)
    requires WalksUp(m, id, trail) && Climbed(m, trail, current, reverse, seen)
    ensures current.id !in seen
    ensures current.parentId == "" ==> reverse + [current.id] == trail
    ensures current.parentId != "" ==>
              && |reverse| + 1 < MAX_DEPTH && current.parentId in m.byId
              && Climbed(m, trail, m.byId[current.parentId], reverse + [current.id], seen + {current.id})
  {
    var k := |reverse|;
    assert trail[..k + 1] == trail[..k] + [trail[k]];
    assert trail[k] !in trail[..k];
    if k + 1 < |trail| { assert m.byId[trail[k]].parentId == trail[k + 1]; }
  }

  /** pathToNode, with its repeat check and its depth limit, neither of which ever fires. */
  method PathToNode(m: Model, id: string) returns (path: seq<string>)
    requires GoodModel(m)
    ensures id in m.byId ==> IsRootChain(m.byId, m.rootId, path) && path[|path| - 1] == id
    ensures id !in m.byId ==> path == []
  {
    hide GoodModel, WalksUp, Climbed, IsRootChain, Reversed;
    if id !in m.byId { return []; }
    ghost var trail := ClimbStarts(m, id);
    var reverse: seq<string>, seen: set<string>, current := [], {}, m.byId[id];
    var depth := 0;
    while depth < 4096
      invariant depth == |reverse| < 4096 && Climbed(m, trail, current, reverse, seen)
      decreases 4096 - depth
    {
      ClimbStep(m, id, trail, current, reverse, seen);
      if current.id in seen { return []; }
      seen, reverse := seen + {current.id}, reverse + [current.id];
      if current.parentId == "" { break; }
      current, depth := m.byId[current.parentId], depth + 1;
    }
    path := Reversed(reverse);
    if path[0] != m.rootId { path := []; }
  }

  function Select(byId: map<string, Node>, path: seq<string>, rowIndex: int, id: string): seq<string> {
    if !(0 <= rowIndex < |path|) || path[rowIndex] == "" || id !in byId || byId[id].parentId != path[rowIndex] then path
    else path[..rowIndex + 1] + [id]
  }

  /** selectPathNode: the row index may be anything, and an index outside the path selects nothing. */
  function SelectPathNode(m: Model, source: seq<Candidate>, rowIndex: int, id: string): seq<string> {
    Select(m.byId, Sanitized(m, source), rowIndex, id)
  }

  ghost predicate IsChildOfRow(m: Model, path: seq<string>, rowIndex: int, id: string) {
    0 <= rowIndex < |path| && id in m.byId && m.byId[id].parentId == path[rowIndex]
  }

  lemma SelectKeepsRootChain(m: Model, path: seq<string>, rowIndex: int, id: string)
    requires GoodModel(m) && IsRootChain(m.byId, m.rootId, path)
    ensures IsRootChain(m.byId, m.rootId, Select(m.byId, path, rowIndex, id))
    ensures if IsChildOfRow(m, path, rowIndex, id)
            then Select(m.byId, path, rowIndex, id) == path[..rowIndex + 1] + [id]
            else Select(m.byId, path, rowIndex, id) == path
  {
    if IsChildOfRow(m, path, rowIndex, id) {
      assert path[rowIndex] in m.byId;
      RootChainPrefix(m.byId, m.rootId, path, rowIndex + 1);
      ExtendChain(m.byId, m.rootId, path[..rowIndex + 1], id);
    }
  }

  /** Every selection yields a real root chain: the one that ends at the selected node when that node is
      a child of the row's node, and otherwise the sanitized path unchanged. */
  lemma SelectionIsRootChain(m: Model, source: seq<Candidate>, rowIndex: int, id: string)
    requires GoodModel(m)
    ensures IsRootChain(m.byId, m.rootId, SelectPathNode(m, source, rowIndex, id))
    ensures if IsChildOfRow(m, Sanitized(m, source), rowIndex, id)
            then SelectPathNode(m, source, rowIndex, id) == Sanitized(m, source)[..rowIndex + 1] + [id]
            else SelectPathNode(m, source, rowIndex, id) == Sanitized(m, source)
  {
    SanitizeIsLongest(m, source);
    SelectKeepsRootChain(m, Sanitized(m, source), rowIndex, id);
    hide IsRootChain, GoodModel, Longest, Sanitized, Select;
  }

  datatype Row = Row(parentId: string, selectedId: string, nodes: seq<Node>)

  function RowsFrom(m: Model, path: seq<string>, index: nat): seq<Row>
    decreases |path| - index
  {
    if index >= |path| || ChildrenOf(m, path[index]) == [] then []
    else
      [Row(path[index], if index + 1 < |path| then path[index + 1] else "", ChildrenOf(m, path[index]))] +
      RowsFrom(m, path, index + 1)
  }

  method RowsForPath(m: Model, source: seq<Candidate>) returns (path: seq<string>, rows: seq<Row>)
    ensures path == Sanitized(m, source) && rows == RowsFrom(m, path, 0)
  {
    path := SanitizePath(m, source);
    rows := [];
    var index := 0;
    while index < |path|
      invariant 0 <= index <= |path| && RowsFrom(m, path, 0) == rows + RowsFrom(m, path, index)
    {
      var nodes := ChildrenOf(m, path[index]);
      if nodes == [] { break; }
      ghost var was := rows;
      rows := rows + [Row(path[index], if index + 1 < |path| then path[index + 1] else "", nodes)];
      assert was + ([rows[|rows| - 1]] + RowsFrom(m, path, index + 1)) == rows + RowsFrom(m, path, index + 1);
      index := index + 1;
    }
  }

  lemma InnerNodesHaveChildren(m: Model, path: seq<string>, i: nat)
    requires GoodModel(m) && IsRootChain(m.byId, m.rootId, path) && i + 1 < |path|
    ensures ChildrenOf(m, path[i]) != [] && path[i + 1] in IdsOf(ChildrenOf(m, path[i]))
  {
    assert m.byId[path[i + 1]].parentId == path[i];
  }

  ghost predicate ShowsRow(m: Model, path: seq<string>, i: nat, row: Row)
    requires i < |path|
  {
    && row.parentId == path[i] && row.nodes == ChildrenOf(m, path[i]) && row.nodes != []
    && (if i + 1 < |path| then row.selectedId == path[i + 1] && row.selectedId in IdsOf(row.nodes)
        else row.selectedId == "")
  }

  /** One row for every node of the path from `index` on that has children: each but perhaps the last.
      Each row offers exactly the node's children, and what it marks as selected is one of them. */
  ghost predicate RowsShow(m: Model, path: seq<string>, index: nat, rows: seq<Row>)
    requires path != [] && index <= |path|
  {
    && |rows| == |path| - index - (if index < |path| && ChildrenOf(m, path[|path| - 1]) == [] then 1 else 0)
    && forall i :: 0 <= i < |rows| ==> ShowsRow(m, path, index + i, rows[i])
  }

  lemma RowsCons(m: Model, path: seq<string>, index: nat, row: Row, rest: seq<Row>)
    requires index < |path| && RowsShow(m, path, index + 1, rest) && ShowsRow(m, path, index, row)
    ensures RowsShow(m, path, index, [row] + rest)
  {
    var rows := [row] + rest;
    forall i | 0 <= i < |rows| ensures ShowsRow(m, path, index + i, rows[i]) {
      if i > 0 { assert rows[i] == rest[i - 1] && ShowsRow(m, path, index + 1 + (i - 1), rest[i - 1]); }
    }
  }

  lemma {:induction false} RowsShowPath(m: Model, path: seq<string>, index: nat)
    requires GoodModel(m) && IsRootChain(m.byId, m.rootId, path) && index <= |path|
    ensures RowsShow(m, path, index, RowsFrom(m, path, index))
    decreases |path| - index
  {
    if index < |path| {
      if index + 1 < |path| { InnerNodesHaveChildren(m, path, index); }
      hide GoodModel, IsRootChain;
      if ChildrenOf(m, path[index]) != [] {
        RowsShowPath(m, path, index + 1);
        var row := Row(path[index], if index + 1 < |path| then path[index + 1] else "", ChildrenOf(m, path[index]));
        RowsCons(m, path, index, row, RowsFrom(m, path, index + 1));
      }
    }
  }

  // ----- buildTreeModel -----

  ghost predicate ReadUpTo(raw: seq<RawNode>, k: nat, byId: map<string, Node>, order: seq<Node>) {
    && k <= |raw| && AllReadable(raw[..k]) && order == ReadNodes(raw[..k]) && UniqueIds(order) && byId == NodeMap(order)
  }

  lemma RepeatedId(raw: seq<RawNode>, k: nat, byId: map<string, Node>, order: seq<Node>)
    requires k < |raw| && ReadUpTo(raw, k, byId, order) && Readable(raw[k]) && ReadNode(raw[k]).id in byId
    ensures AllReadable(raw) ==> !UniqueIds(ReadNodes(raw))
  {
    NodeMapMembers(order);
    var i :| 0 <= i < k && order[i].id == ReadNode(raw[k]).id;
    if AllReadable(raw) {
      assert ReadNodes(raw)[i] == ReadNode(raw[..k][i]) && ReadNodes(raw)[k] == ReadNode(raw[k]);
    }
  }

  lemma NewIdExtends(order: seq<Node>, n: Node)
    requires UniqueIds(order) && n.id !in NodeMap(order)
    ensures UniqueIds(order + [n])
  {
    NodeMapMembers(order);
    hide NodeMap;
    forall i | 0 <= i < |order| ensures order[i].id != n.id { assert order[i].id in NodeMap(order); }
  }

  lemma ReadNext(raw: seq<RawNode>, k: nat, byId: map<string, Node>, order: seq<Node>)
    requires k < |raw| && ReadUpTo(raw, k, byId, order) && Readable(raw[k]) && ReadNode(raw[k]).id !in byId
    ensures var n := ReadNode(raw[k]); ReadUpTo(raw, k + 1, byId[n.id := n], order + [n])
  {
    hide NodeMap, ReadNode, Readable, UniqueIds;
    var n := ReadNode(raw[k]);
    assert raw[..k + 1] == raw[..k] + [raw[k]];
    ReadAppend(raw[..k], raw[k]);
    NewIdExtends(order, n);
    AppendToMap(order, n);
  }

  lemma ReadAppend(raw: seq<RawNode>, last: RawNode)
    requires AllReadable(raw) && Readable(last)
    ensures AllReadable(raw + [last]) && ReadNodes(raw + [last]) == ReadNodes(raw) + [ReadNode(last)]
  {
    hide Readable, ReadNode;
  }

  lemma AppendToMap(order: seq<Node>, n: Node)
    requires n.kind != ""
    ensures NodeMap(order + [n]) == NodeMap(order)[n.id := n]
  {
    assert (order + [n])[..|order|] == order;
  }

  /** The first loop of buildTreeModel. */
  method ReadAll(raw: seq<RawNode>) returns (ok: bool, byId: map<string, Node>, order: seq<Node>)
    ensures ok <==> AllReadable(raw) && UniqueIds(ReadNodes(raw))
    ensures ok ==> order == ReadNodes(raw) && byId == NodeMap(order)
  {
    byId, order := map[], [];
    assert ReadUpTo(raw, 0, byId, order);
    var k := 0;
    while k < |raw|
      invariant 0 <= k <= |raw| && ReadUpTo(raw, k, byId, order)
    {
      if !Readable(raw[k]) { return false, byId, order; }
      hide *;
      var node := ReadNode(raw[k]);
      if node.id in byId {
        RepeatedId(raw, k, byId, order);
        return false, byId, order;
      }
      ReadNext(raw, k, byId, order);
      byId, order, k := byId[node.id := node], order + [node], k + 1;
    }
    assert raw[..|raw|] == raw;
    ok := true;
  }

  lemma AttachedToNext(order: seq<Node>, k: nat, q: string, was: seq<Node>)
    requires k < |order| && AttachedTo(order, k, q, was)
    requires forall i :: 0 <= i < k ==> order[i].id != order[k].id
    ensures AttachedTo(order, k + 1, q, if order[k].parentId == q then was + [order[k]] else was)
  {
    var n := order[k];
    assert order[..k + 1] == order[..k] + [n];
    if n.parentId == q {
      forall i | 0 <= i < |was| ensures was[i].id != n.id {
        assert was[i] in order[..k];
      }
    }
  }

  lemma NextChild(byId: map<string, Node>, order: seq<Node>, k: nat, children: map<string, seq<Node>>)
    requires k < |order| && Attached(byId, order, k, children)
    requires order[k].parentId in byId
    requires forall i, j :: 0 <= i < j < |order| ==> order[i].id != order[j].id
    ensures var p := order[k].parentId;
            Attached(byId, order, k + 1, children[p := (if p in children then children[p] else []) + [order[k]]])
  {
    hide AttachedTo;
    var p := order[k].parentId;
    var next := children[p := (if p in children then children[p] else []) + [order[k]]];
    forall q | q in byId ensures AttachedTo(order, k + 1, q, if q in next then next[q] else []) {
      AttachedToNext(order, k, q, if q in children then children[q] else []);
    }
  }

  /** `list` holds the nodes among the first `k` whose parent is `p`, once each. */
  ghost predicate AttachedTo(order: seq<Node>, k: nat, p: string, list: seq<Node>)
    requires k <= |order|
  {
    && (forall i, j :: 0 <= i < j < |list| ==> list[i].id != list[j].id)
    && (forall n :: n in list <==> n in order[..k] && n.parentId == p)
  }

  ghost predicate Attached(byId: map<string, Node>, order: seq<Node>, k: nat, children: map<string, seq<Node>>) {
    && k <= |order|
    && forall p :: p in byId ==> AttachedTo(order, k, p, if p in children then children[p] else [])
  }

  lemma AttachedSkips(order: seq<Node>, k: nat, p: string, list: seq<Node>)
    requires k < |order| && AttachedTo(order, k, p, list) && order[k].parentId != p
    ensures AttachedTo(order, k + 1, p, list)
  {
    assert order[..k + 1] == order[..k] + [order[k]];
  }

  lemma SkipChild(byId: map<string, Node>, order: seq<Node>, k: nat, children: map<string, seq<Node>>)
    requires k < |order| && Attached(byId, order, k, children) && order[k].parentId !in byId
    ensures Attached(byId, order, k + 1, children)
  {
    hide AttachedTo;
    forall q | q in byId ensures AttachedTo(order, k + 1, q, if q in children then children[q] else []) {
      AttachedSkips(order, k, q, if q in children then children[q] else []);
    }
  }

  lemma NoneAttached(byId: map<string, Node>, order: seq<Node>)
    ensures Attached(byId, order, 0, map[])
  {
  }

  /** The second loop of buildTreeModel: every node but the root is attached to its parent. */
  method AttachChildren(byId: map<string, Node>, order: seq<Node>, rootId: string)
    returns (ok: bool, children: map<string, seq<Node>>)
    requires UniqueIds(order) && "" !in byId
    requires forall n :: n in order && n.id == rootId ==> n.parentId == ""
    ensures ok <==> forall i :: 0 <= i < |order| && order[i].id != rootId ==> order[i].parentId in byId
    ensures ok ==> Attached(byId, order, |order|, children)
  {
    hide Attached;
    children := map[];
    NoneAttached(byId, order);
    var k := 0;
    while k < |order|
      invariant 0 <= k <= |order| && Attached(byId, order, k, children)
      invariant forall i :: 0 <= i < k && order[i].id != rootId ==> order[i].parentId in byId
    {
      var n := order[k];
      if n.id == rootId {
        SkipChild(byId, order, k, children);
      } else {
        if n.parentId == "" || n.parentId !in byId { return false, children; }
        NextChild(byId, order, k, children);
        children := children[n.parentId := (if n.parentId in children then children[n.parentId] else []) + [n]];
      }
      k := k + 1;
    }
    ok := true;
  }

  lemma PermutationKeepsIds(list: seq<Node>, other: seq<Node>)
    requires multiset(list) == multiset(other) && forall i, j :: 0 <= i < j < |list| ==> list[i].id != list[j].id
    ensures forall i, j :: 0 <= i < j < |other| ==> other[i].id != other[j].id
  {
    MembersOfPermutation(list, other);
    assert NoDup(list);
    NoDupPermutation(list, other);
    forall i, j | 0 <= i < j < |other| ensures other[i].id != other[j].id {
      assert other[i] in list && other[j] in list && other[i] != other[j];
    }
  }

  lemma SortedAttached(order: seq<Node>, p: string, list: seq<Node>, compare: (Node, Node) -> bool)
    requires AttachedTo(order, |order|, p, list)
    ensures AttachedTo(order, |order|, p, Sort(compare, list))
  {
    hide Sort;
    var sorted := Sort(compare, list);
    MembersOfPermutation(list, sorted);
    PermutationKeepsIds(list, sorted);
  }

  /** String.prototype.localeCompare of the user's locale: negative, zero or positive. */
  type Locale = (string, string) -> int

  /** compareNodes(a, b) <= 0. */
  predicate NodeLeq(locale: Locale, a: Node, b: Node) {
    if a.order != b.order then a.order < b.order
    else if locale(a.title, b.title) != 0 then locale(a.title, b.title) < 0
    else locale(a.id, b.id) <= 0
  }

  function Comparison(locale: Locale): (Node, Node) -> bool {
    (a: Node, b: Node) => NodeLeq(locale, a, b)
  }

  /** Each list is in the order of the comparison, when that orders the list's nodes at all. */
  ghost predicate ListsSorted(children: map<string, seq<Node>>, leq: (Node, Node) -> bool) {
    forall p :: p in children ==> SortedIfOrdered(leq, children[p])
  }

  ghost predicate SortedIfOrdered(leq: (Node, Node) -> bool, s: seq<Node>) {
    TotalPreorderOn(leq, s) ==> Sorted(leq, s)
  }

  lemma SortOrders(leq: (Node, Node) -> bool, s: seq<Node>)
    ensures SortedIfOrdered(leq, Sort(leq, s))
  {
    var r := Sort(leq, s);
    MembersOfPermutation(s, r);
    if TotalPreorderOn(leq, r) { SortIsSorted(leq, s); }
  }

  /** The third loop: sort each list with the locale's comparison, whatever that is. */
  method SortLists(byId: map<string, Node>, order: seq<Node>, attached: map<string, seq<Node>>, locale: Locale)
    returns (children: map<string, seq<Node>>)
    requires Attached(byId, order, |order|, attached)
    ensures Attached(byId, order, |order|, children) && ListsSorted(children, Comparison(locale))
  {
    hide AttachedTo, SortedIfOrdered, Comparison;
    children := attached;
    var todo := attached.Keys;
    while todo != {}
      invariant todo <= attached.Keys && children.Keys == attached.Keys
      invariant Attached(byId, order, |order|, children)
      invariant forall p :: p in children && p !in todo ==> SortedIfOrdered(Comparison(locale), children[p])
    {
      var p :| p in todo;
      if p in byId {
        assert AttachedTo(order, |order|, p, if p in children then children[p] else []);
        SortedAttached(order, p, children[p], Comparison(locale));
      }
      SortOrders(Comparison(locale), children[p]);
      children := children[p := Sort(Comparison(locale), children[p])];
      todo := todo - {p};
    }
  }

  ghost predicate Linked(byId: map<string, Node>, v: seq<string>) {
    && v != [] && (forall i :: 0 <= i < |v| ==> v[i] in byId)
    && (forall i :: 0 <= i < |v| - 1 ==> byId[v[i]].parentId == v[i + 1])
  }

  /** A walk up is a prefix of the trail, when there is one. */
  lemma {:induction false} LinkedPrefix(byId: map<string, Node>, v: seq<string>, trail: seq<string>)
    requires Linked(byId, v) && IsTrail(byId, trail) && v[0] == trail[0] && "" !in byId
    ensures |v| <= |trail| && v == trail[..|v|]
  {
    var n := |v|;
    if n > 1 {
      LinkedPrefix(byId, v[..n - 1], trail);
      assert byId[v[n - 2]].parentId == v[n - 1] && v[n - 2] == v[..n - 1][n - 2] == trail[n - 2];
      assert n - 1 < |trail|;
      assert byId[trail[n - 2]].parentId == trail[n - 1];
      assert v == v[..n - 1] + [v[n - 1]] && trail[..n] == trail[..n - 1] + [trail[n - 1]];
    }
  }

  lemma RepeatMeansNoTrail(byId: map<string, Node>, v: seq<string>, j: nat)
    requires Linked(byId, v) && "" !in byId && (|v| > |byId| || (j < |v| - 1 && v[j] == v[|v| - 1]))
    ensures !HasTrail(byId, v[0])
  {
    if HasTrail(byId, v[0]) {
      var trail :| IsTrail(byId, trail) && trail[0] == v[0];
      LinkedPrefix(byId, v, trail);
      TrailHasNoRepeats(byId, trail);
      TrailBound(byId, trail);
      assert false;
    }
  }

  lemma LinkedNext(byId: map<string, Node>, v: seq<string>)
    requires Linked(byId, v) && v[|v| - 1] in byId
    ensures var p := byId[v[|v| - 1]].parentId; p in byId ==> Linked(byId, v + [p])
    ensures IsRoot(byId[v[|v| - 1]]) ==> HasTrail(byId, v[0])
  {
    if IsRoot(byId[v[|v| - 1]]) { assert IsTrail(byId, v); }
  }

  lemma LinkedAlone(byId: map<string, Node>, id: string)
    requires id in byId
    ensures Linked(byId, [id])
  {
  }

  /** The validation walk of buildTreeModel: bounded by the number of nodes, and exact. */
  method ReachesRoot(byId: map<string, Node>, rootId: string, start: string) returns (ok: bool)
    requires "" !in byId && start in byId && KeyedById(byId) && ParentsExist(byId)
    requires forall id :: id in byId ==> (IsRoot(byId[id]) <==> id == rootId)
    ensures ok <==> HasTrail(byId, start)
  {
    hide Linked, HasTrail;
    var seen: set<string>, current, depth := {}, byId[start], 0;
    ghost var v := [start];
    LinkedAlone(byId, start);
    while depth <= |byId|
      invariant 0 <= depth <= |byId| + 1 && |v| == depth + 1 && Linked(byId, v) && v[0] == start
      invariant v[depth] in byId && current == byId[v[depth]] && (forall x :: x in seen <==> x in v[..depth])
    {
      if current.id in seen {
        ghost var j :| 0 <= j < depth && v[..depth][j] == current.id;
        RepeatMeansNoTrail(byId, v, j);
        return false;
      }
      seen := seen + {current.id};
      LinkedNext(byId, v);
      if current.parentId == "" {
        if current.id != rootId { return false; }
        return true;
      }
      assert v[..depth + 1] == v[..depth] + [current.id];
      v := v + [current.parentId];
      current := byId[current.parentId];
      depth := depth + 1;
    }
    RepeatMeansNoTrail(byId, v, 0);
    ok := false;
  }

  lemma ReadNodesAreNamed(p: Payload)
    requires WellShaped(p)
    ensures var order := ReadNodes(p.nodes);
            var byId := NodeMap(order);
            Enumerates(order, byId) && KeyedById(byId) && |byId| == |order|
  {
    NodeMapMembers(ReadNodes(p.nodes));
  }

  /** In a rooted map every parent exists, and only the root has none. */
  lemma RootedMeansParents(byId: map<string, Node>, root: string)
    requires Rooted(byId, root)
    ensures ParentsExist(byId)
  {
    forall id | id in byId && !IsRoot(byId[id]) ensures byId[id].parentId in byId {
      var trail :| IsTrail(byId, trail) && trail[0] == id;
      assert |trail| > 1 && byId[trail[0]].parentId == trail[1];
    }
  }

  lemma AttachedListIs(order: seq<Node>, m: Model, p: string, list: seq<Node>)
    requires KeyedById(m.byId) && AttachedTo(order, |order|, p, list)
    requires forall i :: 0 <= i < |order| ==> order[i].id in m.byId && m.byId[order[i].id] == order[i]
    requires forall id :: id in m.byId ==> exists i :: 0 <= i < |order| && order[i].id == id
    ensures ListsChildren(m.byId, p, IdsOf(list)) && FromMap(m.byId, list)
  {
    assert order[..|order|] == order;
    forall i | 0 <= i < |list| ensures list[i].id in m.byId && m.byId[list[i].id] == list[i] {
      assert list[i] in order;
    }
    forall id ensures id in IdsOf(list) <==> id in m.byId && m.byId[id].parentId == p {
      if id in m.byId && m.byId[id].parentId == p {
        var i :| 0 <= i < |order| && order[i].id == id;
        assert order[i] in list;
        var j :| 0 <= j < |list| && list[j] == order[i];
        assert IdsOf(list)[j] == id;
      }
      if id in IdsOf(list) {
        var j :| 0 <= j < |list| && IdsOf(list)[j] == id;
        assert list[j] in list;
      }
    }
  }

  lemma AttachedMeansListed(order: seq<Node>, m: Model)
    requires Attached(m.byId, order, |order|, m.children) && KeyedById(m.byId)
    requires forall i :: 0 <= i < |order| ==> order[i].id in m.byId && m.byId[order[i].id] == order[i]
    requires forall id :: id in m.byId ==> exists i :: 0 <= i < |order| && order[i].id == id
    ensures ListsAllChildren(m)
  {
    hide ListsChildren, FromMap, KeyedById, AttachedTo, IdsOf;
    forall p | p in m.byId
      ensures ListsChildren(m.byId, p, IdsOf(ChildrenOf(m, p))) && FromMap(m.byId, ChildrenOf(m, p))
    {
      AttachedListIs(order, m, p, ChildrenOf(m, p));
    }
  }

  method AllReachRoot(byId: map<string, Node>, rootId: string) returns (ok: bool)
    requires "" !in byId && KeyedById(byId) && ParentsExist(byId)
    requires forall id :: id in byId ==> (IsRoot(byId[id]) <==> id == rootId)
    ensures ok <==> forall id :: id in byId ==> HasTrail(byId, id)
  {
    var todo := byId.Keys;
    while todo != {}
      invariant todo <= byId.Keys && forall id :: id in byId && id !in todo ==> HasTrail(byId, id)
    {
      var id :| id in todo;
      ok := ReachesRoot(byId, rootId, id);
      if !ok { return; }
      todo := todo - {id};
    }
    ok := true;
  }

  /** `order` lists the values of `byId`, which are keyed by their non-empty ids. */
  ghost predicate Enumerates(order: seq<Node>, byId: map<string, Node>) {
    && "" !in byId && KeyedById(byId) && UniqueIds(order)
    && (forall i :: 0 <= i < |order| ==> order[i].id in byId && byId[order[i].id] == order[i])
    && (forall id :: id in byId ==> exists i :: 0 <= i < |order| && order[i].id == id)
  }

  ghost predicate ParentsOf(order: seq<Node>, byId: map<string, Node>, rootId: string) {
    forall i :: 0 <= i < |order| && order[i].id != rootId ==> order[i].parentId in byId
  }

  lemma RootedNeeds(order: seq<Node>, byId: map<string, Node>, rootId: string)
    requires Enumerates(order, byId) && Rooted(byId, rootId)
    ensures rootId in byId && byId[rootId].parentId == "" && ParentsOf(order, byId, rootId)
  {
    RootedMeansParents(byId, rootId);
  }

  lemma ParentsSuffice(order: seq<Node>, byId: map<string, Node>, rootId: string)
    requires Enumerates(order, byId) && ParentsOf(order, byId, rootId)
    requires rootId in byId && byId[rootId].parentId == ""
    ensures ParentsExist(byId) && forall id :: id in byId ==> (IsRoot(byId[id]) <==> id == rootId)
  {
    forall id | id in byId
      ensures (IsRoot(byId[id]) <==> id == rootId) && (!IsRoot(byId[id]) ==> byId[id].parentId in byId)
    {
      var i :| 0 <= i < |order| && order[i].id == id;
    }
  }

  lemma RootIsParentless(order: seq<Node>, byId: map<string, Node>, rootId: string)
    requires Enumerates(order, byId) && rootId in byId && byId[rootId].parentId == ""
    ensures forall n :: n in order && n.id == rootId ==> n.parentId == ""
  {
  }

  /** buildTreeModel once the nodes are read. */
  method BuildFrom(byId: map<string, Node>, order: seq<Node>, rootId: string, locale: Locale) returns (r: Built)
    requires Enumerates(order, byId)
    ensures r.Accepted? <==> Rooted(byId, rootId)
    ensures r.Accepted? ==> r.model.rootId == rootId && r.model.byId == byId && ListsAllChildren(r.model)
    ensures r.Accepted? ==> ListsSorted(r.model.children, Comparison(locale))
  {
    if Rooted(byId, rootId) { RootedNeeds(order, byId, rootId); }
    if rootId !in byId { return Rejected; }
    if byId[rootId].parentId != "" { return Rejected; }
    RootIsParentless(order, byId, rootId);
    var attached, children := AttachChildren(byId, order, rootId);
    if !attached { return Rejected; }
    ParentsSuffice(order, byId, rootId);
    children := SortLists(byId, order, children, locale);
    var reached := AllReachRoot(byId, rootId);
    if !reached { return Rejected; }
    var m := Model(rootId, byId, children);
    AttachedMeansListed(order, m);
    r := Accepted(m);
  }

  /** buildTreeModel: it accepts exactly the well-shaped payloads whose nodes form a tree under the
      declared root, and the model it builds lists every node's children once each, in the order of the
      locale. */
  method BuildTreeModel(p: Payload, locale: Locale) returns (r: Built)
    ensures r.Accepted? <==> ShellValid(p)
    ensures r.Accepted? ==> IsModelOf(p, r.model) && GoodModel(r.model)
    ensures r.Accepted? ==> ListsSorted(r.model.children, Comparison(locale))
  {
    if !p.Payload? || p.schema != 1 || !IsNonEmptyString(p.rootId) || !p.nodesIsArray { return Rejected; }
    if |p.nodes| < 1 || |p.nodes| > MAX_NODES { return Rejected; }
    var readable, byId, order := ReadAll(p.nodes);
    if !readable { return Rejected; }
    ReadNodesAreNamed(p);
    hide NodeMap, UniqueIds, AllReadable, IsNonEmptyString, Rooted, ListsAllChildren, KeyedById, ListsSorted;
    r := BuildFrom(byId, order, p.rootId.s, locale);
  }

  // ----- The daemon and the shell agree -----

  /** A node as the daemon serialises it: an empty parent or workspace id is omitted. */
  function Published(n: Node): RawNode {
    RawNode(JsString(n.id), if n.parentId == "" then JsOther else JsString(n.parentId), JsString(n.kind),
            JsString(n.title), JsInteger(n.order), if n.workspaceId == "" then JsOther else JsString(n.workspaceId))
  }

  function PublishedAll(nodes: seq<Node>): (raw: seq<RawNode>)
    ensures |raw| == |nodes| && forall i :: 0 <= i < |nodes| ==> raw[i] == Published(nodes[i])
  {
    seq(|nodes|, i requires 0 <= i < |nodes| => Published(nodes[i]))
  }

  /** The snapshot of a tree that was built from `nodes`. */
  function SnapshotOf(t: Tree, nodes: seq<Node>): Payload {
    Payload(1, JsString(t.root), true, PublishedAll(nodes))
  }

  lemma ReadPublished(nodes: seq<Node>)
    requires NamedNodes(nodes) && forall n :: n in nodes ==> n.kind != ""
    ensures AllReadable(PublishedAll(nodes)) && ReadNodes(PublishedAll(nodes)) == nodes
  {
    assert Text.Blank("");
    forall i | 0 <= i < |nodes| ensures Readable(PublishedAll(nodes)[i]) && ReadNode(Published(nodes[i])) == nodes[i] {
      assert nodes[i] in nodes && !Text.Blank(nodes[i].id);
    }
  }

  lemma UniqueIdsPermutation(a: seq<Node>, b: seq<Node>)
    requires UniqueIds(a) && multiset(a) == multiset(b)
    ensures UniqueIds(b)
  {
    MembersOfPermutation(a, b);
    assert NoDup(a);
    NoDupPermutation(a, b);
    forall i, j | 0 <= i < j < |b| ensures b[i].id != b[j].id {
      assert b[i] in a && b[j] in a && b[i] != b[j];
    }
  }

  lemma MapIncluded(a: seq<Node>, b: seq<Node>, id: string)
    requires UniqueIds(a) && UniqueIds(b) && id in NodeMap(a)
    requires forall n :: n in a ==> n in b
    ensures id in NodeMap(b) && NodeMap(b)[id] == NodeMap(a)[id]
  {
    NodeMapMembers(a);
    NodeMapMembers(b);
    var i :| 0 <= i < |a| && a[i].id == id;
    assert a[i] in b;
  }

  lemma SameMap(a: seq<Node>, b: seq<Node>)
    requires UniqueIds(a) && multiset(a) == multiset(b)
    ensures UniqueIds(b) && NodeMap(a) == NodeMap(b)
  {
    UniqueIdsPermutation(a, b);
    MembersOfPermutation(a, b);
    hide UniqueIds, NodeMap;
    forall id | id in NodeMap(a) ensures id in NodeMap(b) && NodeMap(b)[id] == NodeMap(a)[id] { MapIncluded(a, b, id); }
    forall id | id in NodeMap(b) ensures id in NodeMap(a) { MapIncluded(b, a, id); }
  }

  lemma NamedPermutation(a: seq<Node>, b: seq<Node>)
    requires NamedNodes(a) && multiset(a) == multiset(b)
    ensures NamedNodes(b)
  {
    MembersOfPermutation(a, b);
    forall i | 0 <= i < |b| ensures !Text.Blank(b[i].id) && !Text.Blank(b[i].title) { assert b[i] in a; }
  }

  lemma SnapshotIsShaped(nodes: seq<Node>, t: Tree, sent: seq<Node>)
    requires NamedNodes(nodes) && UniqueIds(nodes) && t.root != "" && 1 <= |nodes| <= 4096
    requires multiset(sent) == multiset(nodes) && forall n :: n in nodes ==> n.kind != ""
    ensures WellShaped(SnapshotOf(t, sent)) && ReadNodes(SnapshotOf(t, sent).nodes) == sent
  {
    MembersOfPermutation(sent, nodes);
    NamedPermutation(nodes, sent);
    UniqueIdsPermutation(nodes, sent);
    ReadPublished(sent);
    hide NamedNodes, UniqueIds, AllReadable;
  }

  /** Every hierarchy the daemon accepts and publishes, in whatever node order, is accepted by the shell,
      and both sides hold the same nodes under the same root. */
  lemma ShellAcceptsDaemonTrees(nodes: seq<Node>, t: Tree, sent: seq<Node>)
    requires Valid(nodes) && IsTreeOf(nodes, t) && 1 <= |nodes| <= 4096
    requires multiset(sent) == multiset(nodes) && forall n :: n in nodes ==> n.kind != ""
    ensures ShellValid(SnapshotOf(t, sent))
    ensures forall m :: IsModelOf(SnapshotOf(t, sent), m) ==> m.byId == t.nodes && m.rootId == t.root && GoodModel(m)
  {
    assert t.root != "";
    SnapshotIsShaped(nodes, t, sent);
    SameMap(nodes, sent);
    TreeSize(nodes);
    hide Valid, NodeMap, UniqueIds, WellShaped, ReadNodes, Rooted, KeyedById, ListsAllChildren, Partitioned;
  }

  lemma TreeSize(nodes: seq<Node>)
    requires Valid(nodes)
    ensures UniqueIds(nodes) && |NodeMap(nodes)| == |nodes|
  {
    NodeMapMembers(nodes);
  }

  predicate KnownKind(kind: string) {
    kind in {"category", "project", "task", "action", "widget", "query"}
  }

  /** contexttree.normalizeNode: trim every field, default the kind, and bound the lengths. */
  function Trimmed(raw: Node): Node {
    var kind := Text.TrimSpace(raw.kind);
    Node(Text.TrimSpace(raw.id), Text.TrimSpace(raw.parentId), if kind == "" then "category" else kind,
         Text.TrimSpace(raw.title), raw.order, Text.TrimSpace(raw.workspaceId))
  }

  predicate WithinLimits(n: Node) {
    1 <= |n.id| <= 128 && |n.parentId| <= 128 && 1 <= |n.title| <= 256 && |n.workspaceId| <= 128 && KnownKind(n.kind)
  }

  /** The document is one that contexttree.compile turns into `nodes`. */
  ghost predicate Compiles(document: seq<Node>, nodes: seq<Node>) {
    && 1 <= |document| <= 4096 && |nodes| == |document|
    && (forall i :: 0 <= i < |nodes| ==> nodes[i] == Trimmed(document[i]) && WithinLimits(nodes[i]))
    && Valid(nodes)
  }

  /** So a reload that the daemon accepts never produces a snapshot that the shell rejects. */
  lemma ReloadsReachTheShell(document: seq<Node>, nodes: seq<Node>, t: Tree, sent: seq<Node>)
    requires Compiles(document, nodes) && IsTreeOf(nodes, t) && multiset(sent) == multiset(nodes)
    ensures ShellValid(SnapshotOf(t, sent))
    ensures forall m :: IsModelOf(SnapshotOf(t, sent), m) ==> m.byId == t.nodes && m.rootId == t.root && GoodModel(m)
  {
    CompiledKinds(document, nodes);
    hide *;
    ShellAcceptsDaemonTrees(nodes, t, sent);
  }

  lemma CompiledKinds(document: seq<Node>, nodes: seq<Node>)
    requires Compiles(document, nodes)
    ensures Valid(nodes) && 1 <= |nodes| <= 4096 && forall n :: n in nodes ==> n.kind != ""
  {
    hide Valid, Trimmed;
    forall n | n in nodes ensures n.kind != "" {
      var i :| 0 <= i < |nodes| && nodes[i] == n;
      assert KnownKind(nodes[i].kind);
    }
  }

  /** The daemon's Path and the shell's pathToNode name the same nodes, and sanitizing that path keeps it. */
  lemma PathsAgree(t: Tree, m: Model, daemonPath: seq<Node>, shellPath: seq<string>, id: string)
    requires GoodModel(m) && m.byId == t.nodes && m.rootId == t.root
    requires IsRootChain(t.nodes, t.root, IdsOf(daemonPath)) && daemonPath[|daemonPath| - 1].id == id
    requires IsRootChain(m.byId, m.rootId, shellPath) && shellPath[|shellPath| - 1] == id
    ensures shellPath == IdsOf(daemonPath) && |shellPath| <= MAX_DEPTH
    ensures Sanitized(m, Names(shellPath)) == shellPath
  {
    RootChainUnique(m.byId, m.rootId, shellPath, IdsOf(daemonPath));
    RootChainBound(m.byId, m.rootId, shellPath);
    SanitizeFixesRootChains(m, shellPath);
  }

  /** The locale orders the two strings as the daemon does. */
  predicate OrdersPlainly(locale: Locale, a: string, b: string) {
    (locale(a, b) == 0 <==> a == b) && (locale(a, b) <= 0 <==> Text.Leq(a, b))
  }

  /** It does so for the titles and the ids of these nodes. */
  ghost predicate PlainLocale(locale: Locale, nodes: seq<Node>) {
    forall x, y :: x in nodes && y in nodes ==>
      OrdersPlainly(locale, x.title, y.title) && OrdersPlainly(locale, x.id, y.id)
  }

  lemma PlainComparison(locale: Locale, s: seq<Node>)
    requires PlainLocale(locale, s)
    ensures forall a, b :: a in s && b in s ==> (NodeLeq(locale, a, b) <==> SiblingLeq(a, b))
    ensures TotalPreorderOn(Comparison(locale), s)
  {
    forall x, y, z | x in s && y in s && z in s && SiblingLeq(x, y) && SiblingLeq(y, z) ensures SiblingLeq(x, z) {
      SiblingOrder(x, y, z);
    }
    forall x, y | x in s && y in s ensures SiblingLeq(x, y) || SiblingLeq(y, x) { SiblingOrder(x, y, y); }
  }

  /** When the locale orders the titles and ids of a node's children as the daemon does, the shell lists
      those children in the daemon's order. */
  lemma ChildrenAgree(t: Tree, m: Model, locale: Locale, p: string)
    requires KeyedById(t.nodes) && Partitioned(t.nodes, t.children) && p in t.nodes
    requires m.byId == t.nodes && ListsAllChildren(m) && ListsSorted(m.children, Comparison(locale))
    requires PlainLocale(locale, ChildrenOf(m, p))
    ensures IdsOf(ChildrenOf(m, p)) == ChildIds(t.children, p)
  {
    var list := ChildrenOf(m, p);
    var ids := IdsOf(list);
    PlainComparison(locale, list);
    assert Sorted(Comparison(locale), list) by {
      if p in m.children { assert SortedIfOrdered(Comparison(locale), m.children[p]); }
    }
    assert ListsChildren(m.byId, p, ids) && FromMap(m.byId, list);
    SameOrderOnIds(t.nodes, locale, list);
    ChildListUnique(t.nodes, p, ids, ChildIds(t.children, p));
  }

  lemma SameOrderOnIds(nodes: map<string, Node>, locale: Locale, list: seq<Node>)
    requires FromMap(nodes, list) && Sorted(Comparison(locale), list)
    requires forall a, b :: a in list && b in list ==> (NodeLeq(locale, a, b) <==> SiblingLeq(a, b))
    ensures Sorted(ChildLeq(nodes), IdsOf(list))
  {
    hide SiblingLeq;
    var ids := IdsOf(list);
    forall i, j | 0 <= i < j < |ids| ensures ChildLeq(nodes)(ids[i], ids[j]) {
      assert list[i] in list && list[j] in list && Comparison(locale)(list[i], list[j]);
    }
  }

  // ----- The order of the lists -----

  /** Where the comparison orders a list at all, no node comes before an earlier one: by order, then title,
      then id, as the locale compares them. */
  lemma ListsComeInOrder(p: Payload, locale: Locale, m: Model, id: string, i: nat, j: nat)
    requires IsModelOf(p, m) && ListsSorted(m.children, Comparison(locale)) && id in m.children
    requires TotalPreorderOn(Comparison(locale), m.children[id]) && i < j < |m.children[id]|
    ensures
      var a, b := m.children[id][i], m.children[id][j];
      && a.order <= b.order
      && (a.order == b.order ==>
            locale(a.title, b.title) <= 0 && (locale(a.title, b.title) == 0 ==> locale(a.id, b.id) <= 0))
  {
    hide IsModelOf;
    assert SortedIfOrdered(Comparison(locale), m.children[id]);
    assert Comparison(locale)(m.children[id][i], m.children[id][j]);
  }

  /** A node is readable exactly when its id and title are non-empty strings; whatever its other fields hold,
      they are read, or get their defaults. */
  lemma ReadExactly(id: JsValue, parentId: JsValue, kind: JsValue, title: JsValue, order: JsValue, ws: JsValue)
    ensures !Readable(NotAnObject)
    ensures Readable(RawNode(id, parentId, kind, title, order, ws)) <==>
            exists i, t :: i != "" && t != "" && id == JsString(i) && title == JsString(t)
    ensures
      Readable(RawNode(id, parentId, kind, title, order, ws)) ==>
      var n := ReadNode(RawNode(id, parentId, kind, title, order, ws));
      && id == JsString(n.id) && title == JsString(n.title)
      && (parentId == JsString(n.parentId) || (!parentId.JsString? && n.parentId == ""))
      && (ws == JsString(n.workspaceId) || (!ws.JsString? && n.workspaceId == ""))
      && (if kind.JsString? && kind != JsString("") then kind == JsString(n.kind) else n.kind == "category")
      && (if order.JsInteger? then order == JsInteger(n.order) else n.order == 0)
  {
    if Readable(RawNode(id, parentId, kind, title, order, ws)) {
      assert id == JsString(id.s) && title == JsString(title.s);
    }
  }
}
