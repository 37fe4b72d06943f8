/** The daemon's rooted context tree (internal/domain/hierarchy.go). */
module Hierarchy {
  import Text
  import opened Sorting

  datatype Node = Node(id: string, parentId: string, kind: string, title: string, order: int, workspaceId: string)

  datatype Tree = Tree(root: string, nodes: map<string, Node>, children: map<string, seq<string>>)

  datatype Error =
    | NoNodes
    | NodeIdRequired
    | EmptyTitle(id: string)
    | DuplicateId(id: string)
    | RootCount(roots: nat)
    | MissingParent(id: string)
    | CycleAt(id: string)
    | RootNotReached(id: string)
    | UnknownNode(id: string)

  datatype Outcome<+T> = Ok(value: T) | Err(error: Error)

  // ----- What a hierarchy is -----

  predicate IsRoot(n: Node) {
    n.parentId == ""
  }

  function Normalized(n: Node): Node {
    if n.kind == "" then n.(kind := "category") else n
  }

  function NodeMap(input: seq<Node>): map<string, Node> {
    if input == [] then map[]
    else
      var n := input[|input| - 1];
      NodeMap(input[..|input| - 1])[n.id := Normalized(n)]
  }

  /** Each name is the parent of the one before it, and the last closes the ring. */
  ghost predicate IsCycle(nodes: map<string, Node>, c: seq<string>) {
    && |c| >= 2 && c[0] == c[|c| - 1]
    && forall i :: 0 <= i < |c| - 1 ==> c[i] in nodes && nodes[c[i]].parentId == c[i + 1]
  }

  ghost predicate UniqueIds(input: seq<Node>) {
    forall i, j :: 0 <= i < j < |input| ==> input[i].id != input[j].id
  }

  ghost predicate NamedNodes(input: seq<Node>) {
    forall i :: 0 <= i < |input| ==> !Text.Blank(input[i].id) && !Text.Blank(input[i].title)
  }

  ghost predicate ParentsExist(nodes: map<string, Node>) {
    forall id :: id in nodes && !IsRoot(nodes[id]) ==> nodes[id].parentId in nodes
  }

  /** The inputs that describe a rooted tree. */
  ghost predicate Valid(input: seq<Node>) {
    && NamedNodes(input) && UniqueIds(input)
    && |Filter(IsRoot, input)| == 1
    && ParentsExist(NodeMap(input))
    && forall c :: !IsCycle(NodeMap(input), c)
  }

  /** The chain of parents from a node up to a root. */
  ghost predicate IsTrail(nodes: map<string, Node>, trail: seq<string>) {
    && trail != []
    && (forall i :: 0 <= i < |trail| ==> trail[i] in nodes)
    && (forall i :: 0 <= i < |trail| - 1 ==> nodes[trail[i]].parentId == trail[i + 1])
    && IsRoot(nodes[trail[|trail| - 1]])
  }

  ghost predicate HasTrail(nodes: map<string, Node>, id: string) {
    exists trail :: IsTrail(nodes, trail) && trail[0] == id
  }

  /** Nodes under one root from which every node is reached. */
  ghost predicate Rooted(nodes: map<string, Node>, root: string) {
    && "" !in nodes && root in nodes
    && (forall id :: id in nodes ==> (IsRoot(nodes[id]) <==> id == root))
    && (forall id :: id in nodes ==> HasTrail(nodes, id))
  }

  function ChildLeq(nodes: map<string, Node>): (string, string) -> bool {
    (a: string, b: string) => a in nodes && b in nodes && SiblingLeq(nodes[a], nodes[b])
  }

  predicate SiblingLeq(a: Node, b: Node) {
    if a.order != b.order then a.order < b.order
    else if a.title != b.title then Text.Leq(a.title, b.title)
    else Text.Leq(a.id, b.id)
  }

  ghost predicate KeyedById(nodes: map<string, Node>) {
    forall id :: id in nodes ==> nodes[id].id == id
  }

  /** `ids` lists the children of `parent` once each. */
  ghost predicate ListsChildren(nodes: map<string, Node>, parent: string, ids: seq<string>) {
    && NoDup(ids)
    && forall id :: id in ids <==> id in nodes && nodes[id].parentId == parent
  }

  function ChildIds(children: map<string, seq<string>>, parent: string): seq<string> {
    if parent in children then children[parent] else []
  }

  /** The non-root nodes are split among the child lists of their parents, each list in sibling order. */
  ghost predicate Partitioned(nodes: map<string, Node>, children: map<string, seq<string>>) {
    forall p :: p in nodes ==> ListsAndSorts(nodes, p, ChildIds(children, p))
  }

  ghost predicate IsTreeOf(input: seq<Node>, t: Tree) {
    && t.nodes == NodeMap(input) && KeyedById(t.nodes)
    && Rooted(t.nodes, t.root)
    && Partitioned(t.nodes, t.children)
    && (forall p :: p in t.children ==> p in t.nodes && t.children[p] != [])
  }

  // ----- Facts about trails -----

  lemma {:induction false} TrailUnique(nodes: map<string, Node>, a: seq<string>, b: seq<string>)
    requires "" !in nodes && IsTrail(nodes, a) && IsTrail(nodes, b) && a[0] == b[0]
    ensures a == b
  {
    assert |a| > 1 ==> nodes[a[0]].parentId == a[1];
    assert |b| > 1 ==> nodes[b[0]].parentId == b[1];
    if |a| > 1 && |b| > 1 {
      TrailUnique(nodes, a[1..], b[1..]);
      assert a == [a[0]] + a[1..] && b == [b[0]] + b[1..];
    }
  }

  lemma TrailSuffix(nodes: map<string, Node>, trail: seq<string>, i: nat)
    requires IsTrail(nodes, trail) && i < |trail|
    ensures IsTrail(nodes, trail[i..])
  {
  }

  /** A trail never repeats a node. */
  lemma TrailHasNoRepeats(nodes: map<string, Node>, trail: seq<string>)
    requires "" !in nodes && IsTrail(nodes, trail)
    ensures NoDup(trail)
  {
    forall i, j | 0 <= i < j < |trail| ensures trail[i] != trail[j] {
      if trail[i] == trail[j] {
        TrailSuffix(nodes, trail, i);
        TrailSuffix(nodes, trail, j);
        TrailUnique(nodes, trail[i..], trail[j..]);
        assert false;
      }
    }
  }

  lemma {:induction false} NoDupBound<T(!new)>(s: seq<T>, bound: set<T>)
    requires NoDup(s) && forall x :: x in s ==> x in bound
    ensures |s| <= |bound|
  {
    if s != [] {
      var x, rest := s[0], s[1..];
      forall y | y in rest ensures y in bound - {x} {
        assert y in s;
      }
      NoDupBound(rest, bound - {x});
    }
  }

  /** A trail is no longer than the number of nodes. */
  lemma TrailBound(nodes: map<string, Node>, trail: seq<string>)
    requires "" !in nodes && IsTrail(nodes, trail)
    ensures |trail| <= |nodes|
  {
    TrailHasNoRepeats(nodes, trail);
    NoDupBound(trail, nodes.Keys);
  }

  lemma CycleHasNoRoot(nodes: map<string, Node>, c: seq<string>, j: nat)
    requires IsCycle(nodes, c) && "" !in nodes && j < |c| - 1
    ensures c[j] in nodes && !IsRoot(nodes[c[j]])
    ensures exists i :: 0 <= i < |c| - 1 && c[i] == nodes[c[j]].parentId
  {
    var i := if j + 1 == |c| - 1 then 0 else j + 1;
    assert c[i] == nodes[c[j]].parentId;
  }

  /** The trail of a node on a cycle stays on the cycle, so it cannot end at a root. */
  lemma {:induction false} TrailStaysOnCycle(nodes: map<string, Node>, c: seq<string>, trail: seq<string>, i: nat)
    requires IsCycle(nodes, c) && IsTrail(nodes, trail) && "" !in nodes
    requires trail[0] == c[0] && i < |trail|
    ensures exists j :: 0 <= j < |c| - 1 && c[j] == trail[i]
    ensures !IsRoot(nodes[trail[i]])
  {
    if i > 0 {
      TrailStaysOnCycle(nodes, c, trail, i - 1);
      var j :| 0 <= j < |c| - 1 && c[j] == trail[i - 1];
      CycleHasNoRoot(nodes, c, j);
      var m :| 0 <= m < |c| - 1 && c[m] == trail[i];
      CycleHasNoRoot(nodes, c, m);
    } else {
      CycleHasNoRoot(nodes, c, 0);
    }
  }

  /** A node that reaches a root is not on a cycle. */
  lemma TrailMeansNoCycle(nodes: map<string, Node>, c: seq<string>)
    requires "" !in nodes && (c != [] && c[0] in nodes ==> HasTrail(nodes, c[0]))
    ensures !IsCycle(nodes, c)
  {
    if IsCycle(nodes, c) {
      var trail :| IsTrail(nodes, trail) && trail[0] == c[0];
      TrailStaysOnCycle(nodes, c, trail, |trail| - 1);
      assert false;
    }
  }

  ghost predicate MapsInput(nodes: map<string, Node>, input: seq<Node>) {
    && (forall i :: 0 <= i < |input| ==> input[i].id in nodes && nodes[input[i].id] == Normalized(input[i]))
    && (forall id :: id in nodes ==> exists i :: 0 <= i < |input| && input[i].id == id)
    && |nodes| == |input|
  }

  lemma MapsInputNext(nodes: map<string, Node>, input: seq<Node>, n: Node)
    requires MapsInput(nodes, input) && UniqueIds(input + [n])
    ensures n.id !in nodes && MapsInput(nodes[n.id := Normalized(n)], input + [n])
  {
    hide Normalized;
    var all, next := input + [n], nodes[n.id := Normalized(n)];
    assert forall i :: 0 <= i < |input| ==> all[i] == input[i] && input[i].id != all[|input|].id;
    forall id | id in next ensures exists i :: 0 <= i < |all| && all[i].id == id {
      if id in nodes {
        var i :| 0 <= i < |input| && input[i].id == id;
        assert all[i].id == id;
      } else {
        assert all[|input|].id == id;
      }
    }
  }

  lemma {:induction false} NodeMapMembers(input: seq<Node>)
    requires UniqueIds(input)
    ensures MapsInput(NodeMap(input), input) && KeyedById(NodeMap(input))
  {
    hide MapsInput, KeyedById, Normalized;
    if input == [] {
      NothingMapped();
    } else {
      var init, n := input[..|input| - 1], input[|input| - 1];
      NodeMapMembers(init);
      assert input == init + [n];
      MapsInputNext(NodeMap(init), init, n);
      KeyedNext(NodeMap(init), n);
    }
  }

  lemma NothingMapped()
    ensures MapsInput(map[], []) && KeyedById(map[])
  {
  }

  lemma KeyedNext(nodes: map<string, Node>, n: Node)
    requires KeyedById(nodes)
    ensures KeyedById(nodes[n.id := Normalized(n)])
  {
  }

  // ----- What the errors mean -----

  ghost predicate TwoRoots(nodes: map<string, Node>) {
    exists a, b :: a in nodes && b in nodes && a != b && IsRoot(nodes[a]) && IsRoot(nodes[b])
  }

  /** The input has the defect that the error names. */
  ghost predicate Diagnoses(input: seq<Node>, e: Error) {
    match e
    case NoNodes => input == []
    case NodeIdRequired => exists i :: 0 <= i < |input| && Text.Blank(input[i].id)
    case EmptyTitle(id) => exists i :: 0 <= i < |input| && input[i].id == id && Text.Blank(input[i].title)
    case DuplicateId(id) => exists i, j :: 0 <= i < j < |input| && input[i].id == input[j].id == id
    case RootCount(n) => n == |Filter(IsRoot, input)| != 1
    case MissingParent(id) =>
      UniqueIds(input) && id in NodeMap(input) && !IsRoot(NodeMap(input)[id]) &&
        NodeMap(input)[id].parentId !in NodeMap(input)
    case CycleAt(id) => exists c :: IsCycle(NodeMap(input), c) && c[0] == id
    case RootNotReached(_) => UniqueIds(input) && TwoRoots(NodeMap(input))
    case UnknownNode(_) => false
  }

  lemma OneRoot(input: seq<Node>, a: Node, b: Node)
    requires |Filter(IsRoot, input)| == 1 && a in input && b in input && IsRoot(a) && IsRoot(b)
    ensures a == b
  {
    var r := Filter(IsRoot, input);
    assert a in r && b in r;
  }

  lemma RootNode(input: seq<Node>, id: string) returns (n: Node)
    requires UniqueIds(input) && id in NodeMap(input) && IsRoot(NodeMap(input)[id])
    ensures n in input && IsRoot(n) && n.id == id
  {
    NodeMapMembers(input);
    var i :| 0 <= i < |input| && input[i].id == id;
    n := input[i];
    hide NodeMap, UniqueIds;
  }

  lemma NoTwoRoots(input: seq<Node>)
    requires UniqueIds(input) && |Filter(IsRoot, input)| == 1
    ensures !TwoRoots(NodeMap(input))
  {
    hide NodeMap, UniqueIds, Filter, IsRoot;
    var nodes := NodeMap(input);
    forall a, b | a in nodes && b in nodes && IsRoot(nodes[a]) && IsRoot(nodes[b]) ensures a == b {
      var m := RootNode(input, a);
      var n := RootNode(input, b);
      OneRoot(input, m, n);
    }
  }

  /** An input with a diagnosed defect is not a hierarchy. */
  lemma DiagnosisRefutes(input: seq<Node>, e: Error)
    requires Diagnoses(input, e)
    ensures !Valid(input)
  {
    if e.RootNotReached? && |Filter(IsRoot, input)| == 1 { NoTwoRoots(input); }
  }

  // ----- NewTree -----

  datatype Collected = Collected(nodes: map<string, Node>, root: string, roots: nat)

  /** The state of the first loop of NewTree after `k` nodes. */
  ghost predicate CollectedUpTo(input: seq<Node>, k: nat, c: Collected) {
    && k <= |input| && NamedNodes(input[..k]) && UniqueIds(input[..k])
    && c.nodes == NodeMap(input[..k]) && c.roots == |Filter(IsRoot, input[..k])|
    && (c.roots > 0 ==> c.root in c.nodes && IsRoot(c.nodes[c.root]))
  }

  lemma DuplicateFound(input: seq<Node>, k: nat, c: Collected)
    requires k < |input| && CollectedUpTo(input, k, c) && input[k].id in c.nodes
    ensures Diagnoses(input, DuplicateId(input[k].id))
  {
    hide NodeMap, Filter, IsCycle, TwoRoots, UniqueIds, NamedNodes, KeyedById;
    NodeMapMembers(input[..k]);
    var i :| 0 <= i < k && input[..k][i].id == input[k].id;
    assert input[i].id == input[k].id;
  }

  lemma CollectStep(input: seq<Node>, k: nat, c: Collected)
    requires k < |input| && CollectedUpTo(input, k, c) && input[k].id !in c.nodes
    requires !Text.Blank(input[k].id) && !Text.Blank(input[k].title)
    ensures var n := input[k];
            CollectedUpTo(input, k + 1, Collected(c.nodes[n.id := Normalized(n)], if IsRoot(n) then n.id else c.root,
                                                  c.roots + if IsRoot(n) then 1 else 0))
  {
    hide UniqueIds, NamedNodes, Text.Blank, NodeMap, Normalized, Filter;
    var was, now, n := input[..k], input[..k + 1], input[k];
    assert now == was + [n];
    CountNext(was, n);
    NodeMapNext(was, n);
    ExtendsInput(was, n);
  }

  lemma CountNext(was: seq<Node>, n: Node)
    ensures |Filter(IsRoot, was + [n])| == |Filter(IsRoot, was)| + if IsRoot(n) then 1 else 0
  {
    FilterAppend(IsRoot, was, [n]);
  }

  lemma NodeMapNext(was: seq<Node>, n: Node)
    ensures NodeMap(was + [n]) == NodeMap(was)[n.id := Normalized(n)] && (IsRoot(Normalized(n)) <==> IsRoot(n))
  {
    assert (was + [n])[..|was|] == was;
  }

  lemma ExtendsInput(was: seq<Node>, n: Node)
    requires UniqueIds(was) && NamedNodes(was) && n.id !in NodeMap(was)
    requires !Text.Blank(n.id) && !Text.Blank(n.title)
    ensures UniqueIds(was + [n]) && NamedNodes(was + [n])
  {
    hide Text.Blank, NodeMap;
    NodeMapMembers(was);
    forall i | 0 <= i < |was| ensures was[i].id != n.id { assert was[i].id in NodeMap(was); }
  }

  lemma CollectDone(input: seq<Node>, c: Collected)
    requires CollectedUpTo(input, |input|, c)
    ensures NamedNodes(input) && UniqueIds(input)
    ensures c.nodes == NodeMap(input) && c.roots == |Filter(IsRoot, input)|
    ensures c.roots > 0 ==> c.root in c.nodes && IsRoot(c.nodes[c.root])
  {
    assert input[..|input|] == input;
  }

  /** The first loop of NewTree. */
  method Collect(input: seq<Node>) returns (r: Outcome<Collected>)
    ensures r.Ok? ==> NamedNodes(input) && UniqueIds(input)
    ensures r.Ok? ==> r.value.nodes == NodeMap(input) && r.value.roots == |Filter(IsRoot, input)|
    ensures r.Ok? && r.value.roots > 0 ==> r.value.root in r.value.nodes && IsRoot(r.value.nodes[r.value.root])
    ensures r.Err? ==> Diagnoses(input, r.error)
  {
    var c := Collected(map[], "", 0);
    assert CollectedUpTo(input, 0, c);
    hide CollectedUpTo, NamedNodes, UniqueIds, NodeMap, Filter, Text.Blank;
    for k := 0 to |input|
      invariant CollectedUpTo(input, k, c)
    {
      var node := input[k];
      if Text.Blank(node.id) { return Err(NodeIdRequired); }
      if Text.Blank(node.title) { return Err(EmptyTitle(node.id)); }
      if node.id in c.nodes {
        DuplicateFound(input, k, c);
        return Err(DuplicateId(node.id));
      }
      CollectStep(input, k, c);
      if node.kind == "" { node := node.(kind := "category"); }
      c := c.(nodes := c.nodes[node.id := node]);
      if node.parentId == "" { c := c.(root := node.id, roots := c.roots + 1); }
    }
    CollectDone(input, c);
    r := Ok(c);
  }

  ghost predicate LinkedBut(nodes: map<string, Node>, children: map<string, seq<string>>, todo: set<string>) {
    && (forall p :: p in nodes ==> LinkedAt(nodes, todo, p, ChildIds(children, p)))
    && (forall p :: p in children ==> p in nodes && children[p] != [])
    && (forall id :: id in nodes && id !in todo && !IsRoot(nodes[id]) ==> nodes[id].parentId in nodes)
  }

  /** `ids` lists the children of `p` outside `todo`, once each. */
  ghost predicate LinkedAt(nodes: map<string, Node>, todo: set<string>, p: string, ids: seq<string>) {
    NoDup(ids) && forall id :: id in ids <==> id in nodes && id !in todo && nodes[id].parentId == p
  }

  lemma LinkedAtNext(nodes: map<string, Node>, todo: set<string>, p: string, ids: seq<string>, id: string)
    requires LinkedAt(nodes, todo, p, ids) && id in nodes && id in todo
    ensures LinkedAt(nodes, todo - {id}, p, if nodes[id].parentId == p then ids + [id] else ids)
  {
    assert id !in ids;
  }

  lemma LinkOne(nodes: map<string, Node>, children: map<string, seq<string>>, todo: set<string>, id: string)
    requires LinkedBut(nodes, children, todo) && id in nodes && id in todo
    requires nodes[id].parentId in nodes
    ensures LinkedBut(nodes, children[nodes[id].parentId := ChildIds(children, nodes[id].parentId) + [id]], todo - {id})
  {
    hide LinkedAt;
    var parent := nodes[id].parentId;
    var next := children[parent := ChildIds(children, parent) + [id]];
    forall p | p in nodes ensures LinkedAt(nodes, todo - {id}, p, ChildIds(next, p)) {
      LinkedAtNext(nodes, todo, p, ChildIds(children, p), id);
    }
  }

  lemma SkipRoot(nodes: map<string, Node>, children: map<string, seq<string>>, todo: set<string>, id: string)
    requires LinkedBut(nodes, children, todo) && id in nodes && id in todo && IsRoot(nodes[id]) && "" !in nodes
    ensures LinkedBut(nodes, children, todo - {id})
  {
    hide LinkedAt;
    forall p | p in nodes ensures LinkedAt(nodes, todo - {id}, p, ChildIds(children, p)) {
      LinkedAtNext(nodes, todo, p, ChildIds(children, p), id);
    }
  }

  lemma NothingLinked(nodes: map<string, Node>)
    ensures LinkedBut(nodes, map[], nodes.Keys)
  {
  }

  lemma AllLinked(nodes: map<string, Node>, children: map<string, seq<string>>)
    requires LinkedBut(nodes, children, {})
    ensures ParentsExist(nodes)
  {
  }

  method LinkChildren(nodes: map<string, Node>) returns (r: Outcome<map<string, seq<string>>>)
    requires "" !in nodes
    ensures r.Ok? ==> ParentsExist(nodes) && LinkedBut(nodes, r.value, {})
    ensures r.Err? ==> r.error.MissingParent? && r.error.id in nodes &&
                       !IsRoot(nodes[r.error.id]) && nodes[r.error.id].parentId !in nodes
  {
    hide LinkedBut, ParentsExist;
    var children: map<string, seq<string>> := map[];
    var todo := nodes.Keys;
    NothingLinked(nodes);
    while todo != {}
      invariant todo <= nodes.Keys && LinkedBut(nodes, children, todo)
    {
      var id :| id in todo;
      var node := nodes[id];
      if node.parentId != "" {
        if node.parentId !in nodes { return Err(MissingParent(id)); }
        LinkOne(nodes, children, todo, id);
        children := children[node.parentId := ChildIds(children, node.parentId) + [id]];
      } else {
        SkipRoot(nodes, children, todo, id);
      }
      todo := todo - {id};
    }
    AllLinked(nodes, children);
    r := Ok(children);
  }

  lemma ClosedTrail(nodes: map<string, Node>, trail: seq<string>, current: string, j: nat) returns (c: seq<string>)
    requires Steps(nodes, trail, current) && j < |trail| && trail[j] == current
    ensures IsCycle(nodes, c) && c[0] == current
  {
    c := trail[j..] + [current];
    forall i | 0 <= i < |c| - 1 ensures c[i] in nodes && nodes[c[i]].parentId == c[i + 1] {
      assert c[i] == trail[j + i] && c[i + 1] == (trail + [current])[j + i + 1];
    }
  }

  /** Each node of `trail` has the next one, and the last one has `current`, for its parent. */
  ghost predicate Steps(nodes: map<string, Node>, trail: seq<string>, current: string) {
    forall i :: 0 <= i < |trail| ==> trail[i] in nodes && nodes[trail[i]].parentId == (trail + [current])[i + 1]
  }

  lemma StepsNext(nodes: map<string, Node>, trail: seq<string>, current: string)
    requires Steps(nodes, trail, current) && current in nodes
    ensures Steps(nodes, trail + [current], nodes[current].parentId)
    ensures IsRoot(nodes[current]) ==> IsTrail(nodes, trail + [current])
  {
    var t := trail + [current];
    forall i | 0 <= i < |t|
      ensures t[i] in nodes && nodes[t[i]].parentId == (t + [nodes[current].parentId])[i + 1]
    {
      if i < |trail| { assert t[i] == trail[i] && (t + [nodes[current].parentId])[i + 1] == t[i + 1]; }
    }
  }

  lemma NoSteps(nodes: map<string, Node>, current: string)
    ensures Steps(nodes, [], current)
  {
  }

  /** validatePathToRoot: walk up with a growing set of names already seen. */
  method ValidatePathToRoot(nodes: map<string, Node>, root: string, start: string) returns (r: Outcome<()>)
    requires "" !in nodes && ParentsExist(nodes) && start in nodes && root in nodes && IsRoot(nodes[root])
    ensures r.Ok? ==> HasTrail(nodes, start)
    ensures r.Err? ==> (r.error.CycleAt? && exists c :: IsCycle(nodes, c) && c[0] == r.error.id) ||
                       (r.error.RootNotReached? && TwoRoots(nodes))
  {
    hide Steps, IsTrail, IsCycle;
    var seen: set<string>, current := {}, start;
    ghost var trail: seq<string> := [];
    NoSteps(nodes, start);
    while true
      invariant current in nodes && seen <= nodes.Keys
      invariant forall x :: x in seen <==> x in trail
      invariant Steps(nodes, trail, current)
      invariant (trail + [current])[0] == start
      decreases nodes.Keys - seen
    {
      if current in seen {
        ghost var j :| 0 <= j < |trail| && trail[j] == current;
        ghost var c := ClosedTrail(nodes, trail, current, j);
        return Err(CycleAt(current));
      }
      seen := seen + {current};
      StepsNext(nodes, trail, current);
      var node := nodes[current];
      if node.parentId == "" {
        if current != root { return Err(RootNotReached(start)); }
        return Ok(());
      }
      trail := trail + [current];
      current := node.parentId;
    }
  }

  method ValidateAll(nodes: map<string, Node>, root: string) returns (r: Outcome<()>)
    requires "" !in nodes && ParentsExist(nodes) && root in nodes && IsRoot(nodes[root])
    ensures r.Ok? ==> forall id :: id in nodes ==> HasTrail(nodes, id)
    ensures r.Err? ==> (r.error.CycleAt? && exists c :: IsCycle(nodes, c) && c[0] == r.error.id) ||
                       (r.error.RootNotReached? && TwoRoots(nodes))
  {
    var todo := nodes.Keys;
    while todo != {}
      invariant todo <= nodes.Keys && forall id :: id in nodes && id !in todo ==> HasTrail(nodes, id)
    {
      var id :| id in todo;
      r := ValidatePathToRoot(nodes, root, id);
      if r.Err? { return; }
      todo := todo - {id};
    }
    r := Ok(());
  }

  lemma SiblingOrder(a: Node, b: Node, c: Node)
    ensures SiblingLeq(a, b) || SiblingLeq(b, a)
    ensures SiblingLeq(a, b) && SiblingLeq(b, a) ==> a.id == b.id
    ensures SiblingLeq(a, b) && SiblingLeq(b, c) ==> SiblingLeq(a, c)
  {
    Text.LeqTotal(a.title, b.title);
    Text.LeqTotal(a.id, b.id);
    if Text.Leq(a.id, b.id) && Text.Leq(b.id, a.id) { Text.LeqAntisymmetric(a.id, b.id); }
    if Text.Leq(a.title, b.title) && Text.Leq(b.title, a.title) { Text.LeqAntisymmetric(a.title, b.title); }
    if Text.Leq(a.title, b.title) && Text.Leq(b.title, c.title) {
      Text.LeqTransitive(a.title, b.title, c.title);
      if a.title == c.title { Text.LeqAntisymmetric(a.title, b.title); }
    }
    if Text.Leq(a.id, b.id) && Text.Leq(b.id, c.id) { Text.LeqTransitive(a.id, b.id, c.id); }
  }

  lemma ChildLeqOrders(nodes: map<string, Node>, ids: seq<string>)
    requires KeyedById(nodes) && forall id :: id in ids ==> id in nodes
    ensures TotalPreorderOn(ChildLeq(nodes), ids) && TieFreeOn(ChildLeq(nodes), ids)
  {
    var leq := ChildLeq(nodes);
    forall x, y | x in ids && y in ids ensures (leq(x, y) || leq(y, x)) && (leq(x, y) && leq(y, x) ==> x == y) {
      SiblingOrder(nodes[x], nodes[y], nodes[y]);
    }
    forall x, y, z | x in ids && y in ids && z in ids && leq(x, y) && leq(y, z) ensures leq(x, z) {
      SiblingOrder(nodes[x], nodes[y], nodes[z]);
    }
  }

  lemma SortedChildren(nodes: map<string, Node>, p: string, ids: seq<string>)
    requires KeyedById(nodes) && ListsChildren(nodes, p, ids)
    ensures ListsAndSorts(nodes, p, Sort(ChildLeq(nodes), ids))
  {
    var leq, sorted := ChildLeq(nodes), Sort(ChildLeq(nodes), ids);
    ChildLeqOrders(nodes, ids);
    SortIsSorted(leq, ids);
    MembersOfPermutation(ids, sorted);
    NoDupPermutation(ids, sorted);
    hide TotalPreorderOn, TieFreeOn, Sort, NoDup;
  }

  ghost predicate ListsAndSorts(nodes: map<string, Node>, p: string, ids: seq<string>) {
    ListsChildren(nodes, p, ids) && Sorted(ChildLeq(nodes), ids)
  }

  lemma SortOne(nodes: map<string, Node>, linked: map<string, seq<string>>, p: string)
    requires KeyedById(nodes) && LinkedBut(nodes, linked, {}) && p in linked
    ensures p in nodes && Sort(ChildLeq(nodes), linked[p]) != [] &&
            ListsAndSorts(nodes, p, Sort(ChildLeq(nodes), linked[p]))
  {
    assert LinkedAt(nodes, {}, p, ChildIds(linked, p));
    SortedChildren(nodes, p, linked[p]);
  }

  lemma NoneIsSorted(nodes: map<string, Node>, linked: map<string, seq<string>>, p: string)
    requires LinkedBut(nodes, linked, {}) && p in nodes && p !in linked
    ensures ListsAndSorts(nodes, p, [])
  {
    assert LinkedAt(nodes, {}, p, ChildIds(linked, p));
  }

  /** The last loop of NewTree: put every child list in sibling order. */
  method SortChildren(nodes: map<string, Node>, linked: map<string, seq<string>>)
    returns (children: map<string, seq<string>>)
    requires KeyedById(nodes) && LinkedBut(nodes, linked, {})
    ensures Partitioned(nodes, children)
    ensures forall p :: p in children ==> p in nodes && children[p] != []
  {
    hide Sort, LinkedBut, KeyedById, ListsAndSorts;
    children := linked;
    var todo := linked.Keys;
    while todo != {}
      invariant todo <= linked.Keys && children.Keys == linked.Keys
      invariant forall p :: p in todo ==> children[p] == linked[p]
      invariant forall p :: p in linked && p !in todo ==>
                p in nodes && children[p] != [] && ListsAndSorts(nodes, p, children[p])
    {
      var parent :| parent in todo;
      SortOne(nodes, linked, parent);
      var ids := Sort(ChildLeq(nodes), children[parent]);
      children, todo := children[parent := ids], todo - {parent};
    }
    forall p | p in nodes ensures ListsAndSorts(nodes, p, ChildIds(children, p)) {
      if p !in linked { NoneIsSorted(nodes, linked, p); }
    }
  }

  lemma OnlyRoot(nodes: map<string, Node>, root: string)
    requires !TwoRoots(nodes) && root in nodes && IsRoot(nodes[root])
    ensures forall id :: id in nodes ==> (IsRoot(nodes[id]) <==> id == root)
  {
  }

  /** NewTree: it succeeds exactly on the inputs that describe a rooted tree, it then builds that
      tree, and otherwise its error names a real defect. */
  method NewTree(input: seq<Node>) returns (r: Outcome<Tree>)
    ensures r.Ok? <==> Valid(input)
    ensures r.Ok? ==> IsTreeOf(input, r.value)
    ensures r.Err? ==> Diagnoses(input, r.error)
  {
    hide NodeMap, Filter, NamedNodes, UniqueIds, KeyedById, Partitioned, IsCycle, TwoRoots, HasTrail, LinkedBut,
         ParentsExist;
    if input == [] {
      DiagnosisRefutes(input, NoNodes);
      return Err(NoNodes);
    }
    var collected := Collect(input);
    if collected.Err? {
      DiagnosisRefutes(input, collected.error);
      return Err(collected.error);
    }
    var nodes, root, roots := collected.value.nodes, collected.value.root, collected.value.roots;
    if roots != 1 { return Err(RootCount(roots)); }
    NodeMapMembers(input);
    NoTwoRoots(input);
    BlankIsNotAnId(input);
    var linked := LinkChildren(nodes);
    if linked.Err? {
      DiagnosisRefutes(input, linked.error);
      return Err(linked.error);
    }
    var checked := ValidateAll(nodes, root);
    if checked.Err? {
      DiagnosisRefutes(input, checked.error);
      return Err(checked.error);
    }
    var children := SortChildren(nodes, linked.value);
    OnlyRoot(nodes, root);
    forall c ensures !IsCycle(nodes, c) { TrailMeansNoCycle(nodes, c); }
    r := Ok(Tree(root, nodes, children));
  }

  lemma BlankIsNotAnId(input: seq<Node>)
    requires NamedNodes(input) && UniqueIds(input)
    ensures "" !in NodeMap(input)
  {
    NodeMapMembers(input);
    assert Text.Blank("");
  }

  lemma ChildListUnique(nodes: map<string, Node>, p: string, a: seq<string>, b: seq<string>)
    requires KeyedById(nodes) && ListsAndSorts(nodes, p, a) && ListsAndSorts(nodes, p, b)
    ensures a == b
  {
    ChildLeqOrders(nodes, a);
    SameMembersSameMultiset(a, b);
    SortedUnique(ChildLeq(nodes), a, b);
  }

  /** The tree of an input is unique, whatever the map iteration orders were. */
  lemma TreeIsUnique(input: seq<Node>, s: Tree, t: Tree)
    requires IsTreeOf(input, s) && IsTreeOf(input, t)
    ensures s == t
  {
    var nodes := NodeMap(input);
    forall p | p in nodes ensures ChildIds(s.children, p) == ChildIds(t.children, p) {
      ChildListUnique(nodes, p, ChildIds(s.children, p), ChildIds(t.children, p));
    }
    SameChildren(nodes, s.children, t.children);
  }

  lemma SameChildren(nodes: map<string, Node>, a: map<string, seq<string>>, b: map<string, seq<string>>)
    requires forall p :: p in nodes ==> ChildIds(a, p) == ChildIds(b, p)
    requires forall p :: p in a ==> p in nodes && a[p] != []
    requires forall p :: p in b ==> p in nodes && b[p] != []
    ensures a == b
  {
    forall p ensures p in a <==> p in b {
      if p in nodes { assert ChildIds(a, p) == ChildIds(b, p); }
    }
    forall p | p in a ensures a[p] == b[p] {
      assert ChildIds(a, p) == ChildIds(b, p);
    }
  }

  // ----- Path -----

  function Reversed<T>(s: seq<T>): (r: seq<T>)
    ensures |r| == |s| && forall i :: 0 <= i < |s| ==> r[i] == s[|s| - 1 - i]
  {
    seq(|s|, i requires 0 <= i < |s| => s[|s| - 1 - i])
  }

  /** A path from the root down, each node the parent of the next. */
  ghost predicate IsRootChain(nodes: map<string, Node>, root: string, path: seq<string>) {
    && path != [] && path[0] == root
    && (forall i :: 0 <= i < |path| ==> path[i] in nodes)
    && forall i :: 0 < i < |path| ==> nodes[path[i]].parentId == path[i - 1]
  }

  lemma TrailIsRootChain(nodes: map<string, Node>, root: string, trail: seq<string>)
    requires Rooted(nodes, root) && IsTrail(nodes, trail)
    ensures IsRootChain(nodes, root, Reversed(trail))
  {
    var path := Reversed(trail);
    forall i | 0 <= i < |path| ensures path[i] in nodes { assert trail[|path| - 1 - i] in nodes; }
    forall i | 0 < i < |path| ensures nodes[path[i]].parentId == path[i - 1] {
      assert nodes[trail[|path| - 1 - i]].parentId == trail[|path| - 1 - i + 1];
    }
  }

  lemma RootChainIsTrail(nodes: map<string, Node>, root: string, path: seq<string>)
    requires Rooted(nodes, root) && IsRootChain(nodes, root, path)
    ensures IsTrail(nodes, Reversed(path))
  {
    var trail := Reversed(path);
    forall i | 0 <= i < |trail| ensures trail[i] in nodes { assert path[|path| - 1 - i] in nodes; }
    forall i | 0 <= i < |trail| - 1 ensures nodes[trail[i]].parentId == trail[i + 1] {
      assert nodes[path[|path| - 1 - i]].parentId == path[|path| - 1 - i - 1];
    }
  }

  lemma ReversedTwice<T>(s: seq<T>)
    ensures Reversed(Reversed(s)) == s
  {
  }

  lemma ReversedNoDup(s: seq<string>)
    requires NoDup(Reversed(s))
    ensures NoDup(s)
  {
    forall i, j | 0 <= i < j < |s| ensures s[i] != s[j] {
      assert Reversed(s)[|s| - 1 - j] != Reversed(s)[|s| - 1 - i];
    }
  }

  /** Root chains never repeat a node and are no longer than the tree. */
  lemma RootChainBound(nodes: map<string, Node>, root: string, path: seq<string>)
    requires Rooted(nodes, root) && IsRootChain(nodes, root, path)
    ensures |path| <= |nodes| && NoDup(path)
  {
    RootChainIsTrail(nodes, root, path);
    TrailBound(nodes, Reversed(path));
    TrailHasNoRepeats(nodes, Reversed(path));
    ReversedNoDup(path);
  }

  /** A root chain is determined by its last node. */
  lemma RootChainUnique(nodes: map<string, Node>, root: string, a: seq<string>, b: seq<string>)
    requires Rooted(nodes, root) && IsRootChain(nodes, root, a) && IsRootChain(nodes, root, b)
    requires a[|a| - 1] == b[|b| - 1]
    ensures a == b
  {
    RootChainIsTrail(nodes, root, a);
    RootChainIsTrail(nodes, root, b);
    TrailUnique(nodes, Reversed(a), Reversed(b));
    ReversedTwice(a);
    ReversedTwice(b);
  }

  function IdsOf(path: seq<Node>): (ids: seq<string>)
    ensures |ids| == |path| && forall i :: 0 <= i < |path| ==> ids[i] == path[i].id
  {
    seq(|path|, i requires 0 <= i < |path| => path[i].id)
  }

  /** Tree.Path: the chain from the root to the node, or an error for an unknown node. */
  method Path(t: Tree, id: string) returns (r: Outcome<seq<Node>>)
    requires Rooted(t.nodes, t.root) && KeyedById(t.nodes)
    ensures r.Ok? <==> id in t.nodes
    ensures r.Err? ==> r.error == UnknownNode(id)
    ensures r.Ok? ==> IsRootChain(t.nodes, t.root, IdsOf(r.value)) && r.value[|r.value| - 1].id == id
    ensures r.Ok? ==> forall i :: 0 <= i < |r.value| ==> r.value[i] == t.nodes[r.value[i].id]
  {
    if id !in t.nodes { return Err(UnknownNode(id)); }
    ghost var trail :| IsTrail(t.nodes, trail) && trail[0] == id;
    var reverse: seq<Node>, current := [], id;
    while current != ""
      invariant |reverse| <= |trail|
      invariant current == if |reverse| < |trail| then trail[|reverse|] else ""
      invariant forall i :: 0 <= i < |reverse| ==> reverse[i] == t.nodes[trail[i]]
      decreases |trail| - |reverse|
    {
      var node := t.nodes[current];
      reverse := reverse + [node];
      current := node.parentId;
    }
    var path := Reversed(reverse);
    assert IdsOf(path) == Reversed(trail);
    TrailIsRootChain(t.nodes, t.root, trail);
    r := Ok(path);
  }

  // ----- What the tree holds -----

  /** Siblings come by order, then title, then id. */
  predicate SiblingBefore(a: Node, b: Node) {
    || a.order < b.order
    || (a.order == b.order &&
        (|| (a.title != b.title && Text.Leq(a.title, b.title))
         || (a.title == b.title && a.id != b.id && Text.Leq(a.id, b.id))))
  }

  /** The tree of an input holds each of its nodes under its id, as it is but for the kind, which is
      "category" where there is none; its root is the one node without a parent. */
  lemma TreeNodes(input: seq<Node>, t: Tree, i: nat)
    requires UniqueIds(input) && IsTreeOf(input, t) && i < |input|
    ensures input[i].id in t.nodes && t.nodes[input[i].id] == input[i].(kind := t.nodes[input[i].id].kind)
    ensures t.nodes[input[i].id].kind == if input[i].kind == "" then "category" else input[i].kind
    ensures input[i].parentId == "" <==> input[i].id == t.root
    ensures |t.nodes| == |input| && forall id :: id in t.nodes ==> exists j :: 0 <= j < |input| && input[j].id == id
  {
    hide NodeMap, UniqueIds, HasTrail;
    NodeMapMembers(input);
  }

  lemma SiblingsDiffer(a: Node, b: Node)
    requires SiblingLeq(a, b) && a.id != b.id
    ensures SiblingBefore(a, b)
  {
  }

  /** The children of a node are listed once each, in sibling order. */
  lemma ChildrenInOrder(input: seq<Node>, t: Tree, p: string, i: nat, j: nat)
    requires IsTreeOf(input, t) && p in t.nodes && i < j < |ChildIds(t.children, p)|
    ensures
      var a, b := ChildIds(t.children, p)[i], ChildIds(t.children, p)[j];
      && a in t.nodes && b in t.nodes && t.nodes[a].parentId == p == t.nodes[b].parentId
      && SiblingBefore(t.nodes[a], t.nodes[b])
  {
    hide NodeMap, HasTrail;
    var ids := ChildIds(t.children, p);
    assert ids[i] in ids && ids[j] in ids && ids[i] != ids[j];
    assert ChildLeq(t.nodes)(ids[i], ids[j]);
    SiblingsDiffer(t.nodes[ids[i]], t.nodes[ids[j]]);
  }
}
