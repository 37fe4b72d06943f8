/** The Activity Strip solver (internal/panel/layout.go).

    `Solve` follows the code: it degrades cards in three loops over one collapse order.  `FirstFit`
    is the specification: one fixed chain of states, indexed by `t`, in which cards are compacted
    one by one (0..n), made micro one by one (n..2n) and, if they are not urgent, removed one by
    one (2n..2n+m); the solver returns the first state of the chain that fits. */
module Layout {
  import Text
  import opened Sorting

  datatype Density = Full | Compact | Micro {
    function Rank(): nat {
      match this case Full => 2 case Compact => 1 case Micro => 0
    }
  }

  datatype Card = Card(id: string, priority: int, urgent: bool, minWidth: int, preferredWidth: int, maxWidth: int)

  datatype Placement = Placement(id: string, density: Density, width: int)

  datatype Result = Result(visible: seq<Placement>, overflow: seq<string>, usedWidth: int, overfull: bool)

  datatype Widths = Widths(min: int, pref: int, max: int)

  /** The widths come out positive and ordered, each is raised no further than that asks, and widths
      that were positive and ordered are kept. */
  function NormalizeWidths(c: Card): (w: Widths)
    ensures 0 < w.min <= w.pref <= w.max
    ensures w.min == c.minWidth || (c.minWidth <= 0 && w.min == 48)
    ensures w.pref == c.preferredWidth || c.preferredWidth < w.pref == w.min
    ensures w.max == c.maxWidth || c.maxWidth < w.max == w.pref
    ensures 0 < c.minWidth <= c.preferredWidth <= c.maxWidth ==> w == Widths(c.minWidth, c.preferredWidth, c.maxWidth)
  {
    var min := if c.minWidth <= 0 then 48 else c.minWidth;
    var pref := if c.preferredWidth < min then min else c.preferredWidth;
    var max := if c.maxWidth < pref then pref else c.maxWidth;
    Widths(min, pref, max)
  }

  function WidthAt(c: Card, d: Density): (w: int)
    ensures NormalizeWidths(c).min <= w <= NormalizeWidths(c).pref
  {
    var w := NormalizeWidths(c);
    match d
    case Full => if w.pref > w.max then w.max else w.pref
    case Compact => w.min + (w.pref - w.min) / 2
    case Micro => w.min
  }

  function SumWidths(ps: seq<Placement>): int {
    if ps == [] then 0 else SumWidths(ps[..|ps| - 1]) + ps[|ps| - 1].width
  }

  /** Total width of a row: the cards and a gap between each two neighbours. */
  function Used(ps: seq<Placement>, gap: nat): int {
    SumWidths(ps) + if |ps| > 1 then gap * (|ps| - 1) else 0
  }

  ghost predicate DistinctIds(cards: seq<Card>) {
    forall i, j :: 0 <= i < j < |cards| ==> cards[i].id != cards[j].id
  }

  function Ids(cards: seq<Card>): (ids: seq<string>)
    ensures |ids| == |cards| && forall i :: 0 <= i < |cards| ==> ids[i] == cards[i].id
  {
    seq(|cards|, i requires 0 <= i < |cards| => cards[i].id)
  }

  // ----- The two orders -----

  predicate WorkLeq(a: Card, b: Card) {
    if a.priority != b.priority then a.priority > b.priority else Text.Leq(a.id, b.id)
  }

  predicate CollapseLeq(a: Card, b: Card) {
    if a.urgent != b.urgent then !a.urgent
    else if a.priority != b.priority then a.priority < b.priority
    else Text.Leq(a.id, b.id)
  }

  function IndexLeq(work: seq<Card>): (nat, nat) -> bool {
    (i: nat, j: nat) => i < |work| && j < |work| && CollapseLeq(work[i], work[j])
  }

  function Indices(n: nat): (s: seq<nat>)
    ensures |s| == n && forall i :: 0 <= i < n ==> s[i] == i
  {
    seq(n, i => i)
  }

  function WorkOrder(cards: seq<Card>): (work: seq<Card>)
    ensures |work| == |cards| && multiset(work) == multiset(cards)
  {
    Sort(WorkLeq, cards)
  }

  /** Positions in `work`, in the order in which the solver degrades them. */
  function CollapseOrder(work: seq<Card>): (order: seq<nat>)
    ensures |order| == |work|
  {
    Sort(IndexLeq(work), Indices(|work|))
  }

  function IndexOf<T(==)>(s: seq<T>, x: T): (i: nat)
    ensures i <= |s| && (i < |s| ==> s[i] == x) && (forall j :: 0 <= j < i ==> s[j] != x)
  {
    if s == [] then 0 else if s[0] == x then 0 else 1 + IndexOf(s[1..], x)
  }

  /** `order` lists every index of `work` once, non-urgent cards first; `pos` is its inverse. */
  ghost predicate IsPlan(work: seq<Card>, order: seq<nat>, pos: seq<nat>) {
    && |order| == |work| == |pos|
    && (forall p :: 0 <= p < |order| ==> order[p] < |work|)
    && (forall p :: 0 <= p < |order| ==> pos[order[p]] == p)
    && (forall i :: 0 <= i < |pos| ==> pos[i] < |pos| && order[pos[i]] == i)
    && (forall p, q :: 0 <= p < q < |order| ==> CollapseLeq(work[order[p]], work[order[q]]))
  }

  function Positions(order: seq<nat>): (pos: seq<nat>)
    ensures |pos| == |order|
  {
    seq(|order|, i => IndexOf(order, i))
  }

  lemma CollapseLeqOrders(work: seq<Card>)
    ensures TotalPreorderOn(IndexLeq(work), Indices(|work|))
  {
    Text.LeqIsTotalOrder();
  }

  lemma PositionsInvert(order: seq<nat>)
    requires multiset(order) == multiset(Indices(|order|))
    ensures forall p :: 0 <= p < |order| ==> order[p] < |order| && Positions(order)[order[p]] == p
    ensures forall i :: 0 <= i < |order| ==> Positions(order)[i] < |order| && order[Positions(order)[i]] == i
  {
    var ids := Indices(|order|);
    MembersOfPermutation(order, ids);
    NoDupPermutation(ids, order);
    forall i | 0 <= i < |order| ensures IndexOf(order, i) < |order| && order[IndexOf(order, i)] == i {
      assert ids[i] in order;
    }
    forall p | 0 <= p < |order| ensures order[p] < |order| && Positions(order)[order[p]] == p {
      assert order[p] in ids;
    }
  }

  lemma CollapseOrderIsPlan(work: seq<Card>)
    ensures IsPlan(work, CollapseOrder(work), Positions(CollapseOrder(work)))
  {
    var order := CollapseOrder(work);
    PositionsInvert(order);
    assert Sorted(IndexLeq(work), order) by {
      CollapseLeqOrders(work);
      SortIsSorted(IndexLeq(work), Indices(|work|));
    }
    forall p, q | 0 <= p < q < |order| ensures CollapseLeq(work[order[p]], work[order[q]]) {
      assert IndexLeq(work)(order[p], order[q]);
    }
  }

  /** Length of the non-urgent prefix of the collapse order. */
  function Removable(work: seq<Card>, order: seq<nat>): (m: nat)
    requires forall p :: 0 <= p < |order| ==> order[p] < |work|
    ensures m <= |order|
    ensures forall p :: 0 <= p < m ==> !work[order[p]].urgent
    ensures m < |order| ==> work[order[m]].urgent
  {
    if order == [] || work[order[0]].urgent then 0 else 1 + Removable(work, order[1..])
  }

  // ----- The degradation chain -----

  predicate Gone(n: nat, p: nat, t: nat) {
    p < t - 2 * n
  }

  function DensityAt(n: nat, p: nat, t: nat): Density {
    if p < t - n then Micro else if p < t then Compact else Full
  }

  function PlacementAt(work: seq<Card>, pos: seq<nat>, i: nat, t: nat): Placement
    requires |pos| == |work| && i < |work|
  {
    var d := DensityAt(|work|, pos[i], t);
    Placement(work[i].id, d, WidthAt(work[i], d))
  }

  function VisibleUpTo(work: seq<Card>, pos: seq<nat>, t: nat, k: nat): seq<Placement>
    requires |pos| == |work| && k <= |work|
  {
    if k == 0 then []
    else VisibleUpTo(work, pos, t, k - 1) +
         if Gone(|work|, pos[k - 1], t) then [] else [PlacementAt(work, pos, k - 1, t)]
  }

  /** The row at step `t` of the chain, in display order. */
  function Visible(work: seq<Card>, pos: seq<nat>, t: nat): seq<Placement>
    requires |pos| == |work|
  {
    VisibleUpTo(work, pos, t, |work|)
  }

  /** The cards removed at step `t`, in removal order. */
  function Overflowed(work: seq<Card>, order: seq<nat>, t: nat): (ids: seq<string>)
    requires |order| == |work| && (forall p :: 0 <= p < |order| ==> order[p] < |work|) && t <= 3 * |work|
    ensures |ids| == if t > 2 * |work| then t - 2 * |work| else 0
    ensures forall p :: 0 <= p < |ids| ==> ids[p] == work[order[p]].id
  {
    seq(if t > 2 * |work| then t - 2 * |work| else 0, p requires 0 <= p < |work| => work[order[p]].id)
  }

  ghost function Last(work: seq<Card>, order: seq<nat>, pos: seq<nat>): (t: nat)
    requires IsPlan(work, order, pos)
    ensures t <= 3 * |work|
  {
    2 * |work| + Removable(work, order)
  }

  /** The first step from `t` on at which the row fits, or the end of the chain. */
  ghost function StopAt(work: seq<Card>, order: seq<nat>, pos: seq<nat>, gap: nat, available: nat, t: nat): (s: nat)
    requires IsPlan(work, order, pos) && t <= Last(work, order, pos)
    ensures t <= s <= Last(work, order, pos)
    ensures forall u :: t <= u < s ==> Used(Visible(work, pos, u), gap) > available
    ensures s < Last(work, order, pos) ==> Used(Visible(work, pos, s), gap) <= available
    decreases Last(work, order, pos) - t
  {
    if t >= Last(work, order, pos) || Used(Visible(work, pos, t), gap) <= available then t
    else StopAt(work, order, pos, gap, available, t + 1)
  }

  ghost function ResultAt(work: seq<Card>, order: seq<nat>, pos: seq<nat>, gap: nat, available: nat, t: nat): Result
    requires IsPlan(work, order, pos) && t <= Last(work, order, pos)
  {
    var row := Visible(work, pos, t);
    Result(row, Overflowed(work, order, t), Used(row, gap), Used(row, gap) > available)
  }

  function Clamp(x: int): nat {
    if x < 0 then 0 else x
  }

  /** The specification of the solver: the first state of the chain that fits. */
  ghost function FirstFit(available: int, gap: int, cards: seq<Card>): (r: Result)
    ensures |r.overflow| <= |cards|
  {
    var work := WorkOrder(cards);
    var order := CollapseOrder(work);
    var pos := Positions(order);
    CollapseOrderIsPlan(work);
    ResultAt(work, order, pos, Clamp(gap), Clamp(available),
             StopAt(work, order, pos, Clamp(gap), Clamp(available), 0))
  }

  // ----- Facts about rows -----

  lemma {:induction false} SumAppend(a: seq<Placement>, b: seq<Placement>)
    ensures SumWidths(a + b) == SumWidths(a) + SumWidths(b)
    decreases |b|
  {
    if b == [] {
      assert a + b == a;
    } else {
      SumAppend(a, b[..|b| - 1]);
      assert (a + b)[..|a + b| - 1] == a + b[..|b| - 1];
    }
  }

  lemma SumAround(a: seq<Placement>, x: Placement, b: seq<Placement>)
    ensures SumWidths(a + [x] + b) == SumWidths(a) + x.width + SumWidths(b)
  {
    SumAppend(a + [x], b);
    SumAppend(a, [x]);
    assert SumWidths([x]) == SumWidths([]) + x.width;
  }

  lemma SumUpdate(ps: seq<Placement>, i: nat, x: Placement)
    requires i < |ps|
    ensures SumWidths(ps[i := x]) == SumWidths(ps) - ps[i].width + x.width
  {
    var a, b := ps[..i], ps[i + 1..];
    assert ps == a + [ps[i]] + b && ps[i := x] == a + [x] + b;
    SumAround(a, ps[i], b);
    SumAround(a, x, b);
  }

  lemma RemovalNarrows(ps: seq<Placement>, i: nat, gap: nat)
    requires i < |ps| && ps[i].width >= 0
    ensures Used(ps[..i] + ps[i + 1..], gap) <= Used(ps, gap)
  {
    var a, b := ps[..i], ps[i + 1..];
    assert ps == a + [ps[i]] + b;
    SumAround(a, ps[i], b);
    SumAppend(a, b);
    hide SumWidths;
    if |ps| > 1 { assert gap * (|ps| - 1) == gap * (|ps| - 2) + gap; }
  }

  lemma UpdateNarrows(ps: seq<Placement>, i: nat, x: Placement, gap: nat)
    requires i < |ps| && x.width <= ps[i].width
    ensures Used(ps[i := x], gap) <= Used(ps, gap)
  {
    SumUpdate(ps, i, x);
  }

  /** Before the removal stage every card is in the row. */
  lemma {:induction false} VisibleBeforeRemoval(work: seq<Card>, pos: seq<nat>, t: nat, k: nat)
    requires |pos| == |work| && k <= |work| && t <= 2 * |work|
    ensures |VisibleUpTo(work, pos, t, k)| == k
    ensures forall i :: 0 <= i < k ==> VisibleUpTo(work, pos, t, k)[i] == PlacementAt(work, pos, i, t)
  {
    if k > 0 { VisibleBeforeRemoval(work, pos, t, k - 1); }
  }

  /** What is in the row: exactly the cards that are not gone, at their current density. */
  lemma {:induction false} VisibleMembers(work: seq<Card>, pos: seq<nat>, t: nat, k: nat, x: Placement)
    requires |pos| == |work| && k <= |work|
    ensures x in VisibleUpTo(work, pos, t, k) <==>
            exists i :: 0 <= i < k && !Gone(|work|, pos[i], t) && x == PlacementAt(work, pos, i, t)
  {
    if k > 0 {
      VisibleMembers(work, pos, t, k - 1, x);
      if x == PlacementAt(work, pos, k - 1, t) { }
    }
  }

  lemma PlanAt(work: seq<Card>, order: seq<nat>, pos: seq<nat>, q: nat, i: nat)
    requires IsPlan(work, order, pos) && q < |work| && i < |work|
    ensures |order| == |pos| == |work| && order[q] < |work| && pos[i] < |work| && pos[order[q]] == q &&
            (i != order[q] ==> pos[i] != q)
  {
  }

  /** The prefix of the row before a card does not notice that the card leaves, and lacks its id. */
  lemma {:induction false} RowBefore(work: seq<Card>, order: seq<nat>, pos: seq<nat>, t: nat, q: nat, k: nat)
    requires IsPlan(work, order, pos) && DistinctIds(work) && q < |work| && t == 2 * |work| + q
    requires k <= order[q]
    ensures VisibleUpTo(work, pos, t + 1, k) == VisibleUpTo(work, pos, t, k)
    ensures forall x :: x in VisibleUpTo(work, pos, t, k) ==> x.id != work[order[q]].id
  {
    if k > 0 {
      RowBefore(work, order, pos, t, q, k - 1);
      assert pos[k - 1] != q;
    }
  }

  ghost predicate Removes(row: seq<Placement>, next: seq<Placement>, j: nat, x: Placement) {
    && j < |row| && row[j] == x
    && next == row[..j] + row[j + 1..]
    && forall i :: 0 <= i < |row| && i != j ==> row[i].id != x.id
  }

  lemma RemovesExtend(row: seq<Placement>, next: seq<Placement>, j: nat, x: Placement, y: Placement)
    requires Removes(row, next, j, x) && y.id != x.id
    ensures Removes(row + [y], next + [y], j, x)
  {
    assert (row + [y])[j + 1..] == row[j + 1..] + [y];
    assert (row + [y])[..j] == row[..j];
  }

  lemma RemovesLast(row: seq<Placement>, x: Placement)
    requires forall y :: y in row ==> y.id != x.id
    ensures Removes(row + [x], row, |row|, x)
  {
    assert (row + [x])[..|row|] == row && (row + [x])[|row| + 1..] == [];
    assert row + [] == row;
  }

  /** One step of the removal stage takes one card out of the row. */
  lemma {:induction false} RemoveStep(work: seq<Card>, order: seq<nat>, pos: seq<nat>, t: nat, q: nat, k: nat)
    requires IsPlan(work, order, pos) && DistinctIds(work) && q < |work| && t == 2 * |work| + q
    requires order[q] < k <= |work|
    ensures Removes(VisibleUpTo(work, pos, t, k), VisibleUpTo(work, pos, t + 1, k),
                    |VisibleUpTo(work, pos, t, order[q])|, PlacementAt(work, pos, order[q], t))
  {
    hide IsPlan, WidthAt, Removes, CollapseLeq;
    PlanAt(work, order, pos, q, q);
    var c := order[q];
    PlanAt(work, order, pos, q, k - 1);
    var before, after := VisibleUpTo(work, pos, t, k - 1), VisibleUpTo(work, pos, t + 1, k - 1);
    if k - 1 == c {
      RowBefore(work, order, pos, t, q, c);
      assert VisibleUpTo(work, pos, t, k) == before + [PlacementAt(work, pos, c, t)];
      assert VisibleUpTo(work, pos, t + 1, k) == before;
      RemovesLast(before, PlacementAt(work, pos, c, t));
    } else {
      RemoveStep(work, order, pos, t, q, k - 1);
      if !Gone(|work|, pos[k - 1], t) {
        assert work[k - 1].id != work[c].id;
        assert PlacementAt(work, pos, k - 1, t) == PlacementAt(work, pos, k - 1, t + 1);
        RemovesExtend(before, after, |VisibleUpTo(work, pos, t, c)|, PlacementAt(work, pos, c, t),
                      PlacementAt(work, pos, k - 1, t));
      } else {
        assert VisibleUpTo(work, pos, t, k) == before && VisibleUpTo(work, pos, t + 1, k) == after;
      }
    }
  }

  /** One step before the removal stage lowers the density of one card. */
  lemma DegradeStep(work: seq<Card>, order: seq<nat>, pos: seq<nat>, t: nat)
    requires IsPlan(work, order, pos) && t < 2 * |work|
    ensures
      var c := order[if t < |work| then t else t - |work|];
      var row := Visible(work, pos, t);
      |row| == |work| && Visible(work, pos, t + 1) == row[c := PlacementAt(work, pos, c, t + 1)]
  {
    hide WidthAt, VisibleUpTo, CollapseLeq;
    VisibleBeforeRemoval(work, pos, t, |work|);
    VisibleBeforeRemoval(work, pos, t + 1, |work|);
    var q := if t < |work| then t else t - |work|;
    forall i | 0 <= i < |work| && i != order[q]
      ensures PlacementAt(work, pos, i, t) == PlacementAt(work, pos, i, t + 1)
    {
      assert pos[i] != q;
    }
  }

  /** Total width never grows along the chain. */
  lemma ChainNeverWidens(work: seq<Card>, order: seq<nat>, pos: seq<nat>, gap: nat, t: nat)
    requires IsPlan(work, order, pos) && DistinctIds(work) && t < Last(work, order, pos)
    ensures Used(Visible(work, pos, t + 1), gap) <= Used(Visible(work, pos, t), gap)
  {
    var row := Visible(work, pos, t);
    if t < 2 * |work| {
      DegradeStep(work, order, pos, t);
      var c := order[if t < |work| then t else t - |work|];
      VisibleBeforeRemoval(work, pos, t, |work|);
      UpdateNarrows(row, c, PlacementAt(work, pos, c, t + 1), gap);
    } else {
      var q := t - 2 * |work|;
      RemoveStep(work, order, pos, t, q, |work|);
      RemovalNarrows(row, |VisibleUpTo(work, pos, t, order[q])|, gap);
    }
  }

  lemma {:induction false} ChainNeverWidensBetween(work: seq<Card>, order: seq<nat>, pos: seq<nat>, gap: nat, t: nat,
                                                   u: nat)
    requires IsPlan(work, order, pos) && DistinctIds(work) && t <= u <= Last(work, order, pos)
    ensures Used(Visible(work, pos, u), gap) <= Used(Visible(work, pos, t), gap)
    decreases u - t
  {
    hide *;
    if t < u {
      ChainNeverWidens(work, order, pos, gap, u - 1);
      ChainNeverWidensBetween(work, order, pos, gap, t, u - 1);
    }
  }

  lemma DistinctIdsInWork(cards: seq<Card>)
    requires DistinctIds(cards)
    ensures DistinctIds(WorkOrder(cards))
  {
    var work := WorkOrder(cards);
    NoDupPermutation(cards, work);
    MembersOfPermutation(cards, work);
    forall i, j | 0 <= i < j < |work| ensures work[i].id != work[j].id {
      assert work[i] in cards && work[j] in cards && work[i] != work[j];
    }
  }

  // ----- The solver -----

  method ComputeUsed(ps: seq<Placement>, gap: nat) returns (n: int)
    ensures n == Used(ps, gap)
  {
    n := 0;
    for i := 0 to |ps|
      invariant n == SumWidths(ps[..i])
    {
      assert ps[..i + 1][..i] == ps[..i];
      n := n + ps[i].width;
    }
    assert ps[..|ps|] == ps;
    if |ps| > 1 {
      n := n + gap * (|ps| - 1);
    }
  }

  function DisplayIndex(work: seq<Card>, x: Placement): nat {
    IndexOf(Ids(work), x.id)
  }

  function RowLeq(work: seq<Card>): (Placement, Placement) -> bool {
    (a: Placement, b: Placement) => DisplayIndex(work, a) <= DisplayIndex(work, b)
  }

  ghost predicate InDisplayOrder(work: seq<Card>, row: seq<Placement>) {
    forall i, j :: 0 <= i < j < |row| ==> DisplayIndex(work, row[i]) < DisplayIndex(work, row[j])
  }

  lemma DisplayIndexIs(work: seq<Card>, i: nat, x: Placement)
    requires DistinctIds(work) && i < |work| && x.id == work[i].id
    ensures DisplayIndex(work, x) == i
  {
    var ids := Ids(work);
    assert ids[i] == x.id;
    assert IndexOf(ids, x.id) == i;
  }

  /** The row of every chain state is already in display order. */
  lemma {:induction false} RowInDisplayOrder(work: seq<Card>, pos: seq<nat>, t: nat, k: nat)
    requires |pos| == |work| && DistinctIds(work) && k <= |work|
    ensures forall i :: 0 <= i < |VisibleUpTo(work, pos, t, k)| ==>
            DisplayIndex(work, VisibleUpTo(work, pos, t, k)[i]) < k
    ensures InDisplayOrder(work, VisibleUpTo(work, pos, t, k))
  {
    hide DisplayIndex, DistinctIds, DensityAt, WidthAt, Gone;
    if k > 0 {
      RowInDisplayOrder(work, pos, t, k - 1);
      DisplayIndexIs(work, k - 1, PlacementAt(work, pos, k - 1, t));
    }
  }

  lemma FinalSortIsIdentity(work: seq<Card>, pos: seq<nat>, t: nat)
    requires |pos| == |work| && DistinctIds(work)
    ensures Sort(RowLeq(work), Visible(work, pos, t)) == Visible(work, pos, t)
  {
    var row, leq := Visible(work, pos, t), RowLeq(work);
    RowInDisplayOrder(work, pos, t, |work|);
    assert Sorted(leq, row);
    assert TotalPreorderOn(leq, row);
    forall x, y | x in row && y in row && leq(x, y) && leq(y, x) ensures x == y {
      var i :| 0 <= i < |row| && row[i] == x;
      var j :| 0 <= j < |row| && row[j] == y;
    }
    SortFixesSorted(leq, row);
  }

  lemma RowIs(work: seq<Card>, pos: seq<nat>, t: nat, ps: seq<Placement>)
    requires |pos| == |work| == |ps| && t <= 2 * |work|
    requires forall i :: 0 <= i < |ps| ==> ps[i] == PlacementAt(work, pos, i, t)
    ensures ps == Visible(work, pos, t)
  {
    VisibleBeforeRemoval(work, pos, t, |work|);
  }

  /** `row` is the state of the chain that the solver has reached, and the answer is not behind it. */
  ghost predicate Reached(work: seq<Card>, order: seq<nat>, pos: seq<nat>, g: nat, avail: nat, t: nat,
                          row: seq<Placement>)
  {
    && IsPlan(work, order, pos) && t <= Last(work, order, pos)
    && row == Visible(work, pos, t)
    && StopAt(work, order, pos, g, avail, 0) == StopAt(work, order, pos, g, avail, t)
  }

  lemma Advance(work: seq<Card>, order: seq<nat>, pos: seq<nat>, g: nat, avail: nat, t: nat, row: seq<Placement>,
                next: seq<Placement>)
    requires Reached(work, order, pos, g, avail, t, row) && t < Last(work, order, pos)
    requires Used(row, g) > avail && next == Visible(work, pos, t + 1)
    ensures Reached(work, order, pos, g, avail, t + 1, next)
  {
  }

  lemma DegradeRow(work: seq<Card>, order: seq<nat>, pos: seq<nat>, g: nat, avail: nat, t: nat, row: seq<Placement>,
                   q: nat, d: Density)
    requires Reached(work, order, pos, g, avail, t, row) && Used(row, g) > avail
    requires q < |work| && ((d == Compact && t == q) || (d == Micro && t == |work| + q))
    ensures |row| == |work| && order[q] < |work|
    ensures Reached(work, order, pos, g, avail, t + 1,
                    row[order[q] := Placement(row[order[q]].id, d, WidthAt(work[order[q]], d))])
  {
    VisibleBeforeRemoval(work, pos, t, |work|);
    DegradeStep(work, order, pos, t);
    Advance(work, order, pos, g, avail, t, row, Visible(work, pos, t + 1));
  }

  lemma ReachedBounds(work: seq<Card>, order: seq<nat>, pos: seq<nat>, g: nat, avail: nat, t: nat, row: seq<Placement>)
    requires Reached(work, order, pos, g, avail, t, row)
    ensures |order| == |pos| == |work| && (forall p :: 0 <= p < |order| ==> order[p] < |work|)
    ensures t <= 2 * |work| ==> |row| == |work|
    ensures IsPlan(work, order, pos)
  {
    if t <= 2 * |work| { VisibleBeforeRemoval(work, pos, t, |work|); }
  }

  lemma OverflowedNext(work: seq<Card>, order: seq<nat>, t: nat, q: nat)
    requires |order| == |work| && (forall p :: 0 <= p < |order| ==> order[p] < |work|)
    requires t == 2 * |work| + q && q < |work|
    ensures Overflowed(work, order, t + 1) == Overflowed(work, order, t) + [work[order[q]].id]
  {
  }

  lemma RemoveRow(work: seq<Card>, order: seq<nat>, pos: seq<nat>, g: nat, avail: nat, t: nat, row: seq<Placement>,
                  q: nat)
    returns (next: seq<Placement>, j: nat, x: Placement)
    requires Reached(work, order, pos, g, avail, t, row) && DistinctIds(work)
    requires t == 2 * |work| + q < Last(work, order, pos) && Used(row, g) > avail
    ensures Reached(work, order, pos, g, avail, t + 1, next)
    ensures order[q] < |work| && Overflowed(work, order, t + 1) == Overflowed(work, order, t) + [work[order[q]].id]
    ensures Removes(row, next, j, x) && x.id == work[order[q]].id
  {
    ReachedBounds(work, order, pos, g, avail, t, row);
    OverflowedNext(work, order, t, q);
    next, j, x := Visible(work, pos, t + 1), |VisibleUpTo(work, pos, t, order[q])|, PlacementAt(work, pos, order[q], t);
    RemoveStep(work, order, pos, t, q, |work|);
    assert row == Visible(work, pos, t);
    Advance(work, order, pos, g, avail, t, row, next);
    hide IsPlan, StopAt, VisibleUpTo, Overflowed, Reached, Used, Removes;
  }

  lemma ChainEnds(work: seq<Card>, order: seq<nat>, pos: seq<nat>, g: nat, avail: nat, t: nat, row: seq<Placement>)
    requires Reached(work, order, pos, g, avail, t, row)
    requires t == Last(work, order, pos) || Used(row, g) <= avail
    ensures t == StopAt(work, order, pos, g, avail, 0) && row == Visible(work, pos, t)
  {
  }

  method Degrade(placements: array<Placement>, i: nat, c: Card, d: Density)
    requires i < placements.Length && d != Full
    modifies placements
    ensures placements[..] == old(placements[..])[i := Placement(old(placements[i].id), d, WidthAt(c, d))]
  {
    var w := NormalizeWidths(c);
    if d == Compact {
      var compact := w.min + (w.pref - w.min) / 2;
      if compact < w.min { compact := w.min; }
      placements[i] := Placement(placements[i].id, Compact, compact);
    } else {
      placements[i] := Placement(placements[i].id, Micro, w.min);
    }
  }

  /** The first loop: compact cards in collapse order until the row fits. */
  method CompactUntilFits(work: seq<Card>, order: seq<nat>, ghost pos: seq<nat>, g: nat, avail: nat,
                          placements: array<Placement>)
    returns (ghost t: nat)
    requires Reached(work, order, pos, g, avail, 0, placements[..])
    modifies placements
    ensures t <= |work| && Reached(work, order, pos, g, avail, t, placements[..])
    ensures t == |work| || Used(placements[..], g) <= avail
  {
    ReachedBounds(work, order, pos, g, avail, 0, placements[..]);
    hide *;
    t := 0;
    for k := 0 to |order|
      invariant t == k && Reached(work, order, pos, g, avail, t, placements[..])
    {
      var used := ComputeUsed(placements[..], g);
      if used <= avail { return; }
      DegradeRow(work, order, pos, g, avail, t, placements[..], k, Compact);
      Degrade(placements, order[k], work[order[k]], Compact);
      t := t + 1;
    }
  }

  /** The second loop: make cards micro in collapse order until the row fits. */
  method MicroUntilFits(work: seq<Card>, order: seq<nat>, ghost pos: seq<nat>, g: nat, avail: nat,
                        placements: array<Placement>,
                        ghost start: nat)
    returns (ghost t: nat)
    requires Reached(work, order, pos, g, avail, start, placements[..]) && start <= |work|
    requires start == |work| || Used(placements[..], g) <= avail
    modifies placements
    ensures t <= 2 * |work| && Reached(work, order, pos, g, avail, t, placements[..])
    ensures t == 2 * |work| || Used(placements[..], g) <= avail
  {
    ReachedBounds(work, order, pos, g, avail, start, placements[..]);
    hide *;
    t := start;
    for k := 0 to |order|
      invariant t == start + k && (start == |work| || (k == 0 && Used(placements[..], g) <= avail))
      invariant Reached(work, order, pos, g, avail, t, placements[..])
    {
      var used := ComputeUsed(placements[..], g);
      if used <= avail { return; }
      DegradeRow(work, order, pos, g, avail, t, placements[..], k, Micro);
      Degrade(placements, order[k], work[order[k]], Micro);
      t := t + 1;
    }
  }

  /** Position of the first placement with a given id, or the length of the row. */
  function FirstAt(row: seq<Placement>, id: string): (i: nat)
    ensures i <= |row| && (i < |row| ==> row[i].id == id)
    ensures forall j :: 0 <= j < i ==> row[j].id != id
  {
    if row == [] || row[0].id == id then 0 else 1 + FirstAt(row[1..], id)
  }

  function WithoutFirst(row: seq<Placement>, id: string): seq<Placement> {
    var i := FirstAt(row, id);
    if i < |row| then row[..i] + row[i + 1..] else row
  }

  function Listed(row: seq<Placement>, id: string): seq<string> {
    if FirstAt(row, id) < |row| then [id] else []
  }

  /** Removal of a card from the row by id, as the inner loop of the third stage does it: the first
      placement with that id leaves and the id is listed; without one nothing changes. */
  method RemoveById(row: seq<Placement>, overflow: seq<string>, id: string)
    returns (row': seq<Placement>, overflow': seq<string>)
    ensures row' == WithoutFirst(row, id) && overflow' == overflow + Listed(row, id)
  {
    row', overflow' := row, overflow;
    for i := 0 to |row|
      invariant row' == row && overflow' == overflow && forall j :: 0 <= j < i ==> row[j].id != id
    {
      if row[i].id == id {
        row', overflow' := row[..i] + row[i + 1..], overflow + [id];
        return;
      }
    }
  }

  lemma RemovesFirst(row: seq<Placement>, next: seq<Placement>, j: nat, x: Placement)
    requires Removes(row, next, j, x)
    ensures WithoutFirst(row, x.id) == next && Listed(row, x.id) == [x.id]
  {
    assert FirstAt(row, x.id) == j;
  }

  /** What the removal stage makes of a row from position `k` of the collapse order on, for any ids. */
  function Removed(work: seq<Card>, order: seq<nat>, g: nat, avail: nat, k: nat,
                   row: seq<Placement>, overflow: seq<string>): (seq<Placement>, seq<string>)
    requires k <= |order| && forall p :: 0 <= p < |order| ==> order[p] < |work|
    decreases |order| - k
  {
    if k == |order| || Used(row, g) <= avail then (row, overflow)
    else
      var c := work[order[k]];
      if c.urgent then Removed(work, order, g, avail, k + 1, row, overflow)
      else Removed(work, order, g, avail, k + 1, WithoutFirst(row, c.id), overflow + Listed(row, c.id))
  }

  /** The removal stage is at position `k` of the collapse order. */
  ghost predicate Removing(work: seq<Card>, order: seq<nat>, g: nat, avail: nat, first: seq<Placement>, k: nat,
                           row: seq<Placement>, overflow: seq<string>) {
    && (forall p :: 0 <= p < |order| ==> order[p] < |work|)
    && k <= |order|
    && Removed(work, order, g, avail, 0, first, []) == Removed(work, order, g, avail, k, row, overflow)
  }

  lemma RemovingNext(work: seq<Card>, order: seq<nat>, g: nat, avail: nat, first: seq<Placement>, k: nat,
                     row: seq<Placement>, overflow: seq<string>)
    requires Removing(work, order, g, avail, first, k, row, overflow)
    ensures k < |order| ==> order[k] < |work|
    ensures k == |order| || Used(row, g) <= avail ==>
              Removed(work, order, g, avail, 0, first, []) == (row, overflow)
    ensures k < |order| && Used(row, g) > avail ==>
              var c := work[order[k]];
              if c.urgent then Removing(work, order, g, avail, first, k + 1, row, overflow)
              else Removing(work, order, g, avail, first, k + 1, WithoutFirst(row, c.id), overflow + Listed(row, c.id))
  {
    hide Used, WithoutFirst, Listed;
  }

  /** The third loop: drop non-urgent cards, by id, until the row fits. */
  method RemoveUntilFits(work: seq<Card>, order: seq<nat>, ghost pos: seq<nat>, g: nat, avail: nat,
                         row: seq<Placement>, ghost start: nat)
    returns (visible: seq<Placement>, overflow: seq<string>)
    requires Reached(work, order, pos, g, avail, start, row) && start <= 2 * |work|
    requires start == 2 * |work| || Used(row, g) <= avail
    ensures IsPlan(work, order, pos) && (visible, overflow) == Removed(work, order, g, avail, 0, row, [])
    ensures DistinctIds(work) ==> visible == Visible(work, pos, StopAt(work, order, pos, g, avail, 0))
    ensures DistinctIds(work) ==> overflow == Overflowed(work, order, StopAt(work, order, pos, g, avail, 0))
  {
    hide Reached, Removing, IsPlan, Used, Removes, Visible, VisibleUpTo, PlacementAt, DistinctIds, StopAt, Overflowed,
         Removable, Removed, WithoutFirst, FirstAt, Listed;
    ReachedBounds(work, order, pos, g, avail, start, row);
    NothingOverflowed(work, order, start);
    visible, overflow := row, [];
    RemovingStarts(work, order, g, avail, row);
    ghost var m, t := Removable(work, order), start;
    for k := 0 to |order|
      invariant t == start + (if k < m then k else m)
      invariant start == 2 * |work| || (k == 0 && Used(visible, g) <= avail)
      invariant Removing(work, order, g, avail, row, k, visible, overflow)
      invariant DistinctIds(work) ==>
                  Reached(work, order, pos, g, avail, t, visible) && overflow == Overflowed(work, order, t)
    {
      var used := ComputeUsed(visible, g);
      RemovingNext(work, order, g, avail, row, k, visible, overflow);
      if used <= avail {
        if DistinctIds(work) { ChainEnds(work, order, pos, g, avail, t, visible); }
        return;
      }
      UrgentStayUrgent(work, order, pos, k);
      if !work[order[k]].urgent {
        if DistinctIds(work) {
          var next, j, x := RemoveRow(work, order, pos, g, avail, t, visible, k);
          RemovesFirst(visible, next, j, x);
        }
        visible, overflow := RemoveById(visible, overflow, work[order[k]].id);
        t := t + 1;
      }
    }
    RemovingNext(work, order, g, avail, row, |order|, visible, overflow);
    if DistinctIds(work) { ChainEnds(work, order, pos, g, avail, t, visible); }
  }

  lemma RemovingStarts(work: seq<Card>, order: seq<nat>, g: nat, avail: nat, row: seq<Placement>)
    requires forall p :: 0 <= p < |order| ==> order[p] < |work|
    ensures Removing(work, order, g, avail, row, 0, row, [])
  {
  }

  lemma NothingOverflowed(work: seq<Card>, order: seq<nat>, t: nat)
    requires |order| == |work| && (forall p :: 0 <= p < |order| ==> order[p] < |work|) && t <= 2 * |work|
    ensures Overflowed(work, order, t) == []
  {
  }

  lemma UrgentStayUrgent(work: seq<Card>, order: seq<nat>, pos: seq<nat>, k: nat)
    requires IsPlan(work, order, pos) && k < |order|
    ensures !work[order[k]].urgent <==> k < Removable(work, order)
  {
    var m := Removable(work, order);
    if m < k { assert CollapseLeq(work[order[m]], work[order[k]]); }
  }

  method FullRow(work: seq<Card>, ghost pos: seq<nat>) returns (placements: array<Placement>)
    requires |pos| == |work|
    ensures fresh(placements) && placements[..] == Visible(work, pos, 0)
  {
    placements := new Placement[|work|](_ => Placement("", Full, 0));
    for i := 0 to |work|
      invariant forall j :: 0 <= j < i ==> placements[j] == PlacementAt(work, pos, j, 0)
    {
      var w := NormalizeWidths(work[i]);
      placements[i] := Placement(work[i].id, Full, if w.pref > w.max then w.max else w.pref);
    }
    RowIs(work, pos, 0, placements[..]);
  }

  /** Where the two degrading stages stop. */
  ghost function DegradedAt(work: seq<Card>, order: seq<nat>, pos: seq<nat>, g: nat, avail: nat): (t: nat)
    requires IsPlan(work, order, pos)
    ensures t <= 2 * |work|
  {
    var s := StopAt(work, order, pos, g, avail, 0);
    if s <= 2 * |work| then s else 2 * |work|
  }

  lemma DegradingEnds(work: seq<Card>, order: seq<nat>, pos: seq<nat>, g: nat, avail: nat, t: nat, row: seq<Placement>)
    requires Reached(work, order, pos, g, avail, t, row) && t <= 2 * |work|
    requires t == 2 * |work| || Used(row, g) <= avail
    ensures t == DegradedAt(work, order, pos, g, avail) && row == Visible(work, pos, t)
  {
  }

  /** The specification of the solver for any ids: the degraded row, what the removal stage leaves of
      it, and the sort for display. */
  ghost function LayoutOf(available: int, gap: int, cards: seq<Card>): Result {
    var g, avail, work := Clamp(gap), Clamp(available), WorkOrder(cards);
    var order := CollapseOrder(work);
    var pos := Positions(order);
    CollapseOrderIsPlan(work);
    var (left, overflow) :=
      Removed(work, order, g, avail, 0, Visible(work, pos, DegradedAt(work, order, pos, g, avail)), []);
    var row := Sort(RowLeq(work), left);
    Result(row, overflow, Used(row, g), Used(row, g) > avail)
  }

  /** Layout, as written.  With distinct card ids its result is the first state of the chain that fits. */
  method Solve(available: int, gap: int, cards: seq<Card>) returns (r: Result)
    ensures r == LayoutOf(available, gap, cards)
    ensures DistinctIds(cards) ==> r == FirstFit(available, gap, cards)
  {
    var avail, g := Clamp(available), Clamp(gap);
    var work := WorkOrder(cards);
    var order := CollapseOrder(work);
    ghost var pos := Positions(order);
    CollapseOrderIsPlan(work);
    var placements := FullRow(work, pos);
    ghost var t := CompactUntilFits(work, order, pos, g, avail, placements);
    t := MicroUntilFits(work, order, pos, g, avail, placements, t);
    DegradingEnds(work, order, pos, g, avail, t, placements[..]);
    var visible, overflow := RemoveUntilFits(work, order, pos, g, avail, placements[..], t);
    if DistinctIds(cards) {
      DistinctIdsInWork(cards);
      FinalSortIsIdentity(work, pos, StopAt(work, order, pos, g, avail, 0));
    }
    var row := Sort(RowLeq(work), visible);
    var used := ComputeUsed(row, g);
    r := Result(row, overflow, used, used > avail);
  }

  // ----- What holds for any ids -----

  function RowIds(row: seq<Placement>): (ids: seq<string>)
    ensures |ids| == |row| && forall i :: 0 <= i < |row| ==> ids[i] == row[i].id
  {
    seq(|row|, i requires 0 <= i < |row| => row[i].id)
  }

  /** The row and the overflow hold the ids of the cards, each as often as the cards do. */
  ghost predicate Holds(cards: seq<Card>, row: seq<Placement>, overflow: seq<string>) {
    multiset(RowIds(row)) + multiset(overflow) == multiset(Ids(cards))
  }

  lemma RowIdsOfPermutation(a: seq<Placement>, b: seq<Placement>)
    requires multiset(a) == multiset(b)
    ensures multiset(RowIds(a)) == multiset(RowIds(b))
  {
    MapPermutation((x: Placement) => x.id, a, b);
    assert Map((x: Placement) => x.id, a) == RowIds(a) && Map((x: Placement) => x.id, b) == RowIds(b);
  }

  lemma IdsOfPermutation(a: seq<Card>, b: seq<Card>)
    requires multiset(a) == multiset(b)
    ensures multiset(Ids(a)) == multiset(Ids(b))
  {
    MapPermutation((c: Card) => c.id, a, b);
    assert Map((c: Card) => c.id, a) == Ids(a) && Map((c: Card) => c.id, b) == Ids(b);
  }

  lemma HoldsNext(cards: seq<Card>, row: seq<Placement>, overflow: seq<string>, id: string)
    requires Holds(cards, row, overflow)
    ensures Holds(cards, WithoutFirst(row, id), overflow + Listed(row, id))
  {
    hide Ids, FirstAt, RowIds;
    var i := FirstAt(row, id);
    if i < |row| {
      RowIdsWithout(row, i);
      IdMoves(RowIds(row), RowIds(row[..i] + row[i + 1..]), overflow, id);
    } else {
      assert overflow + [] == overflow;
    }
  }

  lemma IdMoves(ids: seq<string>, rest: seq<string>, overflow: seq<string>, id: string)
    requires multiset(ids) == multiset(rest) + multiset{id}
    ensures multiset(rest) + multiset(overflow + [id]) == multiset(ids) + multiset(overflow)
  {
    assert multiset(overflow + [id]) == multiset(overflow) + multiset{id};
  }

  lemma RowIdsWithout(row: seq<Placement>, i: nat)
    requires i < |row|
    ensures multiset(RowIds(row)) == multiset(RowIds(row[..i] + row[i + 1..])) + multiset{row[i].id}
  {
    var ids := RowIds(row);
    assert RowIds(row[..i] + row[i + 1..]) == ids[..i] + ids[i + 1..];
    RestMultiset(ids, i);
  }

  ghost predicate CarriesNonUrgent(cards: seq<Card>, id: string) {
    exists c :: c in cards && !c.urgent && c.id == id
  }

  ghost predicate FromNonUrgent(cards: seq<Card>, ids: seq<string>) {
    forall id :: id in ids ==> CarriesNonUrgent(cards, id)
  }

  lemma ListedAreNonUrgent(work: seq<Card>, row: seq<Placement>, overflow: seq<string>, c: Card)
    requires FromNonUrgent(work, overflow) && c in work && !c.urgent
    ensures FromNonUrgent(work, overflow + Listed(row, c.id))
  {
  }

  /** The removal stage conserves ids, only adds to the overflow, and adds ids of non-urgent cards. */
  lemma {:induction false} RemovedHolds(work: seq<Card>, order: seq<nat>, g: nat, avail: nat, k: nat,
                                        row: seq<Placement>, overflow: seq<string>)
    requires k <= |order| && forall p :: 0 <= p < |order| ==> order[p] < |work|
    requires Holds(work, row, overflow) && FromNonUrgent(work, overflow)
    ensures var (left, over) := Removed(work, order, g, avail, k, row, overflow);
            Holds(work, left, over) && overflow <= over && FromNonUrgent(work, over)
    decreases |order| - k
  {
    hide Holds, WithoutFirst, Listed, Used, CarriesNonUrgent;
    if k < |order| && Used(row, g) > avail {
      var c := work[order[k]];
      if c.urgent {
        RemovedHolds(work, order, g, avail, k + 1, row, overflow);
      } else {
        HoldsNext(work, row, overflow, c.id);
        ListedAreNonUrgent(work, row, overflow, c);
        RemovedHolds(work, order, g, avail, k + 1, WithoutFirst(row, c.id), overflow + Listed(row, c.id));
      }
    }
  }

  lemma FirstRowHolds(work: seq<Card>, pos: seq<nat>, t: nat)
    requires |pos| == |work| && t <= 2 * |work|
    ensures Holds(work, Visible(work, pos, t), [])
  {
    VisibleBeforeRemoval(work, pos, t, |work|);
    assert RowIds(Visible(work, pos, t)) == Ids(work);
  }

  lemma NonUrgentInWork(cards: seq<Card>, id: string)
    ensures CarriesNonUrgent(WorkOrder(cards), id) <==> CarriesNonUrgent(cards, id)
  {
    MembersOfPermutation(cards, WorkOrder(cards));
  }

  /** Every id is shown or overflowed as often as cards carry it, also when cards share ids, and what
      overflows is carried by a card that is not urgent. */
  lemma IdsAreConserved(available: int, gap: int, cards: seq<Card>)
    ensures Holds(cards, LayoutOf(available, gap, cards).visible, LayoutOf(available, gap, cards).overflow)
    ensures FromNonUrgent(cards, LayoutOf(available, gap, cards).overflow)
  {
    hide Removed, Used, RowIds, Ids, CarriesNonUrgent, Visible;
    var g, avail, work := Clamp(gap), Clamp(available), WorkOrder(cards);
    var order := CollapseOrder(work);
    var pos := Positions(order);
    CollapseOrderIsPlan(work);
    var t := DegradedAt(work, order, pos, g, avail);
    FirstRowHolds(work, pos, t);
    RemovedHolds(work, order, g, avail, 0, Visible(work, pos, t), []);
    var (left, over) := Removed(work, order, g, avail, 0, Visible(work, pos, t), []);
    RowIdsOfPermutation(Sort(RowLeq(work), left), left);
    IdsOfPermutation(work, cards);
    forall id | id in over ensures CarriesNonUrgent(cards, id) { NonUrgentInWork(cards, id); }
  }

  lemma WidthsArePositive(work: seq<Card>, pos: seq<nat>, t: nat)
    requires |pos| == |work| && t <= 2 * |work|
    ensures AllWide(Visible(work, pos, t))
  {
    VisibleBeforeRemoval(work, pos, t, |work|);
  }

  ghost predicate AllWide(row: seq<Placement>) {
    forall i :: 0 <= i < |row| ==> row[i].width > 0
  }

  lemma {:induction false} WideRowIsUsed(row: seq<Placement>)
    requires AllWide(row)
    ensures SumWidths(row) >= |row| && Used(row, 0) == SumWidths(row)
  {
    if row != [] {
      assert AllWide(row[..|row| - 1]);
      WideRowIsUsed(row[..|row| - 1]);
    }
  }

  lemma WideWithoutFirst(row: seq<Placement>, id: string)
    requires AllWide(row)
    ensures AllWide(WithoutFirst(row, id))
  {
  }

  lemma IdIsSomewhere(work: seq<Card>, row: seq<Placement>, overflow: seq<string>, c: Card)
    requires Holds(work, row, overflow) && c in work
    ensures FirstAt(row, c.id) < |row| || c.id in overflow
  {
    assert c.id in Ids(work) by {
      var i :| 0 <= i < |work| && work[i] == c;
      assert Ids(work)[i] == c.id;
    }
    assert c.id in multiset(RowIds(row)) + multiset(overflow);
    if c.id in RowIds(row) {
      var i :| 0 <= i < |row| && RowIds(row)[i] == c.id;
      assert row[i].id == c.id;
    }
  }

  /** With no width at all, every non-urgent card of the collapse order gives its id to the overflow. */
  lemma {:induction false} RemovedDrains(work: seq<Card>, order: seq<nat>, k: nat, row: seq<Placement>,
                                         overflow: seq<string>, p: nat)
    requires k <= p < |order| && forall p :: 0 <= p < |order| ==> order[p] < |work|
    requires Holds(work, row, overflow) && FromNonUrgent(work, overflow) && AllWide(row)
    requires !work[order[p]].urgent
    ensures work[order[p]].id in Removed(work, order, 0, 0, k, row, overflow).1
    decreases |order| - k
  {
    hide Holds, WithoutFirst, FirstAt, SumWidths, AllWide, FromNonUrgent, CarriesNonUrgent;
    var c, d := work[order[k]], work[order[p]];
    WideRowIsUsed(row);
    IdIsSomewhere(work, row, overflow, d);
    if Used(row, 0) > 0 {
      if c.urgent {
        RemovedDrains(work, order, k + 1, row, overflow, p);
      } else {
        var row', overflow' := WithoutFirst(row, c.id), overflow + Listed(row, c.id);
        HoldsNext(work, row, overflow, c.id);
        WideWithoutFirst(row, c.id);
        ListedAreNonUrgent(work, row, overflow, c);
        if k < p {
          RemovedDrains(work, order, k + 1, row', overflow', p);
        } else {
          RemovedHolds(work, order, 0, 0, k + 1, row', overflow');
          assert d.id in overflow';
        }
      }
    } else {
      RemovedHolds(work, order, 0, 0, k, row, overflow);
      assert d.id in overflow;
    }
  }

  /** Some width and gap let an id overflow exactly when some card that is not urgent carries it.  So
      the id of an urgent card can overflow exactly when a card that is not urgent carries it too. */
  lemma OverflowsExactly(cards: seq<Card>, id: string)
    ensures (exists available, gap :: id in LayoutOf(available, gap, cards).overflow) <==> CarriesNonUrgent(cards, id)
  {
    hide Removed, Holds, RowIds, Ids, Visible;
    forall available, gap | id in LayoutOf(available, gap, cards).overflow ensures CarriesNonUrgent(cards, id) {
      IdsAreConserved(available, gap, cards);
    }
    if CarriesNonUrgent(cards, id) {
      NarrowestDropsIt(cards, id);
      assert id in LayoutOf(0, 0, cards).overflow;
    }
  }

  lemma NarrowestDropsIt(cards: seq<Card>, id: string)
    requires CarriesNonUrgent(cards, id)
    ensures id in LayoutOf(0, 0, cards).overflow
  {
    hide Removed, Holds, RowIds, Ids, Visible, Sort;
    var work := WorkOrder(cards);
    var order := CollapseOrder(work);
    var pos := Positions(order);
    CollapseOrderIsPlan(work);
    NonUrgentInWork(cards, id);
    var i :| 0 <= i < |work| && !work[i].urgent && work[i].id == id;
    var t := DegradedAt(work, order, pos, 0, 0);
    FirstRowHolds(work, pos, t);
    WidthsArePositive(work, pos, t);
    RemovedDrains(work, order, 0, Visible(work, pos, t), [], pos[i]);
  }

  // ----- What the first fitting state is worth -----

  /** Everything the theorems below talk about, for one input. */
  ghost predicate IsRun(available: int, gap: int, cards: seq<Card>, work: seq<Card>, order: seq<nat>, pos: seq<nat>,
                        stop: nat)
  {
    && DistinctIds(cards) && DistinctIds(work)
    && work == WorkOrder(cards) && order == CollapseOrder(work) && pos == Positions(order)
    && IsPlan(work, order, pos)
    && stop == StopAt(work, order, pos, Clamp(gap), Clamp(available), 0)
  }

  lemma RunOf(available: int, gap: int, cards: seq<Card>)
    returns (work: seq<Card>, order: seq<nat>, pos: seq<nat>, stop: nat)
    requires DistinctIds(cards)
    ensures IsRun(available, gap, cards, work, order, pos, stop)
    ensures FirstFit(available, gap, cards) == ResultAt(work, order, pos, Clamp(gap), Clamp(available), stop)
  {
    work := WorkOrder(cards);
    order := CollapseOrder(work);
    pos := Positions(order);
    CollapseOrderIsPlan(work);
    DistinctIdsInWork(cards);
    stop := StopAt(work, order, pos, Clamp(gap), Clamp(available), 0);
  }

  /** The stopping step is a threshold: a state of the chain fits exactly when it is at or after it. */
  lemma StopIsThreshold(available: int, gap: int, cards: seq<Card>, work: seq<Card>, order: seq<nat>, pos: seq<nat>,
                        stop: nat, t: nat)
    requires IsRun(available, gap, cards, work, order, pos, stop) && t <= Last(work, order, pos)
    requires !FirstFit(available, gap, cards).overfull
    ensures Used(Visible(work, pos, t), Clamp(gap)) <= Clamp(available) <==> stop <= t
  {
    if stop <= t { ChainNeverWidensBetween(work, order, pos, Clamp(gap), stop, t); }
  }

  lemma {:induction false} WiderStopsEarlier(work: seq<Card>, order: seq<nat>, pos: seq<nat>, gap: nat, a: nat, b: nat,
                                             t: nat)
    requires IsPlan(work, order, pos) && t <= Last(work, order, pos) && a <= b
    ensures StopAt(work, order, pos, gap, b, t) <= StopAt(work, order, pos, gap, a, t)
    decreases Last(work, order, pos) - t
  {
    if t < Last(work, order, pos) && Used(Visible(work, pos, t), gap) > a {
      WiderStopsEarlier(work, order, pos, gap, a, b, t + 1);
    }
  }

  lemma WidthFollowsDensity(c: Card, d: Density, e: Density)
    requires d.Rank() <= e.Rank()
    ensures WidthAt(c, d) <= WidthAt(c, e)
  {
  }

  /** `row` shows the card of `x` at least as well as `x` does. */
  ghost predicate AtLeastAsGood(row: seq<Placement>, x: Placement) {
    exists y :: y in row && y.id == x.id && x.density.Rank() <= y.density.Rank() && x.width <= y.width
  }

  lemma EarlierIsBetter(work: seq<Card>, order: seq<nat>, pos: seq<nat>, u: nat, s: nat, x: Placement)
    requires IsPlan(work, order, pos) && u <= s && x in Visible(work, pos, s)
    ensures AtLeastAsGood(Visible(work, pos, u), x)
  {
    VisibleMembers(work, pos, s, |work|, x);
    var i :| 0 <= i < |work| && !Gone(|work|, pos[i], s) && x == PlacementAt(work, pos, i, s);
    var y := PlacementAt(work, pos, i, u);
    VisibleMembers(work, pos, u, |work|, y);
    WidthFollowsDensity(work[i], x.density, y.density);
    assert y in Visible(work, pos, u);
  }

  /** More room never lowers a card's density and never adds an overflowed card. */
  lemma WiderNeverDegrades(narrow: int, wide: int, gap: int, cards: seq<Card>)
    requires narrow <= wide && DistinctIds(cards)
    ensures FirstFit(wide, gap, cards).overflow <= FirstFit(narrow, gap, cards).overflow
    ensures forall x :: x in FirstFit(narrow, gap, cards).visible ==>
            AtLeastAsGood(FirstFit(wide, gap, cards).visible, x)
  {
    var work, order, pos, s := RunOf(narrow, gap, cards);
    var _, _, _, u := RunOf(wide, gap, cards);
    WiderStopsEarlier(work, order, pos, Clamp(gap), Clamp(narrow), Clamp(wide), 0);
    forall x | x in FirstFit(narrow, gap, cards).visible ensures AtLeastAsGood(FirstFit(wide, gap, cards).visible, x) {
      EarlierIsBetter(work, order, pos, u, s, x);
    }
  }

  lemma {:induction false} RowLength(work: seq<Card>, order: seq<nat>, pos: seq<nat>, t: nat)
    requires IsPlan(work, order, pos) && DistinctIds(work) && t <= 3 * |work|
    ensures |Visible(work, pos, t)| == if t <= 2 * |work| then |work| else 3 * |work| - t
  {
    if t <= 2 * |work| {
      VisibleBeforeRemoval(work, pos, t, |work|);
    } else {
      RowLength(work, order, pos, t - 1);
      RemoveStep(work, order, pos, t - 1, t - 1 - 2 * |work|, |work|);
    }
  }

  ghost predicate Shows(row: seq<Placement>, id: string) {
    exists x :: x in row && x.id == id
  }

  lemma ShownIffNotOverflowed(work: seq<Card>, order: seq<nat>, pos: seq<nat>, t: nat, i: nat)
    requires IsPlan(work, order, pos) && DistinctIds(work) && t <= 3 * |work| && i < |work|
    ensures Shows(Visible(work, pos, t), work[i].id) <==> !Gone(|work|, pos[i], t)
    ensures work[i].id in Overflowed(work, order, t) <==> Gone(|work|, pos[i], t)
  {
    var y, row, over := PlacementAt(work, pos, i, t), Visible(work, pos, t), Overflowed(work, order, t);
    VisibleMembers(work, pos, t, |work|, y);
    if Gone(|work|, pos[i], t) {
      assert over[pos[i]] == work[i].id;
      forall x | x in row ensures x.id != work[i].id { VisibleMembers(work, pos, t, |work|, x); }
    } else {
      assert y in row;
      forall p | 0 <= p < |over| ensures over[p] != work[i].id { assert order[p] != i; }
    }
  }

  /** The row and the overflow split the cards between them. */
  ghost predicate Partitions(cards: seq<Card>, row: seq<Placement>, overflow: seq<string>) {
    && |row| + |overflow| == |cards|
    && (forall c :: c in cards ==> (Shows(row, c.id) <==> c.id !in overflow))
  }

  /** Cards are conserved. */
  lemma LayoutConserves(available: int, gap: int, cards: seq<Card>)
    requires DistinctIds(cards)
    ensures Partitions(cards, FirstFit(available, gap, cards).visible, FirstFit(available, gap, cards).overflow)
  {
    var work, order, pos, s := RunOf(available, gap, cards);
    MembersOfPermutation(cards, work);
    RowLength(work, order, pos, s);
    forall c | c in cards ensures Shows(Visible(work, pos, s), c.id) <==> c.id !in Overflowed(work, order, s) {
      var i :| 0 <= i < |work| && work[i] == c;
      ShownIffNotOverflowed(work, order, pos, s, i);
    }
  }

  lemma UrgentIsNotOverflowed(work: seq<Card>, order: seq<nat>, pos: seq<nat>, t: nat, i: nat)
    requires IsPlan(work, order, pos) && DistinctIds(work) && t <= Last(work, order, pos) && i < |work| &&
             work[i].urgent
    ensures work[i].id !in Overflowed(work, order, t)
  {
    ShownIffNotOverflowed(work, order, pos, t, i);
    UrgentStayUrgent(work, order, pos, pos[i]);
  }

  /** Urgent cards never overflow. */
  lemma UrgentNeverOverflows(available: int, gap: int, cards: seq<Card>, c: Card)
    requires DistinctIds(cards) && c in cards && c.urgent
    ensures c.id !in FirstFit(available, gap, cards).overflow
    ensures Shows(FirstFit(available, gap, cards).visible, c.id)
  {
    var work, order, pos, s := RunOf(available, gap, cards);
    MembersOfPermutation(cards, work);
    var i :| 0 <= i < |work| && work[i] == c;
    UrgentIsNotOverflowed(work, order, pos, s, i);
    ShownIffNotOverflowed(work, order, pos, s, i);
  }

  /** The placement of some urgent card at its minimum width. */
  ghost predicate UrgentAtMinimum(cards: seq<Card>, x: Placement) {
    exists c :: c in cards && c.urgent && x == Placement(c.id, Micro, NormalizeWidths(c).min)
  }

  lemma EndOfChain(work: seq<Card>, order: seq<nat>, pos: seq<nat>, t: nat, x: Placement)
    requires IsPlan(work, order, pos) && 2 * |work| <= t <= Last(work, order, pos) && x in Visible(work, pos, t)
    ensures x.density == Micro
    ensures t == Last(work, order, pos) ==> UrgentAtMinimum(work, x)
  {
    VisibleMembers(work, pos, t, |work|, x);
    var i :| 0 <= i < |work| && !Gone(|work|, pos[i], t) && x == PlacementAt(work, pos, i, t);
    UrgentStayUrgent(work, order, pos, pos[i]);
    assert work[i] in work;
  }

  /** A card overflows only when every visible card is micro, and an overfull row holds nothing but
      urgent cards at their minimum width. */
  lemma OverflowRules(available: int, gap: int, cards: seq<Card>, x: Placement)
    requires DistinctIds(cards)
    ensures x in FirstFit(available, gap, cards).visible && FirstFit(available, gap, cards).overflow != [] ==>
              x.density == Micro
    ensures x in FirstFit(available, gap, cards).visible && FirstFit(available, gap, cards).overfull ==>
              UrgentAtMinimum(cards, x)
  {
    var work, order, pos, s := RunOf(available, gap, cards);
    if s >= 2 * |work| && x in Visible(work, pos, s) {
      EndOfChain(work, order, pos, s, x);
      MembersOfPermutation(cards, work);
    }
  }

  /** All cards at minimum width except those with an id in `gone`. */
  function MicroRowWithout(work: seq<Card>, gone: set<string>): seq<Placement> {
    if work == [] then []
    else
      var c := work[|work| - 1];
      MicroRowWithout(work[..|work| - 1], gone) +
      if c.id in gone then [] else [Placement(c.id, Micro, NormalizeWidths(c).min)]
  }

  function IdSet(ids: seq<string>): set<string> {
    set id | id in ids
  }

  lemma {:induction false} RemovalRow(work: seq<Card>, order: seq<nat>, pos: seq<nat>, t: nat, k: nat,
                                      gone: set<string>)
    requires IsPlan(work, order, pos) && DistinctIds(work) && 2 * |work| <= t <= 3 * |work| && k <= |work|
    requires gone == IdSet(Overflowed(work, order, t))
    ensures VisibleUpTo(work, pos, t, k) == MicroRowWithout(work[..k], gone)
  {
    if k > 0 {
      RemovalRow(work, order, pos, t, k - 1, gone);
      assert work[..k][..k - 1] == work[..k - 1];
      var over := Overflowed(work, order, t);
      if Gone(|work|, pos[k - 1], t) {
        assert over[pos[k - 1]] == work[k - 1].id;
      } else {
        forall p | 0 <= p < |over| ensures over[p] != work[k - 1].id { assert order[p] != k - 1; }
      }
    }
  }

  /** Width of the row that is left when every card is at minimum width and `gone` is removed. */
  ghost function WidthWithout(work: seq<Card>, gap: nat, gone: seq<string>): int {
    Used(MicroRowWithout(work, IdSet(gone)), gap)
  }

  lemma RemovalWidth(work: seq<Card>, order: seq<nat>, pos: seq<nat>, gap: nat, t: nat)
    requires IsPlan(work, order, pos) && DistinctIds(work) && 2 * |work| <= t <= 3 * |work|
    ensures Used(Visible(work, pos, t), gap) == WidthWithout(work, gap, Overflowed(work, order, t))
  {
    RemovalRow(work, order, pos, t, |work|, IdSet(Overflowed(work, order, t)));
    assert work[..|work|] == work;
  }

  lemma OverflowedPrefix(work: seq<Card>, order: seq<nat>, pos: seq<nat>, s: nat, q: nat)
    requires IsPlan(work, order, pos) && s <= 3 * |work| && q <= |Overflowed(work, order, s)|
    ensures Overflowed(work, order, s)[..q] == Overflowed(work, order, 2 * |work| + q)
  {
  }

  /** The overflow is a prefix of the collapse order. */
  lemma OverflowFollowsCollapseOrder(available: int, gap: int, cards: seq<Card>, p: nat)
    requires DistinctIds(cards) && p < |FirstFit(available, gap, cards).overflow|
    ensures CollapseOrder(WorkOrder(cards))[p] < |cards|
    ensures FirstFit(available, gap, cards).overflow[p] == WorkOrder(cards)[CollapseOrder(WorkOrder(cards))[p]].id
  {
    var work, order, pos, s := RunOf(available, gap, cards);
  }

  lemma ShortestAt(work: seq<Card>, order: seq<nat>, pos: seq<nat>, gap: nat, avail: nat, s: nat, q: nat)
    requires IsPlan(work, order, pos) && DistinctIds(work) && s == StopAt(work, order, pos, gap, avail, 0)
    requires q <= |Overflowed(work, order, s)|
    ensures q < |Overflowed(work, order, s)| ==> WidthWithout(work, gap, Overflowed(work, order, s)[..q]) > avail
    ensures q == |Overflowed(work, order, s)| > 0 ==>
              WidthWithout(work, gap, Overflowed(work, order, s)[..q]) == Used(Visible(work, pos, s), gap)
  {
    OverflowedPrefix(work, order, pos, s, q);
    RemovalWidth(work, order, pos, gap, 2 * |work| + q);
  }

  /** It is the shortest one whose removal makes the rest fit, or all the non-urgent cards. */
  lemma OverflowIsShortest(available: int, gap: int, cards: seq<Card>, q: nat)
    requires DistinctIds(cards)
    ensures
      var r := FirstFit(available, gap, cards);
      && (q < |r.overflow| ==> WidthWithout(WorkOrder(cards), Clamp(gap), r.overflow[..q]) > Clamp(available))
      && (r.overflow != [] ==>
            (WidthWithout(WorkOrder(cards), Clamp(gap), r.overflow) <= Clamp(available) <==> !r.overfull))
  {
    var work, order, pos, s := RunOf(available, gap, cards);
    var over := FirstFit(available, gap, cards).overflow;
    assert over[..|over|] == over;
    ShortestAt(work, order, pos, Clamp(gap), Clamp(available), s, |over|);
    if q < |over| {
      ShortestAt(work, order, pos, Clamp(gap), Clamp(available), s, q);
    }
  }

  // ----- Who gives way, and how far -----

  /** `c` gives way before `d`: cards that are not urgent first, then those of lower priority, then
      those of smaller id. */
  predicate GivesWayBefore(c: Card, d: Card) {
    if c.urgent != d.urgent then d.urgent
    else c.priority < d.priority || (c.priority == d.priority && c.id != d.id && Text.Leq(c.id, d.id))
  }

  lemma EarlierInPlan(work: seq<Card>, order: seq<nat>, pos: seq<nat>, i: nat, j: nat)
    requires IsPlan(work, order, pos) && i < |work| && j < |work| && GivesWayBefore(work[i], work[j])
    ensures pos[i] < pos[j]
  {
    if pos[j] < pos[i] {
      assert CollapseLeq(work[order[pos[j]]], work[order[pos[i]]]);
      Text.LeqIsTotalOrder();
    }
  }

  lemma CardAt(cards: seq<Card>, c: Card) returns (i: nat)
    requires c in cards
    ensures i < |WorkOrder(cards)| && WorkOrder(cards)[i] == c
  {
    var work := WorkOrder(cards);
    MembersOfPermutation(cards, work);
    i :| 0 <= i < |work| && work[i] == c;
  }

  /** The placement of a shown card is the one that the chain gives it. */
  lemma ShownAt(work: seq<Card>, order: seq<nat>, pos: seq<nat>, t: nat, i: nat, x: Placement)
    requires IsPlan(work, order, pos) && DistinctIds(work) && i < |work|
    requires x in Visible(work, pos, t) && x.id == work[i].id
    ensures !Gone(|work|, pos[i], t) && x == PlacementAt(work, pos, i, t)
  {
    VisibleMembers(work, pos, t, |work|, x);
  }

  ghost predicate ShownNoBetter(row: seq<Placement>, c: Card, d: Card) {
    forall x, y | x in row && y in row && x.id == c.id && y.id == d.id :: x.density.Rank() <= y.density.Rank()
  }

  /** The card that gives way first is dropped first, and while both are shown it is shown no better. */
  lemma FirstToGiveWay(available: int, gap: int, cards: seq<Card>, c: Card, d: Card)
    requires DistinctIds(cards) && c in cards && d in cards && GivesWayBefore(c, d)
    ensures d.id in FirstFit(available, gap, cards).overflow ==> c.id in FirstFit(available, gap, cards).overflow
    ensures ShownNoBetter(FirstFit(available, gap, cards).visible, c, d)
  {
    hide IsPlan, CollapseOrder, WorkOrder, VisibleUpTo, Overflowed, StopAt, Used, DistinctIds, Removable;
    var work, order, pos, s := RunOf(available, gap, cards);
    var i := CardAt(cards, c);
    var j := CardAt(cards, d);
    PlanSizes(work, order, pos);
    EarlierInPlan(work, order, pos, i, j);
    ShownIffNotOverflowed(work, order, pos, s, i);
    ShownIffNotOverflowed(work, order, pos, s, j);
    var row := Visible(work, pos, s);
    forall x, y | x in row && y in row && x.id == c.id && y.id == d.id
      ensures x.density.Rank() <= y.density.Rank()
    {
      ShownAt(work, order, pos, s, i, x);
      ShownAt(work, order, pos, s, j, y);
    }
  }

  lemma PlanSizes(work: seq<Card>, order: seq<nat>, pos: seq<nat>)
    requires IsPlan(work, order, pos)
    ensures |order| == |pos| == |work| && forall p :: 0 <= p < |order| ==> order[p] < |work|
    ensures forall i :: 0 <= i < |pos| ==> pos[i] < |pos|
  {
  }

  /** A placement shows a card as wide as its density asks. */
  predicate Fits(c: Card, x: Placement) {
    var w := NormalizeWidths(c);
    x.id == c.id &&
    x.width == match x.density case Full => w.pref case Compact => w.min + (w.pref - w.min) / 2 case Micro => w.min
  }

  lemma PlacedAsItFits(work: seq<Card>, pos: seq<nat>, t: nat, i: nat)
    requires |pos| == |work| && i < |work|
    ensures Fits(work[i], PlacementAt(work, pos, i, t))
  {
  }

  /** Every shown placement is that of a card at the width of its density, and no card is at full
      density while another is micro. */
  lemma ShownAsItFits(available: int, gap: int, cards: seq<Card>, x: Placement, y: Placement)
    requires DistinctIds(cards) && x in FirstFit(available, gap, cards).visible
    ensures exists c :: c in cards && Fits(c, x)
    ensures y in FirstFit(available, gap, cards).visible && x.density == Micro ==> y.density != Full
  {
    hide IsPlan, CollapseOrder, WorkOrder, VisibleUpTo, Overflowed, StopAt, Used, DistinctIds, Removable;
    var work, order, pos, s := RunOf(available, gap, cards);
    PlanSizes(work, order, pos);
    VisibleMembers(work, pos, s, |work|, x);
    var i :| 0 <= i < |work| && !Gone(|work|, pos[i], s) && x == PlacementAt(work, pos, i, s);
    PlacedAsItFits(work, pos, s, i);
    InWork(cards, i);
    if y in Visible(work, pos, s) {
      VisibleMembers(work, pos, s, |work|, y);
      var j :| 0 <= j < |work| && !Gone(|work|, pos[j], s) && y == PlacementAt(work, pos, j, s);
    }
  }

  lemma InWork(cards: seq<Card>, i: nat)
    requires i < |WorkOrder(cards)|
    ensures WorkOrder(cards)[i] in cards
  {
    MembersOfPermutation(cards, WorkOrder(cards));
  }

  // ----- The row and its width -----

  /** `c` is displayed before `d`: higher priority first, then smaller id. */
  predicate DisplayedBefore(c: Card, d: Card) {
    c.priority > d.priority || (c.priority == d.priority && c.id != d.id && Text.Leq(c.id, d.id))
  }

  lemma WorkIsSorted(cards: seq<Card>, i: nat, j: nat)
    requires DistinctIds(cards) && i < j < |cards|
    ensures DisplayedBefore(WorkOrder(cards)[i], WorkOrder(cards)[j])
  {
    var work := WorkOrder(cards);
    Text.LeqIsTotalOrder();
    DistinctIdsInWork(cards);
    assert TotalPreorderOn(WorkLeq, cards);
    SortIsSorted(WorkLeq, cards);
    assert WorkLeq(work[i], work[j]) && work[i].id != work[j].id;
  }

  /** Where the placements of a row come from, in order. */
  lemma {:induction false} RowSources(work: seq<Card>, pos: seq<nat>, t: nat, k: nat) returns (at: seq<nat>)
    requires |pos| == |work| && k <= |work|
    ensures |at| == |VisibleUpTo(work, pos, t, k)|
    ensures forall i :: 0 <= i < |at| ==>
              at[i] < k && VisibleUpTo(work, pos, t, k)[i] == PlacementAt(work, pos, at[i], t)
    ensures forall i, j :: 0 <= i < j < |at| ==> at[i] < at[j]
  {
    hide PlacementAt, Gone;
    at := [];
    if k > 0 {
      at := RowSources(work, pos, t, k - 1);
      if !Gone(|work|, pos[k - 1], t) { at := at + [k - 1]; }
    }
  }

  /** The row is displayed by priority, highest first, and then by id. */
  lemma RowIsByPriority(available: int, gap: int, cards: seq<Card>, i: nat, j: nat, c: Card, d: Card)
    requires DistinctIds(cards) && c in cards && d in cards
    requires i < j < |FirstFit(available, gap, cards).visible|
    requires FirstFit(available, gap, cards).visible[i].id == c.id
    requires FirstFit(available, gap, cards).visible[j].id == d.id
    ensures DisplayedBefore(c, d)
  {
    hide IsPlan, CollapseOrder, WorkOrder, VisibleUpTo, Overflowed, StopAt, Used, Removable, DisplayedBefore;
    var work, order, pos, s := RunOf(available, gap, cards);
    PlanSizes(work, order, pos);
    var a := CardAt(cards, c);
    var b := CardAt(cards, d);
    var at := RowSources(work, pos, s, |work|);
    assert work[at[i]].id == c.id && work[at[j]].id == d.id;
    assert at[i] == a && at[j] == b;
    WorkIsSorted(cards, a, b);
  }

  /** The width of a row: a card more is its width more, and a gap if it is not the first. */
  lemma UsedGrows(row: seq<Placement>, x: Placement, gap: nat)
    ensures Used([], gap) == 0
    ensures Used(row + [x], gap) == Used(row, gap) + x.width + if row == [] then 0 else gap
  {
    assert (row + [x])[..|row|] == row;
    if row != [] { assert gap * |row| == gap * (|row| - 1) + gap; }
  }

  /** The figures of a layout, also when cards share ids; negative widths and gaps count as zero. */
  lemma FiguresAreTheRows(available: int, gap: int, cards: seq<Card>)
    ensures
      var r := LayoutOf(available, gap, cards);
      && r.usedWidth == Used(r.visible, if gap < 0 then 0 else gap)
      && (r.overfull <==> r.usedWidth > if available < 0 then 0 else available)
  {
    hide Removed, Sort, WorkOrder, CollapseOrder, Used;
  }

  // ----- No step too many -----

  /** `prev` is `r` with one step less: one card one density higher, or the last dropped card back. */
  ghost predicate OneStepLess(cards: seq<Card>, prev: seq<Placement>, r: Result) {
    || (exists i, x :: 0 <= i < |r.visible| && prev == r.visible[i := x] && x.id == r.visible[i].id &&
                       x.density.Rank() == r.visible[i].density.Rank() + 1 && exists c :: c in cards && Fits(c, x))
    || (r.overflow != [] && exists j :: 0 <= j < |prev| && r.visible == prev[..j] + prev[j + 1..] &&
                              prev[j].id == r.overflow[|r.overflow| - 1] && prev[j].density == Micro)
  }

  lemma StepBackDegrades(available: int, gap: int, cards: seq<Card>, work: seq<Card>, order: seq<nat>, pos: seq<nat>,
                         s: nat, t: nat)
    requires IsRun(available, gap, cards, work, order, pos, s) && s == t + 1 <= 2 * |work|
    ensures OneStepLess(cards, Visible(work, pos, t), ResultAt(work, order, pos, Clamp(gap), Clamp(available), s))
  {
    hide CollapseOrder, WorkOrder, VisibleUpTo, Overflowed, StopAt, Used, Removable, Fits;
    DegradeStep(work, order, pos, t);
    VisibleBeforeRemoval(work, pos, t, |work|);
    VisibleBeforeRemoval(work, pos, t + 1, |work|);
    var c := order[if t < |work| then t else t - |work|];
    var prev, row := Visible(work, pos, t), Visible(work, pos, t + 1);
    assert pos[c] == if t < |work| then t else t - |work|;
    assert prev[c] == PlacementAt(work, pos, c, t) && row[c] == PlacementAt(work, pos, c, t + 1);
    assert prev == row[c := prev[c]];
    PlacedAsItFits(work, pos, t, c);
    InWork(cards, c);
  }

  lemma StepBackRestores(available: int, gap: int, cards: seq<Card>, work: seq<Card>, order: seq<nat>, pos: seq<nat>,
                         s: nat, t: nat)
    requires IsRun(available, gap, cards, work, order, pos, s) && s == t + 1 && t >= 2 * |work|
    ensures OneStepLess(cards, Visible(work, pos, t), ResultAt(work, order, pos, Clamp(gap), Clamp(available), s))
  {
    hide IsPlan, CollapseOrder, WorkOrder, VisibleUpTo, StopAt, Used, Fits, DistinctIds;
    PlanSizes(work, order, pos);
    var q := t - 2 * |work|;
    RemoveStep(work, order, pos, t, q, |work|);
    PlanAt(work, order, pos, q, order[q]);
    OverflowedNext(work, order, t, q);
  }

  /** One step less does not fit: when a card is not at full density or is dropped, there is a row with
      one card one density higher, or with the last dropped card back, that is too wide. */
  lemma OneStepLessIsTooWide(available: int, gap: int, cards: seq<Card>) returns (prev: seq<Placement>)
    requires DistinctIds(cards)
    requires FirstFit(available, gap, cards).overflow != [] ||
             exists x :: x in FirstFit(available, gap, cards).visible && x.density != Full
    ensures OneStepLess(cards, prev, FirstFit(available, gap, cards))
    ensures Used(prev, Clamp(gap)) > Clamp(available)
  {
    hide CollapseOrder, WorkOrder, VisibleUpTo, Used, OneStepLess, DistinctIds;
    var work, order, pos, s := RunOf(available, gap, cards);
    if s == 0 {
      FullAtStart(work, pos);
      assert false;
    }
    var t := s - 1;
    prev := Visible(work, pos, t);
    if t < 2 * |work| { StepBackDegrades(available, gap, cards, work, order, pos, s, t); }
    else { StepBackRestores(available, gap, cards, work, order, pos, s, t); }
  }

  lemma FullAtStart(work: seq<Card>, pos: seq<nat>)
    requires |pos| == |work|
    ensures forall x :: x in Visible(work, pos, 0) ==> x.density == Full
  {
    forall x | x in Visible(work, pos, 0) ensures x.density == Full { VisibleMembers(work, pos, 0, |work|, x); }
  }
}
