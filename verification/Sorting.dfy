/** What the model needs of slices.SortFunc, sort.SliceStable and Array.sort: the result is a
    sorted permutation, and when no two different elements tie there is only one of those, so
    nothing proved with `Sort` depends on which sorting algorithm the library uses. */
module Sorting {

  ghost predicate TotalPreorderOn<T(!new)>(leq: (T, T) -> bool, s: seq<T>) {
    && (forall x, y :: x in s && y in s ==> leq(x, y) || leq(y, x))
    && (forall x, y, z :: x in s && y in s && z in s && leq(x, y) && leq(y, z) ==> leq(x, z))
  }

  /** No two different elements of `s` tie. */
  ghost predicate TieFreeOn<T(!new)>(leq: (T, T) -> bool, s: seq<T>) {
    forall x, y :: x in s && y in s && leq(x, y) && leq(y, x) ==> x == y
  }

  ghost predicate Sorted<T(!new)>(leq: (T, T) -> bool, s: seq<T>) {
    forall i, j :: 0 <= i < j < |s| ==> leq(s[i], s[j])
  }

  ghost predicate NoDup<T(!new)>(s: seq<T>) {
    forall i, j :: 0 <= i < j < |s| ==> s[i] != s[j]
  }

  function Insert<T>(leq: (T, T) -> bool, x: T, s: seq<T>): (r: seq<T>)
    ensures multiset(r) == multiset(s) + multiset{x}
    ensures |r| == |s| + 1
  {
    if s == [] || leq(x, s[0]) then [x] + s
    else
      assert s == [s[0]] + s[1..];
      [s[0]] + Insert(leq, x, s[1..])
  }

  function Sort<T>(leq: (T, T) -> bool, s: seq<T>): (r: seq<T>)
    ensures multiset(r) == multiset(s)
    ensures |r| == |s|
  {
    if s == [] then []
    else
      assert s == [s[0]] + s[1..];
      Insert(leq, s[0], Sort(leq, s[1..]))
  }

  lemma MembersOfPermutation<T>(a: seq<T>, b: seq<T>)
    requires multiset(a) == multiset(b)
    ensures |a| == |b|
    ensures forall x :: x in a <==> x in b
  {
    assert |multiset(a)| == |multiset(b)|;
    forall x ensures x in a <==> x in b {
      assert x in a <==> x in multiset(a);
      assert x in b <==> x in multiset(b);
    }
  }

  lemma {:induction false} InsertSorted<T(!new)>(leq: (T, T) -> bool, x: T, s: seq<T>)
    requires TotalPreorderOn(leq, [x] + s) && Sorted(leq, s)
    ensures Sorted(leq, Insert(leq, x, s))
  {
    if s != [] {
      assert forall y :: y == x || y in s ==> y in [x] + s;
      if leq(x, s[0]) {
        HeadIsLeast(leq, x, s);
      } else {
        var t := s[1..];
        assert forall y :: y in [x] + t ==> y in [x] + s;
        InsertSorted(leq, x, t);
        InsertKeepsHead(leq, s[0], x, t);
      }
    }
  }

  lemma HeadIsLeast<T(!new)>(leq: (T, T) -> bool, x: T, s: seq<T>)
    requires TotalPreorderOn(leq, [x] + s) && Sorted(leq, s) && s != [] && leq(x, s[0])
    ensures Sorted(leq, [x] + s)
  {
    forall j | 0 <= j < |s| ensures leq(x, s[j]) {
      assert x in [x] + s && s[0] in [x] + s && s[j] in [x] + s;
      if 0 < j { assert leq(s[0], s[j]); }
    }
  }

  lemma InsertKeepsHead<T(!new)>(leq: (T, T) -> bool, h: T, x: T, t: seq<T>)
    requires Sorted(leq, [h] + t) && leq(h, x)
    ensures forall j :: 0 <= j < |Insert(leq, x, t)| ==> leq(h, Insert(leq, x, t)[j])
  {
    var r := Insert(leq, x, t);
    hide Insert;
    forall j | 0 <= j < |r| ensures leq(h, r[j]) {
      assert r[j] in multiset(r);
      if r[j] != x {
        assert r[j] in multiset(t);
        var k :| 0 <= k < |t| && t[k] == r[j];
        assert ([h] + t)[0] == h && ([h] + t)[k + 1] == t[k];
      }
    }
  }

  lemma {:induction false} SortIsSorted<T(!new)>(leq: (T, T) -> bool, s: seq<T>)
    requires TotalPreorderOn(leq, s)
    ensures Sorted(leq, Sort(leq, s))
  {
    if s != [] {
      SortIsSorted(leq, s[1..]);
      var r := Sort(leq, s[1..]);
      MembersOfPermutation(r, s[1..]);
      assert forall y :: y in [s[0]] + r ==> y in s;
      InsertSorted(leq, s[0], r);
    }
  }

  lemma SortedHeadsAgree<T(!new)>(leq: (T, T) -> bool, a: seq<T>, b: seq<T>)
    requires a != [] && multiset(a) == multiset(b)
    requires Sorted(leq, a) && Sorted(leq, b) && TotalPreorderOn(leq, a) && TieFreeOn(leq, a)
    ensures b != [] && a[0] == b[0]
  {
    MembersOfPermutation(a, b);
    assert a[0] in b && b[0] in a;
    var i :| 0 <= i < |b| && b[i] == a[0];
    var j :| 0 <= j < |a| && a[j] == b[0];
    assert i == 0 || leq(b[0], b[i]);
    assert j == 0 || leq(a[0], a[j]);
  }

  lemma TailMultiset<T>(s: seq<T>)
    requires s != []
    ensures multiset(s[1..]) == multiset(s) - multiset{s[0]}
  {
    assert s == [s[0]] + s[1..];
  }

  lemma TailOrdered<T(!new)>(leq: (T, T) -> bool, s: seq<T>)
    requires s != [] && Sorted(leq, s) && TotalPreorderOn(leq, s) && TieFreeOn(leq, s)
    ensures Sorted(leq, s[1..]) && TotalPreorderOn(leq, s[1..]) && TieFreeOn(leq, s[1..])
  {
    assert forall x :: x in s[1..] ==> x in s;
  }

  /** Two sorted permutations of a tie-free sequence are the same sequence. */
  lemma {:induction false} SortedUnique<T(!new)>(leq: (T, T) -> bool, a: seq<T>, b: seq<T>)
    requires multiset(a) == multiset(b)
    requires Sorted(leq, a) && Sorted(leq, b) && TotalPreorderOn(leq, a) && TieFreeOn(leq, a)
    ensures a == b
  {
    if a == [] {
      MembersOfPermutation(a, b);
    } else {
      SortedHeadsAgree(leq, a, b);
      var x, s, t := a[0], a[1..], b[1..];
      assert s == t by {
        TailMultiset(a);
        TailMultiset(b);
        TailOrdered(leq, a);
        assert Sorted(leq, t);
        SortedUnique(leq, s, t);
      }
      assert a == [x] + s;
      assert b == [x] + t;
    }
  }

  /** Sorting is canonical: it sends all permutations of a tie-free sequence to the same result. */
  lemma SortCanonical<T(!new)>(leq: (T, T) -> bool, a: seq<T>, b: seq<T>)
    requires multiset(a) == multiset(b) && TotalPreorderOn(leq, a) && TieFreeOn(leq, a)
    ensures Sort(leq, a) == Sort(leq, b)
  {
    MembersOfPermutation(a, b);
    SortIsSorted(leq, a);
    SortIsSorted(leq, b);
    MembersOfPermutation(a, Sort(leq, a));
    SortedUnique(leq, Sort(leq, a), Sort(leq, b));
  }

  /** All permutations of `s` sort to the same sequence. */
  ghost predicate SortsAlike<T(!new)>(leq: (T, T) -> bool, s: seq<T>) {
    forall a, b :: multiset(a) == multiset(s) && multiset(b) == multiset(s) ==> Sort(leq, a) == Sort(leq, b)
  }

  lemma {:induction false} TiedInsertsDiffer<T>(leq: (T, T) -> bool, x: T, y: T, s: seq<T>)
    requires leq(x, y) && leq(y, x) && x != y
    ensures Insert(leq, x, Insert(leq, y, s)) != Insert(leq, y, Insert(leq, x, s))
  {
    var xy, yx := Insert(leq, x, Insert(leq, y, s)), Insert(leq, y, Insert(leq, x, s));
    if s == [] || leq(x, s[0]) || leq(y, s[0]) {
      assert xy[0] != yx[0];
    } else {
      TiedInsertsDiffer(leq, x, y, s[1..]);
      assert xy[1..] == Insert(leq, x, Insert(leq, y, s[1..]));
      assert yx[1..] == Insert(leq, y, Insert(leq, x, s[1..]));
    }
  }

  lemma WithoutOne<T>(s: seq<T>, x: T) returns (rest: seq<T>)
    requires x in s
    ensures multiset(rest) + multiset{x} == multiset(s)
  {
    var i :| 0 <= i < |s| && s[i] == x;
    rest := s[..i] + s[i + 1..];
    assert s == s[..i] + [x] + s[i + 1..];
  }

  lemma SortPair<T>(leq: (T, T) -> bool, x: T, y: T, rest: seq<T>)
    ensures Sort(leq, [x] + ([y] + rest)) == Insert(leq, x, Insert(leq, y, Sort(leq, rest)))
    ensures multiset([x] + ([y] + rest)) == multiset(rest) + multiset{y} + multiset{x}
  {
    assert ([x] + ([y] + rest))[1..] == [y] + rest && ([y] + rest)[1..] == rest;
    hide Insert;
  }

  lemma WithoutTwo<T>(s: seq<T>, x: T, y: T) returns (rest: seq<T>)
    requires x in s && y in s && x != y
    ensures multiset(rest) + multiset{y} + multiset{x} == multiset(s)
    ensures multiset(rest) + multiset{x} + multiset{y} == multiset(s)
  {
    var r := WithoutOne(s, x);
    assert y in multiset(s) && y in multiset(r);
    rest := WithoutOne(r, y);
  }

  /** Two different tied elements keep the order in which they come. */
  lemma TiesBreakSorting<T(!new)>(leq: (T, T) -> bool, s: seq<T>, x: T, y: T)
    requires x in s && y in s && x != y && leq(x, y) && leq(y, x)
    ensures !SortsAlike(leq, s)
  {
    hide Insert, Sort;
    var rest := WithoutTwo(s, x, y);
    SortPair(leq, x, y, rest);
    SortPair(leq, y, x, rest);
    TiedInsertsDiffer(leq, x, y, Sort(leq, rest));
  }

  /** Sorting leaves a sorted tie-free sequence alone. */
  lemma SortFixesSorted<T(!new)>(leq: (T, T) -> bool, s: seq<T>)
    requires TotalPreorderOn(leq, s) && TieFreeOn(leq, s) && Sorted(leq, s)
    ensures Sort(leq, s) == s
  {
    SortIsSorted(leq, s);
    SortedUnique(leq, s, Sort(leq, s));
  }

  lemma {:induction false} NoDupMultiset<T(!new)>(s: seq<T>)
    requires NoDup(s)
    ensures forall x :: x in s ==> multiset(s)[x] == 1
  {
    if s != [] {
      NoDupMultiset(s[1..]);
      assert s == [s[0]] + s[1..];
      assert NoDup(s[1..]);
      assert s[0] !in s[1..];
    }
  }

  /** Duplicate-free sequences with the same members are permutations of each other. */
  lemma SameMembersSameMultiset<T(!new)>(a: seq<T>, b: seq<T>)
    requires NoDup(a) && NoDup(b) && (forall x :: x in a <==> x in b)
    ensures multiset(a) == multiset(b)
  {
    NoDupMultiset(a);
    NoDupMultiset(b);
    forall x ensures multiset(a)[x] == multiset(b)[x] {
      if x in a { } else { assert x !in multiset(a) && x !in multiset(b); }
    }
  }

  lemma NoDupPermutation<T(!new)>(a: seq<T>, b: seq<T>)
    requires NoDup(a) && multiset(a) == multiset(b)
    ensures NoDup(b)
  {
    NoDupMultiset(a);
    MembersOfPermutation(a, b);
    forall i, j | 0 <= i < j < |b| ensures b[i] != b[j] {
      assert b == b[..j] + b[j..];
      assert multiset(b) == multiset(b[..j]) + multiset(b[j..]);
      assert b[..j][i] == b[i] && b[j..][0] == b[j];
      assert b[i] in a && multiset(b)[b[i]] == 1;
    }
  }

  function Filter<T(!new)>(keep: T -> bool, s: seq<T>): (r: seq<T>)
    ensures forall x :: x in r <==> x in s && keep(x)
  {
    if s == [] then [] else (if keep(s[0]) then [s[0]] else []) + Filter(keep, s[1..])
  }

  lemma {:induction false} FilterAppend<T(!new)>(keep: T -> bool, a: seq<T>, b: seq<T>)
    ensures Filter(keep, a + b) == Filter(keep, a) + Filter(keep, b)
  {
    if a == [] {
      assert a + b == b;
    } else {
      assert (a + b)[1..] == a[1..] + b;
      FilterAppend(keep, a[1..], b);
    }
  }

  lemma FilterNothing<T(!new)>(keep: T -> bool)
    ensures Filter(keep, []) == []
  {
  }

  lemma FilterNext<T(!new)>(keep: T -> bool, s: seq<T>, i: nat)
    requires i < |s|
    ensures Filter(keep, s[..i + 1]) == Filter(keep, s[..i]) + if keep(s[i]) then [s[i]] else []
  {
    assert s[..i + 1] == s[..i] + [s[i]];
    FilterAppend(keep, s[..i], [s[i]]);
    assert Filter(keep, [s[i]]) == if keep(s[i]) then [s[i]] else [];
  }

  lemma {:induction false} FilterMultiset<T(!new)>(keep: T -> bool, s: seq<T>, x: T)
    ensures multiset(Filter(keep, s))[x] == if keep(x) then multiset(s)[x] else 0
  {
    if s != [] {
      assert s == [s[0]] + s[1..];
      FilterMultiset(keep, s[1..], x);
    }
  }

  lemma FilterPermutation<T(!new)>(keep: T -> bool, a: seq<T>, b: seq<T>)
    requires multiset(a) == multiset(b)
    ensures multiset(Filter(keep, a)) == multiset(Filter(keep, b))
  {
    forall x ensures multiset(Filter(keep, a))[x] == multiset(Filter(keep, b))[x] {
      FilterMultiset(keep, a, x);
      FilterMultiset(keep, b, x);
    }
  }

  lemma {:induction false} FilterSorted<T(!new)>(leq: (T, T) -> bool, keep: T -> bool, s: seq<T>)
    requires Sorted(leq, s)
    ensures Sorted(leq, Filter(keep, s))
  {
    if s != [] {
      FilterSorted(leq, keep, s[1..]);
      var r := Filter(keep, s[1..]);
      forall j | 0 <= j < |r| ensures leq(s[0], r[j]) {
        assert r[j] in s[1..];
        var k :| 0 <= k < |s[1..]| && s[1..][k] == r[j];
        assert s[k + 1] == r[j];
      }
    }
  }

  // ----- Mapped lists -----

  function Map<A, B>(f: A -> B, s: seq<A>): (r: seq<B>)
    ensures |r| == |s| && forall i :: 0 <= i < |s| ==> r[i] == f(s[i])
  {
    if s == [] then [] else [f(s[0])] + Map(f, s[1..])
  }

  lemma MapIs<A, B>(f: A -> B, s: seq<A>, r: seq<B>)
    requires |r| == |s| && forall i :: 0 <= i < |s| ==> r[i] == f(s[i])
    ensures r == Map(f, s)
  {
    hide Map;
  }

  lemma RestMultiset<T>(s: seq<T>, i: nat)
    requires i < |s|
    ensures multiset(s[..i] + s[i + 1..]) == multiset(s) - multiset{s[i]}
    ensures multiset(s) == multiset(s[..i] + s[i + 1..]) + multiset{s[i]}
  {
    assert s == s[..i] + [s[i]] + s[i + 1..];
  }

  lemma MapWithout<A, B>(f: A -> B, s: seq<A>, i: nat)
    requires i < |s|
    ensures multiset(Map(f, s)) == multiset(Map(f, s[..i] + s[i + 1..])) + multiset{f(s[i])}
  {
    hide Map;
    var m := Map(f, s);
    assert Map(f, s[..i] + s[i + 1..]) == m[..i] + m[i + 1..];
    RestMultiset(m, i);
  }

  lemma SameRest<T>(s: seq<T>, t: seq<T>) returns (i: nat)
    requires multiset(s) == multiset(t) && s != []
    ensures i < |t| && t[i] == s[0] && multiset(s[..0] + s[1..]) == multiset(t[..i] + t[i + 1..])
  {
    assert s[0] in multiset(t);
    i :| 0 <= i < |t| && t[i] == s[0];
    RestMultiset(s, 0);
    RestMultiset(t, i);
  }

  lemma NothingElse<T>(t: seq<T>)
    requires multiset(t) == multiset([])
    ensures t == []
  {
    assert |multiset(t)| == 0;
  }

  lemma {:induction false} MapPermutation<A(!new), B(!new)>(f: A -> B, s: seq<A>, t: seq<A>)
    requires multiset(s) == multiset(t)
    ensures multiset(Map(f, s)) == multiset(Map(f, t))
    decreases |s|
  {
    hide *;
    if s == [] {
      NothingElse(t);
    } else {
      var i := SameRest(s, t);
      MapPermutation(f, s[..0] + s[1..], t[..i] + t[i + 1..]);
      MapWithout(f, s, 0);
      MapWithout(f, t, i);
    }
  }
}
