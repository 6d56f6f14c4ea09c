/**
 * Stable sorting by a comparator, the behaviour ECMAScript requires of
 * `Array.prototype.sort` since ES2019. The model
 * is insertion sort; its result is determined by being a sorted, stable
 * permutation, so any stable algorithm gives the same answer.
 */
module Sorting {

  /** `lt` is a strict weak order: asymmetric, and "not before" is
      transitive. Comparators that compare one key with `<` are of this kind. */
  ghost predicate StrictWeakOrder<T(!new)>(lt: (T, T) -> bool) {
    && (forall a, b :: lt(a, b) ==> !lt(b, a))
    && (forall a, b, c {:trigger lt(a, b), lt(b, c), lt(a, c)} :: !lt(a, b) && !lt(b, c) ==> !lt(a, c))
  }

  /** No element comes before an earlier one. */
  ghost predicate SortedBy<T>(xs: seq<T>, lt: (T, T) -> bool) {
    forall i, j :: 0 <= i < j < |xs| ==> !lt(xs[j], xs[i])
  }

  /** Neither comes before the other: a tie for the comparator. */
  predicate Tied<T>(x: T, v: T, lt: (T, T) -> bool) {
    !lt(x, v) && !lt(v, x)
  }

  /** The elements of `xs` tied with `v`, in their order in `xs`. */
  function TiedWith<T>(xs: seq<T>, v: T, lt: (T, T) -> bool): seq<T> {
    if |xs| == 0 then []
    else (if Tied(xs[0], v, lt) then [xs[0]] else []) + TiedWith(xs[1..], v, lt)
  }

  /** Puts `x` in front of the first element that does not come before it. */
  function Insert<T>(x: T, ys: seq<T>, lt: (T, T) -> bool): (r: seq<T>)
    ensures multiset(r) == multiset(ys) + multiset{x}
  {
    if |ys| == 0 then [x]
    else if lt(ys[0], x) then
      assert ys == [ys[0]] + ys[1..];
      [ys[0]] + Insert(x, ys[1..], lt)
    else [x] + ys
  }

  /** Stable sort: the result is a permutation of `xs`. */
  function SortBy<T>(xs: seq<T>, lt: (T, T) -> bool): (r: seq<T>)
    ensures multiset(r) == multiset(xs)
    ensures |r| == |xs|
  {
    if |xs| == 0 then []
    else
      assert xs == [xs[0]] + xs[1..];
      Insert(xs[0], SortBy(xs[1..], lt), lt)
  }

  lemma {:induction false} InsertSorted<T(!new)>(x: T, ys: seq<T>, lt: (T, T) -> bool)
    requires StrictWeakOrder(lt)
    requires SortedBy(ys, lt)
    ensures SortedBy(Insert(x, ys, lt), lt)
  {
    if |ys| > 0 {
      var r := Insert(x, ys, lt);
      if lt(ys[0], x) {
        InsertSorted(x, ys[1..], lt);
        var t := Insert(x, ys[1..], lt);
        assert r == [ys[0]] + t;
        forall j | 0 < j < |r|
          ensures !lt(r[j], ys[0])
        {
          assert r[j] in multiset(t);
          assert r[j] == x || r[j] in multiset(ys[1..]);
          if r[j] != x {
            var k :| 0 <= k < |ys[1..]| && ys[1..][k] == r[j];
            assert ys[k + 1] == r[j];
          }
        }
      } else {
        assert r == [x] + ys;
        forall j | 0 < j < |r|
          ensures !lt(r[j], x)
        {
          assert r[j] == ys[j - 1];
          assert !lt(ys[j - 1], ys[0]);
        }
      }
    }
  }

  /** The result of `SortBy` is sorted when the comparator is a strict weak order. */
  lemma {:induction false} SortBySorted<T(!new)>(xs: seq<T>, lt: (T, T) -> bool)
    requires StrictWeakOrder(lt)
    ensures SortedBy(SortBy(xs, lt), lt)
  {
    if |xs| > 0 {
      SortBySorted(xs[1..], lt);
      InsertSorted(xs[0], SortBy(xs[1..], lt), lt);
    }
  }

  lemma TiedWithCons<T>(a: T, t: seq<T>, v: T, lt: (T, T) -> bool)
    ensures TiedWith([a] + t, v, lt) == (if Tied(a, v, lt) then [a] else []) + TiedWith(t, v, lt)
  {
    assert ([a] + t)[1..] == t;
  }

  /** Two elements tied with the same value are not strictly ordered. */
  lemma TiedExcludesBefore<T(!new)>(y: T, x: T, v: T, lt: (T, T) -> bool)
    requires StrictWeakOrder(lt)
    requires lt(y, x)
    ensures !(Tied(y, v, lt) && Tied(x, v, lt))
  {
  }

  /** Moving `x` past an element `y` that comes strictly before it does not
      change the order of the elements tied with any value: `x` and `y`
      cannot both be tied with it. */
  lemma SwapPastTied<T(!new)>(x: T, y: T, t: seq<T>, rest: seq<T>, v: T, lt: (T, T) -> bool)
    requires StrictWeakOrder(lt)
    requires lt(y, x)
    requires TiedWith(t, v, lt) == (if Tied(x, v, lt) then [x] else []) + TiedWith(rest, v, lt)
    ensures TiedWith([y] + t, v, lt) == (if Tied(x, v, lt) then [x] else []) + TiedWith([y] + rest, v, lt)
  {
    TiedWithCons(y, t, v, lt);
    TiedWithCons(y, rest, v, lt);
    TiedExcludesBefore(y, x, v, lt);
    if Tied(x, v, lt) {
      assert !Tied(y, v, lt);
    } else {
      var my: seq<T> := if Tied(y, v, lt) then [y] else [];
      assert [] + TiedWith(rest, v, lt) == TiedWith(rest, v, lt);
      assert [] + (my + TiedWith(rest, v, lt)) == my + TiedWith(rest, v, lt);
    }
  }

  lemma {:induction false} InsertTiedWith<T(!new)>(x: T, ys: seq<T>, v: T, lt: (T, T) -> bool)
    requires StrictWeakOrder(lt)
    ensures TiedWith(Insert(x, ys, lt), v, lt)
            == (if Tied(x, v, lt) then [x] else []) + TiedWith(ys, v, lt)
  {
    if |ys| == 0 {
      TiedWithCons(x, [], v, lt);
    } else if lt(ys[0], x) {
      var t := Insert(x, ys[1..], lt);
      assert Insert(x, ys, lt) == [ys[0]] + t;
      InsertTiedWith(x, ys[1..], v, lt);
      SwapPastTied(x, ys[0], t, ys[1..], v, lt);
      assert [ys[0]] + ys[1..] == ys;
    } else {
      TiedWithCons(x, ys, v, lt);
    }
  }

  /** Stability: for every value, the elements tied with it keep their
      original relative order. */
  lemma {:induction false} SortByStable<T(!new)>(xs: seq<T>, v: T, lt: (T, T) -> bool)
    requires StrictWeakOrder(lt)
    ensures TiedWith(SortBy(xs, lt), v, lt) == TiedWith(xs, v, lt)
  {
    if |xs| > 0 {
      SortByStable(xs[1..], v, lt);
      InsertTiedWith(xs[0], SortBy(xs[1..], lt), v, lt);
    }
  }

  ghost predicate Distinct<T>(xs: seq<T>) {
    forall i, j :: 0 <= i < j < |xs| ==> xs[i] != xs[j]
  }

  lemma {:induction false} DistinctCounts<T>(xs: seq<T>)
    requires Distinct(xs)
    ensures forall x :: multiset(xs)[x] <= 1
  {
    if |xs| > 0 {
      DistinctCounts(xs[1..]);
      assert xs == [xs[0]] + xs[1..];
      assert xs[0] !in xs[1..];
    }
  }

  lemma CountsDistinct<T>(xs: seq<T>)
    requires forall x :: multiset(xs)[x] <= 1
    ensures Distinct(xs)
  {
    forall i, j | 0 <= i < j < |xs|
      ensures xs[i] != xs[j]
    {
      assert xs == xs[..i] + [xs[i]] + xs[i + 1..j] + [xs[j]] + xs[j + 1..];
      assert multiset(xs)[xs[i]] >= multiset([xs[i]] + xs[i + 1..j] + [xs[j]])[xs[i]];
    }
  }

  /** A permutation of a sequence without repetitions has none either. */
  lemma PermutationKeepsDistinct<T>(xs: seq<T>, ys: seq<T>)
    requires Distinct(xs) && multiset(ys) == multiset(xs)
    ensures Distinct(ys)
  {
    DistinctCounts(xs);
    CountsDistinct(ys);
  }
}
