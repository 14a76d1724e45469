/** Sorted iteration: what a `BTreeSet` or the keys of a `BTreeMap` give back. */
module Orders {

  ghost predicate TotalOrder<T(!new)>(lt: (T, T) -> bool) {
    && (forall a :: !lt(a, a))
    && (forall a, b, c :: lt(a, b) && lt(b, c) ==> lt(a, c))
    && (forall a, b :: a == b || lt(a, b) || lt(b, a))
  }

  ghost predicate Increasing<T>(xs: seq<T>, lt: (T, T) -> bool) {
    forall i, j :: 0 <= i < j < |xs| ==> lt(xs[i], xs[j])
  }

  ghost predicate IsLeast<T>(x: T, s: set<T>, lt: (T, T) -> bool) {
    x in s && forall y :: y in s ==> y == x || lt(x, y)
  }

  lemma {:induction false} LeastExists<T(!new)>(s: set<T>, lt: (T, T) -> bool)
    requires TotalOrder(lt) && s != {}
    ensures exists x :: IsLeast(x, s, lt)
    decreases |s|
  {
    var a :| a in s;
    if s == {a} {
      assert IsLeast(a, s, lt);
    } else {
      LeastExists(s - {a}, lt);
      var x :| IsLeast(x, s - {a}, lt);
      var m := if lt(a, x) then a else x;
      forall y | y in s ensures y == m || lt(m, y) {
        assert y == a || y in s - {a};
      }
      assert IsLeast(m, s, lt);
    }
  }

  /** The elements of `s` in ascending order. */
  function SortedSeq<T(==, !new)>(s: set<T>, lt: (T, T) -> bool): (r: seq<T>)
    requires TotalOrder(lt)
    ensures Increasing(r, lt)
    ensures forall x :: x in r <==> x in s
    ensures |r| == |s|
    decreases |s|
  {
    if s == {} then []
    else
      LeastExists(s, lt);
      assert exists x :: x in s && forall y :: y in s ==> y == x || lt(x, y) by {
        var x :| IsLeast(x, s, lt);
      }
      var x :| x in s && forall y :: y in s ==> y == x || lt(x, y);
      [x] + SortedSeq(s - {x}, lt)
  }

  lemma SmallerSet<T>(a: set<T>, b: set<T>)
    requires a <= b
    ensures |a| <= |b|
  {
    assert b == a + (b - a);
  }
}
