/**
 Sums of real values over finite sets and sequences, and counting facts about
 finite sets. Every weight, rate and cost of the model is such a sum.
 */
module FiniteSums {

  /** The sum of `f` over `s`, each element once. */
  ghost function SumOver<T(!new)>(s: set<T>, f: T -> real): real {
    if s == {} then 0.0
    else
      var x :| x in s;
      f(x) + SumOver(s - {x}, f)
  }

  /** Any element can be taken out first: the sum does not depend on an order. */
  lemma {:induction false} SumSplit<T(!new)>(s: set<T>, x: T, f: T -> real)
    requires x in s
    ensures SumOver(s, f) == f(x) + SumOver(s - {x}, f)
    decreases |s|
  {
    var y :| y in s && SumOver(s, f) == f(y) + SumOver(s - {y}, f);
    if y != x {
      SumSplit(s - {y}, x, f);
      SumSplit(s - {x}, y, f);
      assert s - {y} - {x} == s - {x} - {y};
    }
  }

  lemma {:induction false} SumDisjointUnion<T(!new)>(a: set<T>, b: set<T>, f: T -> real)
    requires a !! b
    ensures SumOver(a + b, f) == SumOver(a, f) + SumOver(b, f)
    decreases |a|
  {
    if a == {} {
      assert a + b == b;
    } else {
      var x :| x in a;
      SumSplit(a, x, f);
      SumSplit(a + b, x, f);
      assert a + b - {x} == (a - {x}) + b;
      SumDisjointUnion(a - {x}, b, f);
    }
  }

  lemma {:induction false} SumMonotone<T(!new)>(s: set<T>, f: T -> real, g: T -> real)
    requires forall x :: x in s ==> f(x) <= g(x)
    ensures SumOver(s, f) <= SumOver(s, g)
    decreases |s|
  {
    if s != {} {
      var x :| x in s;
      SumSplit(s, x, f);
      SumSplit(s, x, g);
      SumMonotone(s - {x}, f, g);
    }
  }

  lemma SumCongruence<T(!new)>(s: set<T>, f: T -> real, g: T -> real)
    requires forall x :: x in s ==> f(x) == g(x)
    ensures SumOver(s, f) == SumOver(s, g)
  {
    SumMonotone(s, f, g);
    SumMonotone(s, g, f);
  }

  lemma {:induction false} SumNonNegative<T(!new)>(s: set<T>, f: T -> real)
    requires forall x :: x in s ==> 0.0 <= f(x)
    ensures 0.0 <= SumOver(s, f)
    decreases |s|
  {
    if s != {} {
      var x :| x in s;
      SumSplit(s, x, f);
      SumNonNegative(s - {x}, f);
    }
  }

  lemma SumSubset<T(!new)>(a: set<T>, b: set<T>, f: T -> real)
    requires a <= b
    requires forall x :: x in b ==> 0.0 <= f(x)
    ensures SumOver(a, f) <= SumOver(b, f)
  {
    assert b == a + (b - a);
    SumDisjointUnion(a, b - a, f);
    SumNonNegative(b - a, f);
  }

  /** The sum of a sequence of reals. */
  function SumSeq(s: seq<real>): real {
    if s == [] then 0.0 else SumSeq(s[..|s| - 1]) + s[|s| - 1]
  }

  /** The number of elements of a union, whichever way the sets overlap. */
  lemma {:induction false} UnionSize<T>(a: set<T>, b: set<T>)
    ensures |a + b| + |a * b| == |a| + |b|
  {
  }

  lemma {:induction false} SubsetSize<T>(a: set<T>, b: set<T>)
    requires a <= b
    ensures |a| <= |b|
    ensures |a| == |b| <==> a == b
  {
    assert b == a + (b - a);
    assert |b| == |a| + |b - a|;
  }
}
