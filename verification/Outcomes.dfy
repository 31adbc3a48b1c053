/**
 A finite space of weighted outcomes: what a failure probability bounds is the
 weight of the outcomes in which an estimate misses its error bound.
 */
module Outcomes {
  import opened FiniteSums
  import opened Guarantees
  import opened Results

  datatype Space = Space(outcomes: set<nat>, weight: nat -> real)

  ghost predicate IsSpace(space: Space) {
    && (forall w :: w in space.outcomes ==> space.weight(w) >= 0.0)
    && SumOver(space.outcomes, space.weight) == 1.0
  }

  ghost function Weight(space: Space, event: set<nat>): real {
    SumOver(event * space.outcomes, space.weight)
  }

  /** What a failure expression claims: zero when it never fails by structure, else its value. */
  function FailureBound(p: ProbabilityExpr): Option<real> {
    if NeverFails(p) then Some(0.0) else Probability(p)
  }

  /** The event is no likelier than the claim, when there is one. */
  ghost predicate Within(space: Space, event: set<nat>, p: ProbabilityExpr) {
    FailureBound(p).Some? ==> Weight(space, event) <= FailureBound(p).value
  }

  lemma WeightBounds(space: Space, event: set<nat>)
    requires IsSpace(space)
    ensures 0.0 <= Weight(space, event) <= 1.0
  {
    SumNonNegative(event * space.outcomes, space.weight);
    SumSubset(event * space.outcomes, space.outcomes, space.weight);
  }

  lemma WeightMonotone(space: Space, small: set<nat>, large: set<nat>)
    requires IsSpace(space) && small * space.outcomes <= large
    ensures Weight(space, small) <= Weight(space, large)
  {
    assert small * space.outcomes <= large * space.outcomes;
    SumSubset(small * space.outcomes, large * space.outcomes, space.weight);
  }

  /** The union bound of two events. */
  lemma WeightOfUnion(space: Space, a: set<nat>, b: set<nat>)
    requires IsSpace(space)
    ensures Weight(space, a + b) <= Weight(space, a) + Weight(space, b)
  {
    var left, right := a * space.outcomes, (b - a) * space.outcomes;
    assert (a + b) * space.outcomes == left + right;
    SumDisjointUnion(left, right, space.weight);
    SumSubset(right, b * space.outcomes, space.weight);
  }

  lemma WithinSmaller(space: Space, small: set<nat>, large: set<nat>, p: ProbabilityExpr)
    requires IsSpace(space) && small * space.outcomes <= large && Within(space, large, p)
    ensures Within(space, small, p)
  {
    WeightMonotone(space, small, large);
  }

  /** An event of no weight changes nothing. */
  lemma NullAdded(space: Space, event: set<nat>, empty: set<nat>, p: ProbabilityExpr)
    requires IsSpace(space) && Within(space, event, p) && Weight(space, empty) <= 0.0
    ensures Within(space, event + empty, p)
  {
    WeightOfUnion(space, event, empty);
  }

  ghost function UnionOfAll(events: seq<set<nat>>): set<nat> {
    if events == [] then {} else events[0] + UnionOfAll(events[1..])
  }

  lemma {:induction false} InUnionOfAll(events: seq<set<nat>>, i: nat)
    requires i < |events|
    ensures events[i] <= UnionOfAll(events)
  {
    if i > 0 {
      InUnionOfAll(events[1..], i - 1);
      assert events[1..][i - 1] == events[i];
    }
  }

  lemma {:induction false} UnionOfNull(space: Space, events: seq<set<nat>>)
    requires IsSpace(space)
    requires forall i :: 0 <= i < |events| ==> Weight(space, events[i]) <= 0.0
    ensures Weight(space, UnionOfAll(events)) <= 0.0
  {
    if events == [] {
      assert UnionOfAll(events) * space.outcomes == {};
    } else {
      UnionOfNull(space, events[1..]);
      WeightOfUnion(space, events[0], UnionOfAll(events[1..]));
    }
  }

  /** Each event within its own claim. */
  ghost predicate EachWithin(space: Space, events: seq<set<nat>>, ps: seq<ProbabilityExpr>) {
    && |events| == |ps|
    && forall i :: 0 <= i < |events| ==> Within(space, events[i], ps[i])
  }

  lemma {:induction false} UnionWeight(space: Space, events: seq<set<nat>>, ps: seq<ProbabilityExpr>)
    requires IsSpace(space) && EachWithin(space, events, ps) && ProbabilitySum(ps).Some?
    ensures Weight(space, UnionOfAll(events)) <= ProbabilitySum(ps).value
  {
    hide Probability;
    if events == [] {
      assert UnionOfAll(events) * space.outcomes == {};
    } else {
      assert EachWithin(space, events[1..], ps[1..]);
      UnionWeight(space, events[1..], ps[1..]);
      KnownFailure(ps[0]);
      assert Within(space, events[0], ps[0]);
      WeightOfUnion(space, events[0], UnionOfAll(events[1..]));
    }
  }

  lemma {:induction false} NullUnion(space: Space, events: seq<set<nat>>, ps: seq<ProbabilityExpr>)
    requires IsSpace(space) && EachWithin(space, events, ps) && NoneFails(ps)
    ensures Weight(space, UnionOfAll(events)) <= 0.0
  {
    forall i | 0 <= i < |events| ensures Weight(space, events[i]) <= 0.0 {
      NeverFailingTerm(ps, i);
      assert Within(space, events[i], ps[i]);
    }
    UnionOfNull(space, events);
  }

  lemma KnownFailure(p: ProbabilityExpr)
    requires Probability(p).Some?
    ensures FailureBound(p) == Probability(p)
  {
    hide Probability, NeverFails;
    NeverFailsIsZero(p);
  }

  /** The union bound as the failure expressions state it. */
  lemma UnionWithin(space: Space, events: seq<set<nat>>, ps: seq<ProbabilityExpr>)
    requires IsSpace(space) && EachWithin(space, events, ps)
    ensures Within(space, UnionOfAll(events), UnionBound(ps))
  {
    hide EachWithin, Weight, IsSpace, UnionOfAll, ProbabilitySum, NoneFails;
    WeightBounds(space, UnionOfAll(events));
    if NoneFails(ps) {
      NullUnion(space, events, ps);
    } else if ProbabilitySum(ps).Some? {
      UnionWeight(space, events, ps);
    }
  }

  lemma PairWithin(space: Space, a: set<nat>, b: set<nat>, p: ProbabilityExpr, q: ProbabilityExpr)
    requires IsSpace(space) && Within(space, a, p) && Within(space, b, q)
    ensures Within(space, a + b, UnionBound([p, q]))
  {
    var events := [a, b];
    assert events[1..] == [b] && [b][1..] == [];
    assert UnionOfAll([]) == {} && UnionOfAll([b]) == b;
    assert UnionOfAll(events) == a + b;
    hide UnionOfAll, Within, IsSpace;
    assert EachWithin(space, events, [p, q]);
    UnionWithin(space, events, [p, q]);
  }

  /** Once per row: at most `count` events, each within the claim, against the claim scaled by `count`. */
  lemma RowsWithin(space: Space, events: seq<set<nat>>, p: ProbabilityExpr, count: BoundExpr)
    requires IsSpace(space)
    requires Evaluate(count).Some? ==> |events| as real <= Evaluate(count).value
    requires Evaluate(count).None? ==> !IsZero(count)
    requires forall i :: 0 <= i < |events| ==> Within(space, events[i], p)
    ensures Within(space, UnionOfAll(events), ScaledProbability(count, p))
  {
    hide Weight, IsSpace, UnionOfAll, Evaluate, IsZero, Probability, NeverFails;
    WeightBounds(space, UnionOfAll(events));
    ScaledFailure(count, p);
    if Evaluate(count).Some? { ZeroIsZero(count); }
    if NeverFails(p) || (Evaluate(count).Some? && Evaluate(count).value < 1.0) {
      forall i | 0 <= i < |events| ensures Weight(space, events[i]) <= 0.0 {
        assert Within(space, events[i], p);
      }
      UnionOfNull(space, events);
      NonNegativeFailure(ScaledProbability(count, p));
    } else if Evaluate(count).Some? && Probability(p).Some? {
      forall i | 0 <= i < |events| ensures Weight(space, events[i]) <= Probability(p).value {
        assert Within(space, events[i], p);
      }
      var d := Probability(p).value;
      EachAtMost(space, events, d);
      hide *;
      NeverAbove(space, events, p, count, d);
    }
  }

  lemma NeverAbove(space: Space, events: seq<set<nat>>, p: ProbabilityExpr, count: BoundExpr, d: real)
    requires 0.0 <= Weight(space, UnionOfAll(events)) <= 1.0
    requires Weight(space, UnionOfAll(events)) <= |events| as real * d
    requires Probability(p) == Some(d) && Evaluate(count).Some? && |events| as real <= Evaluate(count).value
    requires FailureBound(ScaledProbability(count, p)) == Some(Clamp01(TimesOf(Evaluate(count).value, d)))
    ensures Within(space, UnionOfAll(events), ScaledProbability(count, p))
  {
    ProbabilityRange(p);
    hide Weight, UnionOfAll, Evaluate, Probability, FailureBound, Clamp01, TimesOf;
    BelowClamped(Weight(space, UnionOfAll(events)), |events| as real, Evaluate(count).value, d);
  }

  lemma ProbabilityRange(p: ProbabilityExpr)
    ensures Probability(p).Some? ==> 0.0 <= Probability(p).value <= 1.0
  {
  }

  lemma NonNegativeFailure(p: ProbabilityExpr)
    ensures FailureBound(p).Some? ==> FailureBound(p).value >= 0.0
  {
  }

  lemma BelowClamped(w: real, n: real, count: real, d: real)
    requires 0.0 <= w <= 1.0 && w <= n * d && n <= count && d >= 0.0
    ensures w <= Clamp01(TimesOf(count, d))
  {
    MoreRows(n, count, d);
  }

  lemma MoreRows(n: real, count: real, d: real)
    requires n <= count && d >= 0.0
    ensures n * d <= count * d
  {
  }

  lemma ScaledFailure(count: BoundExpr, p: ProbabilityExpr)
    ensures FailureBound(ScaledProbability(count, p))
         == if IsZero(count) || NeverFails(p) then Some(0.0)
            else if Evaluate(count).None? || Probability(p).None? then None
            else Some(Clamp01(TimesOf(Evaluate(count).value, Probability(p).value)))
  {
    hide TimesOf, Clamp01;
  }

  lemma {:induction false} EachAtMost(space: Space, events: seq<set<nat>>, d: real)
    requires IsSpace(space)
    requires forall i :: 0 <= i < |events| ==> Weight(space, events[i]) <= d
    ensures Weight(space, UnionOfAll(events)) <= |events| as real * d
  {
    if events == [] {
      assert UnionOfAll(events) * space.outcomes == {};
    } else {
      EachAtMost(space, events[1..], d);
      WeightOfUnion(space, events[0], UnionOfAll(events[1..]));
      hide *;
      OneMore(|events[1..]| as real, d);
    }
  }

  lemma OneMore(n: real, d: real)
    ensures (n + 1.0) * d == n * d + d
  {
  }

  /** One value per argument: scaling the failure by one row leaves it as it is. */
  lemma ScaledByOne(p: ProbabilityExpr)
    ensures FailureBound(ScaledProbability(Constant(1.0), p)) == FailureBound(p)
  {
    ScaledFailure(Constant(1.0), p);
  }
}
