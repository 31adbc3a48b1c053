/**
 A sketch built over estimated values: its own guarantee is about the values it
 was given, the composed one about the true values
 (crates/accuracy/src/composition.rs:78-138, 734-783).
 */
module SketchOverEstimates {
  import opened Bitmask
  import opened Composition
  import opened FiniteSums
  import opened FoldSoundness
  import opened Guarantees
  import opened LipschitzRules
  import opened Outcomes
  import opened RealBounds
  import opened Results
  import opened ScalarExprs
  import opened ScalarRules

  /** What a sketch estimates of the values it is given: a fold of them, or the `k`-th smallest from zero. */
  datatype Aggregate = Folded(fold: Fold) | Ranked(k: nat)

  ghost function Below(xs: seq<real>, v: real): set<nat> {
    set i: nat | i < |xs| && xs[i] < v
  }

  ghost function UpTo(xs: seq<real>, v: real): set<nat> {
    set i: nat | i < |xs| && xs[i] <= v
  }

  ghost predicate IsOrderStatistic(v: real, xs: seq<real>, k: nat) {
    |Below(xs, v)| <= k < |UpTo(xs, v)|
  }

  ghost predicate AggregateIs(aggregate: Aggregate, xs: seq<real>, v: Value) {
    match aggregate
    case Folded(fold) => v == FoldValue(fold, xs)
    case Ranked(k) => if k < |xs| then v.Number? && IsOrderStatistic(v.value, xs, k) else v == Undefined
  }

  // -------------------------------------------------- order statistics

  /** What bounds every value up to the `k`-th from above bounds the `k`-th of the estimates. */
  lemma RankedAtMost(xs: seq<real>, ys: seq<real>, k: nat, v: real, v': real, b: real)
    requires |xs| == |ys| && IsOrderStatistic(v, xs, k) && IsOrderStatistic(v', ys, k)
    requires forall i :: 0 <= i < |xs| && xs[i] <= v ==> ys[i] <= b
    ensures v' <= b
  {
    if v' > b {
      assert UpTo(xs, v) <= Below(ys, v');
      SubsetSize(UpTo(xs, v), Below(ys, v'));
    }
  }

  lemma RankedAtLeast(xs: seq<real>, ys: seq<real>, k: nat, v: real, v': real, b: real)
    requires |xs| == |ys| && IsOrderStatistic(v, xs, k) && IsOrderStatistic(v', ys, k)
    requires forall i :: 0 <= i < |xs| && xs[i] >= v ==> ys[i] >= b
    ensures v' >= b
  {
    if v' < b {
      assert UpTo(ys, v') <= Below(xs, v);
      SubsetSize(UpTo(ys, v'), Below(xs, v));
    }
  }

  lemma RankedWithin(xs: seq<real>, ys: seq<real>, k: nat, v: real, v': real, e: real)
    requires AllWithin(xs, ys, e) && IsOrderStatistic(v, xs, k) && IsOrderStatistic(v', ys, k)
    ensures Distance(v', v) <= e
  {
    hide IsOrderStatistic;
    RankedAtMost(xs, ys, k, v, v', v + e);
    RankedAtLeast(xs, ys, k, v, v', v - e);
  }

  /** A relative bound up to one keeps the order of the values' limits. */
  lemma LimitsKeepOrder(x: real, v: real, a: real)
    requires x <= v && 0.0 <= a <= 1.0
    ensures x + a * Magnitude(x) <= v + a * Magnitude(v)
    ensures x - a * Magnitude(x) <= v - a * Magnitude(v)
  {
    Triangle(x, v, 0.0);
    Triangle(v, x, 0.0);
    DistanceSymmetric(x, v);
    ShareOfDistance(a, Magnitude(x), Magnitude(v), v - x);
  }

  lemma ShareOfDistance(a: real, m: real, n: real, d: real)
    requires 0.0 <= a <= 1.0 && m <= n + d && n <= m + d && d >= 0.0
    ensures a * m <= a * n + d && a * n <= a * m + d
  {
    ShareAtMost(a, m, n, d);
    ShareAtMost(a, n, m, d);
  }

  lemma ShareAtMost(a: real, m: real, n: real, d: real)
    requires 0.0 <= a <= 1.0 && m <= n + d && d >= 0.0
    ensures a * m <= a * n + d
  {
    var p, q, r := a * m, a * n, a * d;
    Distributes(a, n, d);
    WholeAtLeast(a, d);
    assert a * (n + d) == q + r && r <= d;
    Times(a, m, n + d);
    assert p <= q + r;
  }

  lemma WholeAtLeast(a: real, d: real)
    requires a <= 1.0 && d >= 0.0
    ensures a * d <= d
  {
    Times(d, a, 1.0);
  }

  lemma NearLimits(x: real, y: real, d: real)
    requires Distance(y, x) <= d
    ensures x - d <= y <= x + d
  {
  }

  lemma RankedShare(xs: seq<real>, ys: seq<real>, k: nat, v: real, v': real, a: real)
    requires 0.0 <= a <= 1.0 && AllWithinShare(xs, ys, a)
    requires IsOrderStatistic(v, xs, k) && IsOrderStatistic(v', ys, k)
    ensures Distance(v', v) <= a * Magnitude(v)
  {
    hide IsOrderStatistic, Magnitude, Distance;
    forall i | 0 <= i < |xs| && xs[i] <= v ensures ys[i] <= v + a * Magnitude(v) {
      NearLimits(xs[i], ys[i], a * Magnitude(xs[i]));
      LimitsKeepOrder(xs[i], v, a);
    }
    forall i | 0 <= i < |xs| && xs[i] >= v ensures ys[i] >= v - a * Magnitude(v) {
      NearLimits(xs[i], ys[i], a * Magnitude(xs[i]));
      LimitsKeepOrder(v, xs[i], a);
    }
    RankedAtMost(xs, ys, k, v, v', v + a * Magnitude(v));
    RankedAtLeast(xs, ys, k, v, v', v - a * Magnitude(v));
    NearDistance(v, v', a * Magnitude(v));
  }

  lemma NearDistance(x: real, y: real, d: real)
    requires x - d <= y <= x + d
    ensures Distance(y, x) <= d
  {
  }

  // ------------------------------------------- aggregates of estimates

  /** What an aggregate needs of its values to keep a bound `b` in `metric`. */
  predicate AggregateAllows(aggregate: Aggregate, metric: Metric, b: real, xs: seq<real>) {
    match aggregate
    case Folded(fold) => FoldAllows(fold, metric, b, xs)
    case Ranked(_) => metric == Relative ==> b <= 1.0
  }

  /** The aggregate of estimates keeps the bound all of them keep. */
  lemma AggregateKept(aggregate: Aggregate, metric: Metric, b: real, xs: seq<real>, ys: seq<real>, v: Value, v': Value)
    requires (metric == Absolute || metric == Relative) && b >= 0.0
    requires AllCloseNumbers(metric, b, xs, ys) && AggregateAllows(aggregate, metric, b, xs)
    requires AggregateIs(aggregate, xs, v) && AggregateIs(aggregate, ys, v')
    ensures Close(metric, Some(b), v, v')
  {
    hide Close, FoldValue, IsOrderStatistic, Distance, Magnitude;
    match aggregate {
      case Folded(fold) => UniformFold(fold, metric, b, xs, ys);
      case Ranked(k) =>
        if k >= |xs| {
          SameIsClose(metric, b, Undefined);
        } else {
          forall i | 0 <= i < |xs|
            ensures metric == Absolute ==> Distance(ys[i], xs[i]) <= b
            ensures metric == Relative ==> Distance(ys[i], xs[i]) <= b * Magnitude(xs[i])
          {
            Numbers(metric, b, Number(xs[i]), Number(ys[i]));
          }
          if metric == Absolute {
            RankedWithin(xs, ys, k, v.value, v'.value, b);
            AbsoluteNumbers(b, v.value, v'.value);
          } else {
            RankedShare(xs, ys, k, v.value, v'.value, b);
            RelativeNumbers(b, v.value, v'.value);
          }
        }
    }
  }

  // ---------------------------------------------- the composed bound

  /** Each input's bound, then the sketch's own. */
  function LayerBounds(inputs: seq<Guarantee>, local: Guarantee): seq<BoundExpr> {
    Errors(inputs) + [local.error]
  }

  lemma AggregateRule(inputs: seq<Guarantee>, local: Guarantee, stats: Stats, g: Guarantee)
    requires !AllExact(inputs) && Propagate(ApproximateAggregate, inputs, Some(local), stats) == Success(g)
    ensures g.metric == local.metric && (local.metric == Absolute || local.metric == Relative)
    ensures forall i :: 0 <= i < |inputs| ==> inputs[i].IsExact() || inputs[i].metric == local.metric
    ensures BoundOf(g.error).Some? && local.metric == Relative ==> stats.valuesNonNegative == Some(true)
    ensures BoundOf(g.error).Some? ==>
      g.error == if local.metric == Absolute then Sum(LayerBounds(inputs, local))
                 else Sum(SubsetTerms(LayerBounds(inputs, local), Pow2(|LayerBounds(inputs, local)|)))
    ensures FailureBound(g.failure).Some? ==> g.failure == UnionBound(Failures(inputs) + [local.failure])
    ensures local.metric == Absolute ==>
      g.error == Sum(LayerBounds(inputs, local)) && g.failure == UnionBound(Failures(inputs) + [local.failure])
  {
    hide AllExact, EstimatesDistinctCount, Errors, Failures, SubsetTerms, ComposedProvenance;
    if stats.valuesNonNegative.Some? {
      var known := stats.valuesNonNegative.value;
      assert stats.valuesNonNegative == Some(known);
    }
  }

  /** The largest of the inputs' bounds. */
  lemma {:induction false} LargestOf(inputs: seq<Guarantee>) returns (m: real)
    requires forall i :: 0 <= i < |inputs| ==> BoundOf(inputs[i].error).Some?
    ensures m >= 0.0 && forall i :: 0 <= i < |inputs| ==> BoundOf(inputs[i].error).value <= m
    ensures m == 0.0 || exists i :: 0 <= i < |inputs| && BoundOf(inputs[i].error).value == m
  {
    hide BoundOf;
    m := 0.0;
    if inputs != [] {
      var n := |inputs| - 1;
      var rest := LargestOf(inputs[..n]);
      m := Larger(rest, BoundOf(inputs[n].error).value);
      if m == rest && m != 0.0 {
        var i :| 0 <= i < n && BoundOf(inputs[..n][i].error).value == m;
        assert inputs[i] == inputs[..n][i];
      }
    }
  }

  lemma {:induction false} TermsEvaluate(terms: seq<BoundExpr>, i: nat)
    requires EvaluateSum(terms).Some? && i < |terms|
    ensures Evaluate(terms[i]).Some? && Evaluate(terms[i]).value <= EvaluateSum(terms).value
  {
    hide Evaluate;
    if i > 0 { TermsEvaluate(terms[1..], i - 1); }
  }

  lemma {:induction false} TermsZero(terms: seq<BoundExpr>, i: nat)
    requires AllZero(terms) && i < |terms|
    ensures IsZero(terms[i])
  {
    hide IsZero;
    if i > 0 { TermsZero(terms[1..], i - 1); }
  }

  lemma {:induction false} SubsetTermAt(factors: seq<BoundExpr>, masks: nat, mask: nat)
    requires 1 <= mask < masks
    ensures |SubsetTerms(factors, masks)| == masks - 1
    ensures SubsetTerms(factors, masks)[mask - 1] == SubsetTerm(factors, mask)
    decreases masks
  {
    hide SubsetTerm;
    if masks > 2 { SubsetTermAt(factors, masks - 1, if mask < masks - 1 then mask else 1); }
  }

  /** Every factor is a term of the cross-term sum on its own. */
  lemma FactorIsTerm(factors: seq<BoundExpr>, i: nat) returns (j: nat)
    requires i < |factors|
    ensures j < |SubsetTerms(factors, Pow2(|factors|))| && SubsetTerms(factors, Pow2(|factors|))[j] == factors[i]
  {
    SelectedOne(factors, i);
    SubsetTermAt(factors, Pow2(|factors|), Pow2(i));
    j := Pow2(i) - 1;
  }

  lemma {:induction false} GrowthAbove(factors: seq<BoundExpr>, i: nat)
    requires AllEvaluate(factors) && i < |factors|
    ensures 1.0 + Evaluate(factors[i]).value <= Growth(factors)
  {
    hide Evaluate, TimesOf;
    GrowthAtLeastOne(factors[1..]);
    var head, rest := 1.0 + Evaluate(factors[0]).value, Growth(factors[1..]);
    if i == 0 {
      TimesAbove(head, rest);
    } else {
      GrowthAbove(factors[1..], i - 1);
      TimesAbove(rest, head);
      Swapped(head, rest);
    }
  }

  lemma TimesAbove(a: real, b: real)
    requires a >= 0.0 && b >= 1.0
    ensures TimesOf(a, b) >= a
  {
    Times(a, 1.0, b);
  }

  lemma Swapped(a: real, b: real)
    ensures TimesOf(a, b) == TimesOf(b, a)
  {
  }

  /** How the known composed bound covers one bound `m` for all inputs and the sketch's own. */
  ghost predicate Covers(metric: Metric, total: real, m: real, own: real) {
    if metric == Absolute then m + own <= total else (1.0 + m) * (1.0 + own) - 1.0 <= total
  }

  lemma CoversZero(metric: Metric)
    ensures Covers(metric, 0.0, 0.0, 0.0)
  {
  }

  /** A known composed bound has known parts. */
  lemma BoundParts(inputs: seq<Guarantee>, local: Guarantee, metric: Metric, error: BoundExpr)
    requires metric == Absolute || metric == Relative
    requires BoundOf(error).Some?
    requires error == if metric == Absolute then Sum(LayerBounds(inputs, local))
                      else Sum(SubsetTerms(LayerBounds(inputs, local), Pow2(|LayerBounds(inputs, local)|)))
    ensures forall i :: 0 <= i < |LayerBounds(inputs, local)| ==> BoundOf(LayerBounds(inputs, local)[i]).Some?
    ensures IsZero(error) ==>
      forall i :: 0 <= i < |LayerBounds(inputs, local)| ==> BoundOf(LayerBounds(inputs, local)[i]) == Some(0.0)
    ensures !IsZero(error) ==> AllEvaluate(LayerBounds(inputs, local)) && Evaluate(error).Some?
  {
    var bounds, terms := LayerBounds(inputs, local), error.terms;
    SumUnfolds(terms);
    hide Evaluate, IsZero, AllZero, EvaluateSum, LayerBounds, SubsetTerms;
    forall i | 0 <= i < |bounds|
      ensures if IsZero(error) then IsZero(bounds[i]) else Evaluate(bounds[i]).Some?
    {
      var j := if metric == Absolute then i else 0;
      if metric == Relative { j := FactorIsTerm(bounds, i); }
      if IsZero(error) { TermsZero(terms, j); } else { TermsEvaluate(terms, j); }
    }
    forall i | 0 <= i < |bounds| && !IsZero(error) ensures BoundOf(bounds[i]).Some? { KnownBound(bounds[i]); }
  }

  lemma SumUnfolds(terms: seq<BoundExpr>)
    ensures IsZero(Sum(terms)) <==> AllZero(terms)
    ensures BoundOf(Sum(terms)).Some? && !IsZero(Sum(terms)) ==> EvaluateSum(terms).Some?
    ensures !IsZero(Sum(terms)) ==> BoundOf(Sum(terms)) == Evaluate(Sum(terms))
    ensures IsZero(Sum(terms)) ==> BoundOf(Sum(terms)) == Some(0.0)
  {
  }

  /** One bound over all inputs, at most one when a relative one must be, that with the sketch's own is covered. */
  lemma UniformBound(inputs: seq<Guarantee>, local: Guarantee, metric: Metric, error: BoundExpr) returns (m: real)
    requires metric == Absolute || metric == Relative
    requires BoundOf(error).Some?
    requires error == if metric == Absolute then Sum(LayerBounds(inputs, local))
                      else Sum(SubsetTerms(LayerBounds(inputs, local), Pow2(|LayerBounds(inputs, local)|)))
    ensures m >= 0.0 && BoundOf(local.error).Some?
    ensures forall i :: 0 <= i < |inputs| ==> BoundOf(inputs[i].error).Some? && BoundOf(inputs[i].error).value <= m
    ensures m == 0.0 || exists i :: 0 <= i < |inputs| && BoundOf(inputs[i].error).value == m
    ensures Covers(metric, BoundOf(error).value, m, BoundOf(local.error).value)
  {
    var bounds, n := LayerBounds(inputs, local), |inputs|;
    BoundParts(inputs, local, metric, error);
    hide BoundOf, SubsetTerms, Evaluate, IsZero, Growth;
    assert bounds[n] == local.error && forall i :: 0 <= i < n ==> bounds[i] == inputs[i].error;
    m := LargestOf(inputs);
    if IsZero(error) {
      ZeroBound(error);
      CoversZero(metric);
    } else {
      if m == 0.0 {
        CoversOwn(inputs, local, metric, error);
      } else {
        var i :| 0 <= i < n && BoundOf(inputs[i].error).value == m;
        CoversInput(inputs, local, metric, error, i);
      }
    }
  }

  lemma ZeroBound(error: BoundExpr)
    requires IsZero(error)
    ensures BoundOf(error) == Some(0.0)
  {
  }

  lemma CoversOwn(inputs: seq<Guarantee>, local: Guarantee, metric: Metric, error: BoundExpr)
    requires metric == Absolute || metric == Relative
    requires AllEvaluate(LayerBounds(inputs, local)) && Evaluate(error).Some?
    requires error == if metric == Absolute then Sum(LayerBounds(inputs, local))
                      else Sum(SubsetTerms(LayerBounds(inputs, local), Pow2(|LayerBounds(inputs, local)|)))
    ensures BoundOf(error).Some? && BoundOf(local.error).Some?
    ensures Covers(metric, BoundOf(error).value, 0.0, BoundOf(local.error).value)
  {
    var bounds, n := LayerBounds(inputs, local), |inputs|;
    assert bounds[n] == local.error;
    hide LayerBounds, SubsetTerms, Evaluate, IsZero, BoundOf, Growth, EvaluateSum;
    KnownBound(error);
    KnownBound(local.error);
    if metric == Absolute {
      EvaluatedSum(bounds);
      TermsEvaluate(bounds, n);
    } else {
      CrossTermsAreGrowth(bounds);
      GrowthAbove(bounds, n);
    }
  }

  lemma EvaluatedSum(terms: seq<BoundExpr>)
    requires Evaluate(Sum(terms)).Some?
    ensures EvaluateSum(terms) == Evaluate(Sum(terms))
  {
  }

  lemma CoversInput(inputs: seq<Guarantee>, local: Guarantee, metric: Metric, error: BoundExpr, i: nat)
    requires metric == Absolute || metric == Relative
    requires i < |inputs| && AllEvaluate(LayerBounds(inputs, local)) && Evaluate(error).Some?
    requires error == if metric == Absolute then Sum(LayerBounds(inputs, local))
                      else Sum(SubsetTerms(LayerBounds(inputs, local), Pow2(|LayerBounds(inputs, local)|)))
    ensures BoundOf(error).Some? && BoundOf(local.error).Some? && BoundOf(inputs[i].error).Some?
    ensures Covers(metric, BoundOf(error).value, BoundOf(inputs[i].error).value, BoundOf(local.error).value)
  {
    var bounds, errors := LayerBounds(inputs, local), Errors(inputs);
    assert bounds[|inputs|] == local.error && bounds[i] == inputs[i].error && bounds == errors + [local.error];
    assert AllEvaluate(errors) by {
      forall j | 0 <= j < |errors| ensures Evaluate(errors[j]).Some? { assert bounds[j] == errors[j]; }
    }
    hide LayerBounds, SubsetTerms, Evaluate, IsZero, BoundOf, Growth, EvaluateSum, Errors, Covers, AllEvaluate;
    assert Evaluate(bounds[|inputs|]).Some? && Evaluate(bounds[i]).Some? by { EvaluatesAt(bounds, |inputs|); EvaluatesAt(bounds, i); }
    KnownBound(error);
    KnownBound(local.error);
    KnownBound(inputs[i].error);
    if metric == Absolute { SumCovers(errors, local.error, i); } else { CrossTermsCover(errors, local.error, i); }
  }

  lemma EvaluatesAt(bounds: seq<BoundExpr>, i: nat)
    requires AllEvaluate(bounds) && i < |bounds|
    ensures Evaluate(bounds[i]).Some?
  {
  }

  lemma SumCovers(errors: seq<BoundExpr>, own: BoundExpr, i: nat)
    requires i < |errors| && AllEvaluate(errors) && Evaluate(own).Some? && Evaluate(Sum(errors + [own])).Some?
    ensures Evaluate(errors[i]).Some?
    ensures Covers(Absolute, Evaluate(Sum(errors + [own])).value, Evaluate(errors[i]).value, Evaluate(own).value)
  {
    hide Evaluate, EvaluateSum;
    EvaluatedSum(errors + [own]);
    EachEvaluates(errors);
    SumAppended(errors, own);
    TermsEvaluate(errors, i);
  }

  lemma {:induction false} CrossTermsCover(errors: seq<BoundExpr>, own: BoundExpr, i: nat)
    requires i < |errors| && AllEvaluate(errors) && Evaluate(own).Some? && AllEvaluate(errors + [own])
    ensures Evaluate(errors[i]).Some?
    ensures Evaluate(Sum(SubsetTerms(errors + [own], Pow2(|errors + [own]|)))).Some?
    ensures Covers(Relative, Evaluate(Sum(SubsetTerms(errors + [own], Pow2(|errors + [own]|)))).value,
                   Evaluate(errors[i]).value, Evaluate(own).value)
  {
    EvaluatesAt(errors, i);
    hide *;
    CrossTermsAreGrowth(errors + [own]);
    GrowthAppended(errors, own);
    GrowthAbove(errors, i);
    NonNegativeBound(own);
    GrowthCovers(Evaluate(errors[i]).value, Evaluate(own).value, Growth(errors), Growth(errors + [own]));
  }

  lemma NonNegativeBound(b: BoundExpr)
    requires Evaluate(b).Some?
    ensures Evaluate(b).value >= 0.0
  {
  }

  lemma GrowthCovers(m: real, own: real, before: real, growth: real)
    requires 1.0 + m <= before && own >= 0.0 && growth == TimesOf(before, 1.0 + own)
    ensures Covers(Relative, growth - 1.0, m, own)
  {
    LargerProduct(1.0 + m, before, 1.0 + own);
  }

  lemma {:induction false} EachEvaluates(terms: seq<BoundExpr>)
    requires AllEvaluate(terms)
    ensures EvaluateSum(terms).Some?
  {
    hide Evaluate;
    if terms != [] { EachEvaluates(terms[1..]); }
  }

  lemma LargerProduct(a: real, b: real, c: real)
    requires a <= b && c >= 0.0
    ensures a * c <= TimesOf(b, c)
  {
    Times(c, a, b);
    Swapped(b, c);
    Swapped(a, c);
  }

  // --------------------------------------------- one outcome's values

  /** A sum's absolute error grows with its rows, which the composed bound does not; an extremum's relative one must be at most one. */
  ghost predicate SketchAllows(aggregate: Aggregate, inputs: seq<Guarantee>, local: Guarantee) {
    && (aggregate == Folded(SumFold) ==> local.metric == Relative)
    && (aggregate.Ranked? || !NeedsSign(aggregate.fold) ==>
          forall i :: 0 <= i < |inputs| && local.metric == Relative && BoundOf(inputs[i].error).Some? ==>
            BoundOf(inputs[i].error).value <= 1.0)
  }

  /** Where all values keep their bounds and the sketch keeps its own, its estimate keeps the composed bound of the true aggregate. */
  lemma SketchAccurate(aggregate: Aggregate, inputs: seq<Guarantee>, local: Guarantee, stats: Stats, g: Guarantee,
                       xs: seq<seq<real>>, ys: seq<seq<real>>, truth: Value, given: Value, estimate: Value)
    requires !AllExact(inputs) && Propagate(ApproximateAggregate, inputs, Some(local), stats) == Success(g)
    requires CellsAccurate(inputs, xs, ys) && SketchAllows(aggregate, inputs, local)
    requires local.metric == Relative && stats.valuesNonNegative == Some(true) ==> AllNonNegative(xs)
    requires AggregateIs(aggregate, Flat(xs), truth) && AggregateIs(aggregate, Flat(ys), given)
    requires Accurate(local, given, estimate)
    ensures Accurate(g, truth, estimate)
  {
    AggregateRule(inputs, local, stats, g);
    if BoundOf(g.error).None? {
      UnknownAccurate(g, truth, estimate);
    } else {
      var m := UniformBound(inputs, local, local.metric, g.error);
      hide Propagate, BoundOf, AllExact, SubsetTerms, LayerBounds, Close, Covers, AggregateIs, FoldValue, Flat;
      AllCellsClose(inputs, local.metric, m, xs, ys);
      FlatClose(local.metric, m, xs, ys);
      AggregateFits(aggregate, inputs, local, stats, m, xs);
      AggregateKept(aggregate, local.metric, m, Flat(xs), Flat(ys), truth, given);
      KeptNonNegative(local.error);
      TwoLayers(local.metric, m, BoundOf(local.error).value, BoundOf(g.error).value, truth, given, estimate);
    }
  }

  lemma AllCellsClose(inputs: seq<Guarantee>, metric: Metric, m: real, xs: seq<seq<real>>, ys: seq<seq<real>>)
    requires metric == Absolute || metric == Relative
    requires CellsAccurate(inputs, xs, ys)
    requires forall i :: 0 <= i < |inputs| ==> BoundOf(inputs[i].error).Some? && BoundOf(inputs[i].error).value <= m
    requires forall i :: 0 <= i < |inputs| ==> inputs[i].IsExact() || inputs[i].metric == metric
    ensures |xs| == |ys| && forall j :: 0 <= j < |xs| ==> AllCloseNumbers(metric, m, xs[j], ys[j])
  {
    forall j | 0 <= j < |xs| ensures AllCloseNumbers(metric, m, xs[j], ys[j]) {
      forall i | 0 <= i < |inputs| ensures Close(metric, Some(m), Number(xs[j][i]), Number(ys[j][i])) {
        assert Accurate(inputs[i], Number(xs[j][i]), Number(ys[j][i]));
        OneCellClose(inputs[i], metric, m, Number(xs[j][i]), Number(ys[j][i]));
      }
    }
  }

  lemma OneCellClose(input: Guarantee, metric: Metric, m: real, x: Value, x': Value)
    requires metric == Absolute || metric == Relative
    requires BoundOf(input.error).Some? && BoundOf(input.error).value <= m
    requires (input.IsExact() || input.metric == metric) && Accurate(input, x, x')
    ensures Close(metric, Some(m), x, x')
  {
    KeptNonNegative(input.error);
    if input.IsExact() {
      assert x == x';
      SameIsClose(metric, m, x);
    } else {
      hide Close, BoundOf;
      CloseWider(metric, BoundOf(input.error).value, m, x, x');
    }
  }

  lemma AggregateFits(aggregate: Aggregate, inputs: seq<Guarantee>, local: Guarantee, stats: Stats, m: real, xs: seq<seq<real>>)
    requires SketchAllows(aggregate, inputs, local) && (local.metric == Absolute || local.metric == Relative)
    requires local.metric == Relative ==> AllNonNegative(xs)
    requires forall i :: 0 <= i < |inputs| ==> BoundOf(inputs[i].error).Some?
    requires m == 0.0 || exists i :: 0 <= i < |inputs| && BoundOf(inputs[i].error).value == m
    ensures AggregateAllows(aggregate, local.metric, m, Flat(xs))
  {
    hide BoundOf;
    if local.metric == Relative { FlatNonNegative(xs); }
  }

  lemma TwoLayers(metric: Metric, m: real, own: real, total: real, truth: Value, given: Value, estimate: Value)
    requires (metric == Absolute || metric == Relative) && m >= 0.0 && own >= 0.0 && total >= 0.0
    requires Covers(metric, total, m, own)
    requires Close(metric, Some(m), truth, given) && Close(metric, Some(own), given, estimate)
    ensures Close(metric, Some(total), truth, estimate)
  {
    hide *;
    Numbers(metric, m, truth, given);
    Numbers(metric, own, given, estimate);
    if !truth.Number? {
      SameIsClose(metric, total, truth);
    } else if metric == Absolute {
      AbsoluteLayers(m, own, total, truth.value, given.value, estimate.value);
    } else {
      RelativeLayers(m, own, total, truth.value, given.value, estimate.value);
    }
  }

  lemma AbsoluteLayers(m: real, own: real, total: real, truth: real, given: real, estimate: real)
    requires total >= 0.0 && Covers(Absolute, total, m, own)
    requires Distance(given, truth) <= m && Distance(estimate, given) <= own
    ensures Close(Absolute, Some(total), Number(truth), Number(estimate))
  {
    Triangle(estimate, given, truth);
    hide Distance, Close;
    AbsoluteNumbers(total, truth, estimate);
  }

  lemma RelativeLayers(m: real, own: real, total: real, truth: real, given: real, estimate: real)
    requires m >= 0.0 && own >= 0.0 && total >= 0.0 && Covers(Relative, total, m, own)
    requires Distance(given, truth) <= m * Magnitude(truth) && Distance(estimate, given) <= own * Magnitude(given)
    ensures Close(Relative, Some(total), Number(truth), Number(estimate))
  {
    hide *;
    ProductOfLayers(truth, given, estimate, m, own);
    MagnitudeZero(truth);
    WiderShare(m, own, total, Distance(estimate, truth), Magnitude(truth));
    RelativeNumbers(total, truth, estimate);
  }

  lemma WiderShare(m: real, own: real, total: real, d: real, size: real)
    requires Covers(Relative, total, m, own) && d <= (m + own + m * own) * size && size >= 0.0
    ensures d <= total * size
  {
    assert (1.0 + m) * (1.0 + own) == 1.0 + own + m * (1.0 + own) == 1.0 + m + own + m * own;
    Wider(m + own + m * own, total, size, d);
  }

  // ------------------------------------------------- over all outcomes

  /** A sketch over rows of estimated values: in each outcome the aggregate of what it was given, and its estimate of it. */
  datatype Sketch = Sketch(aggregate: Aggregate, rows: Rows, truth: Value, given: nat -> Value, estimate: nat -> Value)

  ghost predicate IsSketch(sketch: Sketch, width: nat) {
    && IsRows(sketch.rows, width)
    && AggregateIs(sketch.aggregate, Flat(sketch.rows.truth), sketch.truth)
    && forall w :: w in sketch.rows.space.outcomes ==>
        AggregateIs(sketch.aggregate, Flat(sketch.rows.estimate(w)), sketch.given(w))
  }

  /** The outcomes in which the sketch misses its own bound of what it was given. */
  ghost function OwnMisses(sketch: Sketch, local: Guarantee): set<nat> {
    set w | w in sketch.rows.space.outcomes && !Accurate(local, sketch.given(w), sketch.estimate(w))
  }

  /** The outcomes in which the sketch misses the composed bound of the true aggregate. */
  ghost function TotalMisses(sketch: Sketch, g: Guarantee): set<nat> {
    set w | w in sketch.rows.space.outcomes && !Accurate(g, sketch.truth, sketch.estimate(w))
  }

  /** The outcomes in which some value of input `i` misses its bound. */
  ghost function InputMisses(rows: Rows, inputs: seq<Guarantee>, i: nat): set<nat>
    requires IsRows(rows, |inputs|) && i < |inputs|
  {
    set w, j: nat | w in rows.space.outcomes && j < |rows.truth| && w in CellMisses(rows, |inputs|, inputs[i], j, i) :: w
  }

  /** Every input's failure bounds all its values' misses at once. */
  ghost predicate InputsHoldAtOnce(rows: Rows, inputs: seq<Guarantee>)
    requires IsRows(rows, |inputs|)
  {
    forall i :: 0 <= i < |inputs| ==> Within(rows.space, InputMisses(rows, inputs, i), inputs[i].failure)
  }

  ghost function InputEvents(rows: Rows, inputs: seq<Guarantee>): (events: seq<set<nat>>)
    requires IsRows(rows, |inputs|)
    ensures |events| == |inputs| && forall i :: 0 <= i < |inputs| ==> events[i] == InputMisses(rows, inputs, i)
  {
    seq(|inputs|, i requires 0 <= i < |inputs| => InputMisses(rows, inputs, i))
  }

  lemma CellsOutside(rows: Rows, inputs: seq<Guarantee>, w: nat)
    requires IsRows(rows, |inputs|) && w in rows.space.outcomes && w !in UnionOfAll(InputEvents(rows, inputs))
    ensures CellsAccurate(inputs, rows.truth, rows.estimate(w))
  {
    hide IsSpace, Accurate, UnionOfAll;
    forall j: nat, i: nat | j < |rows.truth| && i < |inputs|
      ensures Accurate(inputs[i], Number(rows.truth[j][i]), Number(rows.estimate(w)[j][i]))
    {
      InUnionOfAll(InputEvents(rows, inputs), i);
      assert w !in InputMisses(rows, inputs, i);
      assert w !in CellMisses(rows, |inputs|, inputs[i], j, i);
    }
  }

  /** Over exact inputs a sketch estimates the true aggregate itself. */
  lemma ExactAccurate(aggregate: Aggregate, inputs: seq<Guarantee>, local: Guarantee, stats: Stats, g: Guarantee,
                      xs: seq<seq<real>>, ys: seq<seq<real>>, truth: Value, given: Value, estimate: Value)
    requires AllExact(inputs) && Propagate(ApproximateAggregate, inputs, Some(local), stats) == Success(g)
    requires CellsAccurate(inputs, xs, ys)
    requires AggregateIs(aggregate, Flat(xs), truth) && AggregateIs(aggregate, Flat(ys), given)
    requires Accurate(local, given, estimate)
    ensures Accurate(g, truth, estimate)
  {
    assert xs == ys by {
      hide AggregateIs, Propagate, Flat;
      forall j | 0 <= j < |xs| ensures xs[j] == ys[j] {
        forall i | 0 <= i < |inputs| ensures xs[j][i] == ys[j][i] {
          assert Accurate(inputs[i], Number(xs[j][i]), Number(ys[j][i]));
          assert inputs[i].IsExact();
        }
        assert |xs[j]| == |ys[j]| && forall i :: 0 <= i < |xs[j]| ==> xs[j][i] == ys[j][i];
      }
    }
    OneAggregate(aggregate, Flat(xs), truth, given);
  }

  lemma OneAggregate(aggregate: Aggregate, xs: seq<real>, v: Value, v': Value)
    requires AggregateIs(aggregate, xs, v) && AggregateIs(aggregate, xs, v')
    ensures v == v'
  {
    if aggregate.Ranked? && aggregate.k < |xs| {
      forall i | 0 <= i < |xs| ensures Distance(xs[i], xs[i]) <= 0.0 {}
      hide IsOrderStatistic;
      RankedWithin(xs, xs, aggregate.k, v.value, v'.value, 0.0);
    }
  }

  lemma MissesComeFrom(sketch: Sketch, inputs: seq<Guarantee>, local: Guarantee, stats: Stats, g: Guarantee, w: nat)
    requires IsSketch(sketch, |inputs|) && w in TotalMisses(sketch, g)
    requires Propagate(ApproximateAggregate, inputs, Some(local), stats) == Success(g)
    requires SketchAllows(sketch.aggregate, inputs, local)
    requires local.metric == Relative && stats.valuesNonNegative == Some(true) ==> AllNonNegative(sketch.rows.truth)
    requires CellsAccurate(inputs, sketch.rows.truth, sketch.rows.estimate(w))
    ensures w in OwnMisses(sketch, local)
  {
    hide Propagate, SketchAllows, CellsAccurate, AggregateIs, Accurate, IsSpace, AllExact, AllNonNegative, Shaped, Flat;
    if w !in OwnMisses(sketch, local) {
      var xs, ys := sketch.rows.truth, sketch.rows.estimate(w);
      assert Accurate(local, sketch.given(w), sketch.estimate(w));
      if AllExact(inputs) {
        ExactAccurate(sketch.aggregate, inputs, local, stats, g, xs, ys, sketch.truth, sketch.given(w), sketch.estimate(w));
      } else {
        SketchAccurate(sketch.aggregate, inputs, local, stats, g, xs, ys, sketch.truth, sketch.given(w), sketch.estimate(w));
      }
    }
  }

  /** What the composed failure claims covers every input's failure and the sketch's own. */
  lemma FailureOfSketch(space: Space, inputs: seq<Guarantee>, local: Guarantee, stats: Stats, g: Guarantee,
                        events: seq<set<nat>>, own: set<nat>)
    requires IsSpace(space) && Propagate(ApproximateAggregate, inputs, Some(local), stats) == Success(g)
    requires EachWithin(space, events, Failures(inputs)) && Within(space, own, local.failure)
    ensures Within(space, own + UnionOfAll(events), g.failure)
  {
    var all, claims := events + [own], Failures(inputs) + [local.failure];
    LastEvent(events, own);
    assert EachWithin(space, all, claims);
    if AllExact(inputs) {
      assert g.failure == local.failure;
      hide Propagate, EachWithin, IsSpace, Within, Weight, UnionOfAll;
      NeverFailsAll(inputs);
      NullUnion(space, events, Failures(inputs));
      NullAdded(space, own, UnionOfAll(events), local.failure);
    } else {
      AggregateRule(inputs, local, stats, g);
      hide Propagate, EachWithin, IsSpace, Weight, UnionOfAll;
      UnionWithin(space, all, claims);
    }
  }

  lemma {:induction false} LastEvent(events: seq<set<nat>>, last: set<nat>)
    ensures UnionOfAll(events + [last]) == last + UnionOfAll(events)
  {
    if events == [] {
      assert [last][1..] == [];
    } else {
      LastEvent(events[1..], last);
      assert (events + [last])[1..] == events[1..] + [last];
    }
  }

  /**
   Soundness of a sketch over estimates: when each input's failure bounds the
   misses of all its values at once, and the sketch keeps its own guarantee of
   what it was given, its estimate keeps the composed guarantee of the aggregate
   of the true values.
   */
  lemma SketchHolds(sketch: Sketch, inputs: seq<Guarantee>, local: Guarantee, stats: Stats, g: Guarantee)
    requires IsSketch(sketch, |inputs|) && InputsHoldAtOnce(sketch.rows, inputs)
    requires Within(sketch.rows.space, OwnMisses(sketch, local), local.failure)
    requires Propagate(ApproximateAggregate, inputs, Some(local), stats) == Success(g)
    requires SketchAllows(sketch.aggregate, inputs, local)
    requires local.metric == Relative && stats.valuesNonNegative == Some(true) ==> AllNonNegative(sketch.rows.truth)
    ensures Within(sketch.rows.space, TotalMisses(sketch, g), g.failure)
  {
    var events, own := InputEvents(sketch.rows, inputs), OwnMisses(sketch, local);
    assert EachWithin(sketch.rows.space, events, Failures(inputs));
    hide *;
    SpaceOfSketch(sketch, inputs);
    FailureOfSketch(sketch.rows.space, inputs, local, stats, g, events, own);
    forall w | w in TotalMisses(sketch, g) ensures w in own + UnionOfAll(events) {
      OutcomeOf(sketch, g, w);
      if w !in UnionOfAll(events) {
        CellsOutside(sketch.rows, inputs, w);
        MissesComeFrom(sketch, inputs, local, stats, g, w);
      }
    }
    SubEvent(TotalMisses(sketch, g), own + UnionOfAll(events));
    WithinSmaller(sketch.rows.space, TotalMisses(sketch, g), own + UnionOfAll(events), g.failure);
  }

  lemma SubEvent(small: set<nat>, large: set<nat>)
    requires forall w :: w in small ==> w in large
    ensures forall s: set<nat> :: small * s <= large
  {
  }

  lemma SpaceOfSketch(sketch: Sketch, inputs: seq<Guarantee>)
    requires IsSketch(sketch, |inputs|)
    ensures IsRows(sketch.rows, |inputs|) && IsSpace(sketch.rows.space)
  {
  }

  lemma OutcomeOf(sketch: Sketch, g: Guarantee, w: nat)
    requires w in TotalMisses(sketch, g)
    ensures w in sketch.rows.space.outcomes
  {
  }

  // ------------------------------------------ values failing one by one

  /**
   When each value keeps its guarantee on its own, as the folds take it, the
   inputs' failures count once per row.
   */
  lemma SketchHoldsPerValue(sketch: Sketch, inputs: seq<Guarantee>, local: Guarantee, stats: Stats, g: Guarantee)
    requires IsSketch(sketch, |inputs|) && CellsHold(sketch.rows, inputs)
    requires Within(sketch.rows.space, OwnMisses(sketch, local), local.failure)
    requires Propagate(ApproximateAggregate, inputs, Some(local), stats) == Success(g)
    requires SketchAllows(sketch.aggregate, inputs, local)
    requires local.metric == Relative && stats.valuesNonNegative == Some(true) ==> AllNonNegative(sketch.rows.truth)
    ensures Within(sketch.rows.space, TotalMisses(sketch, g), PerRow(|sketch.rows.truth|, inputs, local))
  {
    var count, own := Constant(|sketch.rows.truth| as real), OwnMisses(sketch, local);
    var events := UnionOfAll(AllEvents(sketch.rows, inputs));
    hide *;
    SpaceOfSketch(sketch, inputs);
    CountEvaluates(|sketch.rows.truth|);
    AnyCellWithin(sketch.rows, inputs, count);
    PairWithin(sketch.rows.space, events, own, ScaledProbability(count, UnionBound(Failures(inputs))), local.failure);
    forall w | w in TotalMisses(sketch, g) ensures w in events + own {
      OutcomeOf(sketch, g, w);
      if w !in events {
        OutsideAll(sketch.rows, inputs, w);
        MissesComeFrom(sketch, inputs, local, stats, g, w);
      }
    }
    SubEvent(TotalMisses(sketch, g), events + own);
    IsPerRow(|sketch.rows.truth|, inputs, local);
    WithinSmaller(sketch.rows.space, TotalMisses(sketch, g), events + own, PerRow(|sketch.rows.truth|, inputs, local));
  }

  function PerRow(n: nat, inputs: seq<Guarantee>, local: Guarantee): ProbabilityExpr {
    UnionBound([ScaledProbability(Constant(n as real), UnionBound(Failures(inputs))), local.failure])
  }

  lemma IsPerRow(n: nat, inputs: seq<Guarantee>, local: Guarantee)
    ensures PerRow(n, inputs, local)
         == UnionBound([ScaledProbability(Constant(n as real), UnionBound(Failures(inputs))), local.failure])
  {
  }

  lemma CountEvaluates(n: nat)
    ensures Evaluate(Constant(n as real)) == Some(n as real)
  {
  }

  /** The composed failure holds of every maximum over `n` rows whose values fail one by one. */
  ghost predicate CoversRows(n: nat, input: Guarantee, local: Guarantee, g: Guarantee) {
    forall sketch: Sketch ::
      sketch.aggregate == Folded(MaxFold) && IsSketch(sketch, 1) && |sketch.rows.truth| == n
      && CellsHold(sketch.rows, [input]) && Within(sketch.rows.space, OwnMisses(sketch, local), local.failure) ==>
        Within(sketch.rows.space, TotalMisses(sketch, g), g.failure)
  }

  /**
   The composed failure is the inputs' and the sketch's added once, not once per
   row as the folds add theirs: it covers `n` rows whose values fail one by one
   exactly when there is at most one, or none fails, or the sum reaches one.
   */
  lemma CoversRowsIff(n: nat, input: Guarantee, local: Guarantee, stats: Stats, g: Guarantee)
    requires input.metric == Absolute && local.metric == Absolute && !input.IsExact()
    requires Evaluate(input.error).Some? && Evaluate(local.error).Some?
    requires Probability(input.failure).Some? && Probability(local.failure).Some?
    requires Propagate(ApproximateAggregate, [input], Some(local), stats) == Success(g)
    ensures CoversRows(n, input, local, g) <==>
      || n <= 1
      || Probability(input.failure).value == 0.0
      || Probability(input.failure).value + Probability(local.failure).value >= 1.0
  {
    var p, q := Probability(input.failure).value, Probability(local.failure).value;
    assert [input][0] == input;
    AggregateRule([input], local, stats, g);
    ComposedOfOne(input, local, g);
    hide *;
    if n <= 1 || p == 0.0 || p + q >= 1.0 {
      forall sketch: Sketch
        | sketch.aggregate == Folded(MaxFold) && IsSketch(sketch, 1) && |sketch.rows.truth| == n
          && CellsHold(sketch.rows, [input]) && Within(sketch.rows.space, OwnMisses(sketch, local), local.failure)
        ensures Within(sketch.rows.space, TotalMisses(sketch, g), g.failure)
      {
        assert |[input]| == 1;
        if p + q >= 1.0 {
          SpaceOfSketch(sketch, [input]);
          CertainFailure(sketch.rows.space, TotalMisses(sketch, g), g.failure, p + q);
        } else {
          FewFailures(sketch, input);
          MaximumAllows(input, local);
          SketchHolds(sketch, [input], local, stats, g);
        }
      }
      IsCovering(n, input, local, g);
    } else {
      TwoRowsFail(n, input, local, g);
    }
  }

  lemma ComposedOfOne(input: Guarantee, local: Guarantee, g: Guarantee)
    requires Evaluate(input.error).Some? && Evaluate(local.error).Some?
    requires Probability(input.failure).Some? && Probability(local.failure).Some?
    requires g.error == Sum(LayerBounds([input], local)) && g.failure == UnionBound(Failures([input]) + [local.failure])
    ensures BoundOf(g.error) == Some(Evaluate(input.error).value + Evaluate(local.error).value)
    ensures FailureBound(g.failure) == Some(Clamp01(Probability(input.failure).value + Probability(local.failure).value))
  {
    assert LayerBounds([input], local) == [input.error, local.error];
    assert Failures([input]) + [local.failure] == [input.failure, local.failure];
    hide Clamp01;
    SumOfTwo(input.error, local.error);
    UnionOfTwo(input.failure, local.failure);
    hide *;
    KnownBound(g.error);
    KnownFailure(g.failure);
  }

  lemma SumOfTwo(a: BoundExpr, b: BoundExpr)
    requires Evaluate(a).Some? && Evaluate(b).Some?
    ensures Evaluate(Sum([a, b])) == Some(Evaluate(a).value + Evaluate(b).value)
  {
    hide Evaluate;
    assert [a, b][1..] == [b] && [b][1..] == [];
    assert EvaluateSum([]) == Some(0.0);
    assert EvaluateSum([b]) == Some(Evaluate(b).value);
    SumIs([a, b], Evaluate(a).value + Evaluate(b).value);
  }

  lemma UnionOfTwo(p: ProbabilityExpr, q: ProbabilityExpr)
    requires Probability(p).Some? && Probability(q).Some?
    ensures Probability(UnionBound([p, q])) == Some(Clamp01(Probability(p).value + Probability(q).value))
  {
    SumOfFailures(p, q);
    hide Clamp01, ProbabilitySum;
  }

  lemma SumOfFailures(p: ProbabilityExpr, q: ProbabilityExpr)
    requires Probability(p).Some? && Probability(q).Some?
    ensures ProbabilitySum([p, q]) == Some(Probability(p).value + Probability(q).value)
  {
    hide Probability;
    assert [p, q][1..] == [q] && [q][1..] == [];
    assert ProbabilitySum([]) == Some(0.0);
    assert ProbabilitySum([q]) == Some(Probability(q).value);
  }

  lemma CertainFailure(space: Space, event: set<nat>, p: ProbabilityExpr, claim: real)
    requires IsSpace(space) && FailureBound(p) == Some(Clamp01(claim)) && claim >= 1.0
    ensures Within(space, event, p)
  {
    WeightBounds(space, event);
  }

  /** One row, or rows that never fail: one by one is all at once. */
  lemma FewFailures(sketch: Sketch, input: Guarantee)
    requires IsSketch(sketch, 1) && CellsHold(sketch.rows, [input]) && Probability(input.failure).Some?
    requires |sketch.rows.truth| <= 1 || Probability(input.failure).value == 0.0
    ensures InputsHoldAtOnce(sketch.rows, [input])
  {
    var rows, inputs := sketch.rows, [input];
    assert IsRows(rows, 1);
    var events := seq(|rows.truth|, j requires 0 <= j < |rows.truth| => CellMisses(rows, 1, input, j, 0));
    hide Accurate, IsSpace, Weight, Probability, AggregateIs, IsSketch;
    assert inputs[0] == input;
    forall j | 0 <= j < |rows.truth| ensures Within(rows.space, CellMisses(rows, 1, input, j, 0), input.failure) {}
    if |rows.truth| == 1 {
      assert InputMisses(rows, inputs, 0) == CellMisses(rows, 1, input, 0, 0);
    } else {
      if |rows.truth| > 1 {
        KnownFailure(input.failure);
        forall j | 0 <= j < |rows.truth| ensures Weight(rows.space, events[j]) <= 0.0 {}
      }
      UnionOfNull(rows.space, events);
      forall w | w in InputMisses(rows, inputs, 0) ensures w in UnionOfAll(events) {
        var j: nat :| j < |rows.truth| && w in CellMisses(rows, 1, input, j, 0);
        InUnionOfAll(events, j);
      }
      WeightMonotone(rows.space, InputMisses(rows, inputs, 0), UnionOfAll(events));
      NullWithin(rows.space, InputMisses(rows, inputs, 0), input.failure);
    }
  }

  lemma NullWithin(space: Space, event: set<nat>, p: ProbabilityExpr)
    requires Weight(space, event) <= 0.0
    ensures Within(space, event, p)
  {
    NonNegativeFailure(p);
  }

  lemma MaximumAllows(input: Guarantee, local: Guarantee)
    requires local.metric == Absolute
    ensures SketchAllows(Folded(MaxFold), [input], local)
  {
  }

  lemma IsCovering(n: nat, input: Guarantee, local: Guarantee, g: Guarantee)
    requires forall sketch: Sketch ::
      sketch.aggregate == Folded(MaxFold) && IsSketch(sketch, 1) && |sketch.rows.truth| == n
      && CellsHold(sketch.rows, [input]) && Within(sketch.rows.space, OwnMisses(sketch, local), local.failure) ==>
        Within(sketch.rows.space, TotalMisses(sketch, g), g.failure)
    ensures CoversRows(n, input, local, g)
  {
    hide IsSketch, CellsHold, Within;
  }

  // Two rows that fail in different outcomes, and a sketch that fails in a third.

  function FailureSpace(p: real, d: real, q: real): Space {
    Space({0, 1, 2, 3}, (w: nat) => if w == 0 then p else if w == 1 then d else if w == 2 then q else 1.0 - p - d - q)
  }

  lemma FailureWeights(space: Space, p: real, d: real, q: real)
    requires space == FailureSpace(p, d, q) && p >= 0.0 && d >= 0.0 && q >= 0.0 && p + d + q <= 1.0
    ensures IsSpace(space)
    ensures Weight(space, {0}) == p && Weight(space, {1}) == d && Weight(space, {2}) == q
    ensures Weight(space, {0, 1, 2}) == p + d + q
  {
    OneWeight(space, 0);
    OneWeight(space, 1);
    OneWeight(space, 2);
    var all: set<nat>, three: set<nat>, two: set<nat>, one: set<nat> := {0, 1, 2, 3}, {0, 1, 2}, {0, 1}, {0};
    assert all - {3} == three && three - {2} == two && two - {1} == one;
    assert three * all == three && one * all == one;
    SumSplit(all, 3, space.weight);
    SumSplit(three, 2, space.weight);
    SumSplit(two, 1, space.weight);
  }

  lemma OneWeight(space: Space, w: nat)
    requires w in space.outcomes
    ensures Weight(space, {w}) == space.weight(w)
  {
    var only: set<nat> := {w};
    assert only * space.outcomes == only && only - {w} == {};
    SumSplit(only, w, space.weight);
  }

  /** Row `w` is estimated as `far` in outcomes 0 and 1, and the sketch in outcome 2. */
  function FailingRows(n: nat, far: real, space: Space): Rows {
    Rows(space, seq(n, _ => [0.0]), (w: nat) => seq(n, (j: int) => [if j == w && w < 2 then far else 0.0]))
  }

  function FailingSketch(n: nat, far: real, space: Space): Sketch {
    Sketch(Folded(MaxFold), FailingRows(n, far, space), Number(0.0), (w: nat) => Number(if w < 2 then far else 0.0),
           (w: nat) => Number(if w < 3 then far else 0.0))
  }

  lemma {:induction false} FlatSingles(rows: seq<seq<real>>)
    requires forall j :: 0 <= j < |rows| ==> |rows[j]| == 1
    ensures |Flat(rows)| == |rows| && forall j :: 0 <= j < |rows| ==> Flat(rows)[j] == rows[j][0]
  {
    if rows != [] { FlatSingles(rows[..|rows| - 1]); }
  }

  lemma {:induction false} MaximumBounds(xs: seq<real>)
    requires xs != []
    ensures forall i :: 0 <= i < |xs| ==> xs[i] <= Extreme(true, xs)
    ensures exists i :: 0 <= i < |xs| && xs[i] == Extreme(true, xs)
  {
    var n := |xs| - 1;
    if n == 0 {
      assert xs[0] == Extreme(true, xs);
    } else {
      MaximumBounds(xs[..n]);
      var i :| 0 <= i < n && xs[..n][i] == Extreme(true, xs[..n]);
      assert xs[i] == Extreme(true, xs[..n]);
      assert xs[if Extreme(true, xs) == xs[n] then n else i] == Extreme(true, xs);
    }
  }

  lemma MaximumOfRow(n: nat, far: real, space: Space, w: nat)
    requires n >= 2 && far > 0.0
    ensures FoldValue(MaxFold, Flat(FailingRows(n, far, space).truth)) == Number(0.0)
    ensures FoldValue(MaxFold, Flat(FailingRows(n, far, space).estimate(w))) == Number(if w < 2 then far else 0.0)
  {
    var truth, estimate := FailingRows(n, far, space).truth, FailingRows(n, far, space).estimate(w);
    FlatSingles(truth);
    FlatSingles(estimate);
    hide Extreme, Flat;
    MaximumBounds(Flat(truth));
    MaximumBounds(Flat(estimate));
    if w < 2 { assert Flat(estimate)[w] == far; }
  }

  lemma FailingIsSketch(n: nat, far: real, space: Space)
    requires n >= 2 && far > 0.0 && IsSpace(space)
    ensures IsSketch(FailingSketch(n, far, space), 1)
  {
    hide IsSpace, FoldValue, Flat;
    MaximumOfRow(n, far, space, 0);
    forall w: nat ensures AggregateIs(Folded(MaxFold), Flat(FailingRows(n, far, space).estimate(w)), FailingSketch(n, far, space).given(w)) {
      MaximumOfRow(n, far, space, w);
    }
  }

  lemma FailingCells(n: nat, far: real, space: Space, input: Guarantee)
    requires n >= 2 && far > 0.0 && IsSketch(FailingSketch(n, far, space), 1)
    requires Within(space, {0}, input.failure) && Within(space, {1}, input.failure)
    ensures CellsHold(FailingRows(n, far, space), [input])
  {
    var rows, inputs := FailingRows(n, far, space), [input];
    assert inputs[0] == input;
    SameAccurate(input, Number(0.0));
    hide Accurate, Within, Weight, AggregateIs;
    forall j: nat | j < n ensures Within(space, CellMisses(rows, 1, input, j, 0), input.failure) {
      assert IsSpace(space);
      forall w | w in CellMisses(rows, 1, input, j, 0) ensures w == j && w < 2 {}
      if j == 0 {
        WithinSmaller(space, CellMisses(rows, 1, input, j, 0), {0}, input.failure);
      } else {
        WithinSmaller(space, CellMisses(rows, 1, input, j, 0), {1}, input.failure);
      }
    }
  }

  lemma FailingMisses(n: nat, far: real, space: Space, local: Guarantee, g: Guarantee)
    requires space.outcomes == {0, 1, 2, 3}
    requires g.metric == Absolute && BoundOf(g.error).Some? && 0.0 <= BoundOf(g.error).value < far
    ensures OwnMisses(FailingSketch(n, far, space), local) <= {2}
    ensures TotalMisses(FailingSketch(n, far, space), g) == {0, 1, 2}
  {
    SameAccurate(local, Number(far));
    SameAccurate(local, Number(0.0));
    SameAccurate(g, Number(0.0));
    assert !Accurate(g, Number(0.0), Number(far));
    hide Accurate;
  }

  lemma {:induction false} TwoRowsFail(n: nat, input: Guarantee, local: Guarantee, g: Guarantee)
    requires n >= 2 && g.metric == Absolute && BoundOf(g.error).Some?
    requires Probability(input.failure).Some? && Probability(local.failure).Some?
    requires FailureBound(g.failure) == Some(Clamp01(Probability(input.failure).value + Probability(local.failure).value))
    requires 0.0 < Probability(input.failure).value
    requires Probability(input.failure).value + Probability(local.failure).value < 1.0
    ensures !CoversRows(n, input, local, g)
  {
    var p, q := Probability(input.failure).value, Probability(local.failure).value;
    ProbabilityRange(local.failure);
    KeptNonNegative(g.error);
    var d := Smaller(p, 1.0 - p - q);
    assert 0.0 < d <= p && p + d + q <= 1.0;
    hide *;
    FailApart(n, input, local, g, p, d, q, BoundOf(g.error).value + 1.0);
  }

  lemma {:induction false} FailApart(n: nat, input: Guarantee, local: Guarantee, g: Guarantee, p: real, d: real, q: real,
                                     far: real)
    requires n >= 2 && g.metric == Absolute && BoundOf(g.error).Some? && 0.0 <= BoundOf(g.error).value < far
    requires Probability(input.failure) == Some(p) && Probability(local.failure) == Some(q)
    requires 0.0 < d <= p && q >= 0.0 && p + d + q <= 1.0
    requires FailureBound(g.failure) == Some(Clamp01(p + q))
    ensures !CoversRows(n, input, local, g)
  {
    hide *;
    var space := FailureSpace(p, d, q);
    OutcomesAre(p, d, q);
    FailureWeights(space, p, d, q);
    WithinClaim(space, {0}, input.failure, p);
    WithinClaim(space, {1}, input.failure, p);
    WithinClaim(space, {2}, local.failure, q);
    FailingIsSketch(n, far, space);
    FailingCells(n, far, space, input);
    FailingMisses(n, far, space, local, g);
    BeyondClaim(space, {0, 1, 2}, g.failure, p + q);
    DoesNotCover(n, far, space, input, local, g);
  }

  lemma OutcomesAre(p: real, d: real, q: real)
    ensures FailureSpace(p, d, q).outcomes == {0, 1, 2, 3}
  {
  }

  lemma WithinClaim(space: Space, event: set<nat>, p: ProbabilityExpr, claim: real)
    requires Probability(p) == Some(claim) && Weight(space, event) <= claim
    ensures Within(space, event, p)
  {
    hide Probability, Weight;
    KnownFailure(p);
  }

  lemma BeyondClaim(space: Space, event: set<nat>, p: ProbabilityExpr, claim: real)
    requires FailureBound(p) == Some(Clamp01(claim)) && 0.0 <= claim < 1.0 && Weight(space, event) > claim
    ensures !Within(space, event, p)
  {
    hide Weight, FailureBound;
  }

  lemma DoesNotCover(n: nat, far: real, space: Space, input: Guarantee, local: Guarantee, g: Guarantee)
    requires n >= 2 && IsSpace(space) && space.outcomes == {0, 1, 2, 3}
    requires IsSketch(FailingSketch(n, far, space), 1) && CellsHold(FailingRows(n, far, space), [input])
    requires Within(space, {2}, local.failure) && OwnMisses(FailingSketch(n, far, space), local) <= {2}
    requires TotalMisses(FailingSketch(n, far, space), g) == {0, 1, 2} && !Within(space, {0, 1, 2}, g.failure)
    ensures !CoversRows(n, input, local, g)
  {
    hide IsSketch, CellsHold, Within, IsSpace, OwnMisses, TotalMisses, Weight;
    var sketch := FailingSketch(n, far, space);
    WithinSmaller(space, OwnMisses(sketch, local), {2}, local.failure);
    assert |sketch.rows.truth| == n && sketch.rows == FailingRows(n, far, space) && sketch.rows.space == space;
  }
}
