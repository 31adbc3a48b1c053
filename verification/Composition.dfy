/**
 The registered rules that compose guarantees through an operator
 (crates/accuracy/src/composition.rs).
 */
module Composition {
  import opened Bitmask
  import opened Guarantees
  import opened RealBounds
  import opened Results

  const INPUT_ROW_COUNT := "input_row_count"
  const VALUES_NON_NEGATIVE := "values_non_negative"
  const STREAM_L1_NORM := "stream_l1_norm"
  const STREAM_L2_NORM := "stream_l2_norm"
  const STREAM_ROW_COUNT := "stream_row_count"
  const TRUE_VALUE_MAGNITUDE := "true_value_magnitude"

  /** `f64::EPSILON`, which the checked division adds four times. */
  const EPSILON: real := 1.0 / 4503599627370496.0

  /** The evidence a rule may use; unknown ones are `None`. */
  datatype Stats = Stats(
    inputRowCount: Option<nat>,
    rowCountStatistic: Option<string>,
    valuesNonNegative: Option<bool>,
    signStatistic: Option<string>)

  const NO_STATS := Stats(None, None, None, None)

  /** "No registered rule", never "infeasible". */
  datatype CompositionError = UnsupportedComposition(operator: Operator)

  type Composed = Result<Guarantee, CompositionError>

  function Children(inputs: seq<Guarantee>): (trail: seq<Source>)
    ensures |trail| == |inputs|
    ensures forall i :: 0 <= i < |inputs| ==> trail[i] == ChildGuarantee(i, inputs[i])
  {
    if inputs == [] then []
    else Children(inputs[..|inputs| - 1]) + [ChildGuarantee(|inputs| - 1, inputs[|inputs| - 1])]
  }

  function ComposedProvenance(op: Operator, inputs: seq<Guarantee>, local: Guarantee, rule: string): seq<Source> {
    Children(inputs) + local.provenance + [CompositionStep(op, rule)]
  }

  predicate AllExact(inputs: seq<Guarantee>) {
    forall i :: 0 <= i < |inputs| ==> inputs[i].IsExact()
  }

  /** Every approximate input is in `metric`; an exact one is compatible with every metric. */
  predicate SameMetric(inputs: seq<Guarantee>, metric: Metric) {
    forall i :: 0 <= i < |inputs| && !inputs[i].IsExact() ==> inputs[i].metric == metric
  }

  predicate AllRelative(inputs: seq<Guarantee>) {
    inputs != [] && forall i :: 0 <= i < |inputs| ==> inputs[i].metric == Relative
  }

  predicate EstimatesDistinctCount(g: Guarantee) {
    exists i :: 0 <= i < |g.provenance| && g.provenance[i].SketchEvaluation? && g.provenance[i].distinctCount
  }

  function Additive(op: Operator, inputs: seq<Guarantee>, local: Guarantee): Guarantee {
    Guarantee(local.metric, Sum(Errors(inputs) + [local.error]), UnionBound(Failures(inputs) + [local.failure]),
              ComposedProvenance(op, inputs, local, "additive_union_bound"))
  }

  // ------------------------------------------------ relative layers

  /** The product of the bounds `mask` selects, a single one as it is. */
  ghost function SubsetTerm(factors: seq<BoundExpr>, mask: nat): BoundExpr {
    var subset := Selected(factors, mask);
    if |subset| == 1 then subset[0] else Product(subset)
  }

  ghost function SubsetTerms(factors: seq<BoundExpr>, masks: nat): seq<BoundExpr> {
    if masks <= 1 then [] else SubsetTerms(factors, masks - 1) + [SubsetTerm(factors, masks - 1)]
  }

  /** Every non-empty subset's product, by the bits of a counter. */
  method MultiplicativeTerms(factors: seq<BoundExpr>) returns (terms: seq<BoundExpr>)
    ensures terms == SubsetTerms(factors, Pow2(|factors|))
  {
    terms := [];
    for mask := 1 to Pow2(|factors|)
      invariant terms == SubsetTerms(factors, mask)
    {
      var subset := Select(factors, mask);
      terms := terms + [if |subset| == 1 then subset[0] else Product(subset)];
    }
  }

  ghost function Multiplicative(op: Operator, inputs: seq<Guarantee>, local: Guarantee): Guarantee {
    var factors := Errors(inputs) + [local.error];
    Guarantee(Relative, Sum(SubsetTerms(factors, Pow2(|factors|))), UnionBound(Failures(inputs) + [local.failure]),
              ComposedProvenance(op, inputs, local, "relative_cross_term_union_bound"))
  }

  /** `(1 + e1) * ... * (1 + en)`. */
  ghost function Growth(factors: seq<BoundExpr>): (r: real)
    requires AllEvaluate(factors)
  {
    if factors == [] then 1.0 else TimesOf(1.0 + Evaluate(factors[0]).value, Growth(factors[1..]))
  }

  ghost predicate AllEvaluate(factors: seq<BoundExpr>) {
    forall i :: 0 <= i < |factors| ==> Evaluate(factors[i]).Some?
  }

  /** The product over one subset, 1 for the empty one. */
  ghost function SubsetValue(factors: seq<BoundExpr>, mask: nat): (r: real)
    requires AllEvaluate(factors)
    ensures r >= 0.0
  {
    if factors == [] then 1.0
    else
      var rest := SubsetValue(factors[1..], mask / 2);
      if mask % 2 == 1 then TimesOf(Evaluate(factors[0]).value, rest) else rest
  }

  lemma {:induction false} SelectedEvaluates(factors: seq<BoundExpr>, mask: nat)
    requires AllEvaluate(factors)
    ensures EvaluateProduct(Selected(factors, mask)) == Some(SubsetValue(factors, mask))
  {
    if factors != [] {
      SelectedEvaluates(factors[1..], mask / 2);
      hide Evaluate, EvaluateProduct, TimesOf;
      var rest := Selected(factors[1..], mask / 2);
      if mask % 2 == 1 {
        assert Selected(factors, mask) == [factors[0]] + rest;
        ProductCons(factors[0], rest);
      } else {
        assert Selected(factors, mask) == rest;
      }
    }
  }

  lemma ProductCons(head: BoundExpr, rest: seq<BoundExpr>)
    requires Evaluate(head).Some? && EvaluateProduct(rest).Some?
    ensures EvaluateProduct([head] + rest) == Some(TimesOf(Evaluate(head).value, EvaluateProduct(rest).value))
  {
    hide Evaluate, TimesOf;
    assert ([head] + rest)[1..] == rest && ([head] + rest)[0] == head;
  }

  lemma SubsetTermEvaluates(factors: seq<BoundExpr>, mask: nat)
    requires AllEvaluate(factors)
    ensures Evaluate(SubsetTerm(factors, mask)) == Some(SubsetValue(factors, mask))
  {
    SelectedEvaluates(factors, mask);
    var subset := Selected(factors, mask);
    if |subset| == 1 {
      assert subset[1..] == [];
      assert EvaluateProduct(subset[1..]) == Some(1.0);
    }
  }

  /** The first `masks` subsets' products added, the empty one included. */
  ghost function SubsetTotal(factors: seq<BoundExpr>, masks: nat): real
    requires AllEvaluate(factors)
  {
    if masks == 0 then 0.0 else SubsetTotal(factors, masks - 1) + SubsetValue(factors, masks - 1)
  }

  lemma {:induction false} EmptySubset(factors: seq<BoundExpr>)
    requires AllEvaluate(factors)
    ensures SubsetValue(factors, 0) == 1.0
  {
    if factors != [] { EmptySubset(factors[1..]); }
  }

  /** The masks `2m` and `2m + 1` differ by the first factor. */
  lemma {:induction false} PairedSubsets(factors: seq<BoundExpr>, m: nat)
    requires AllEvaluate(factors) && factors != []
    ensures SubsetTotal(factors, 2 * m) == TimesOf(1.0 + Evaluate(factors[0]).value, SubsetTotal(factors[1..], m))
  {
    if m > 0 {
      var k, e := m - 1, Evaluate(factors[0]).value;
      PairedSubsets(factors, k);
      PairOfSubsets(factors, k);
      Distribute(e, SubsetTotal(factors[1..], k), SubsetValue(factors[1..], k));
      hide Evaluate, TimesOf, SubsetTotal, SubsetValue;
      assert 2 * m == 2 * k + 2;
    }
  }

  lemma PairOfSubsets(factors: seq<BoundExpr>, k: nat)
    requires AllEvaluate(factors) && factors != []
    ensures SubsetTotal(factors, 2 * k + 2)
         == SubsetTotal(factors, 2 * k) + SubsetValue(factors[1..], k)
            + TimesOf(Evaluate(factors[0]).value, SubsetValue(factors[1..], k))
    ensures SubsetTotal(factors[1..], k + 1) == SubsetTotal(factors[1..], k) + SubsetValue(factors[1..], k)
  {
    hide Evaluate, TimesOf;
    assert (2 * k) / 2 == k && (2 * k + 1) / 2 == k;
    assert SubsetTotal(factors, 2 * k + 1) == SubsetTotal(factors, 2 * k) + SubsetValue(factors, 2 * k);
  }

  lemma Distribute(e: real, total: real, value: real)
    ensures TimesOf(1.0 + e, total + value) == TimesOf(1.0 + e, total) + value + TimesOf(e, value)
  {
  }

  lemma {:induction false} AllSubsets(factors: seq<BoundExpr>)
    requires AllEvaluate(factors)
    ensures SubsetTotal(factors, Pow2(|factors|)) == Growth(factors)
  {
    hide Evaluate, TimesOf;
    if factors == [] {
      assert SubsetTotal(factors, 1) == SubsetTotal(factors, 0) + SubsetValue(factors, 0);
    } else {
      PairedSubsets(factors, Pow2(|factors| - 1));
      AllSubsets(factors[1..]);
    }
  }

  lemma {:induction false} SumAppended(terms: seq<BoundExpr>, last: BoundExpr)
    requires EvaluateSum(terms).Some? && Evaluate(last).Some?
    ensures EvaluateSum(terms + [last]) == Some(EvaluateSum(terms).value + Evaluate(last).value)
  {
    if terms == [] {
      assert [last][1..] == [];
      assert terms + [last] == [last];
    } else {
      SumAppended(terms[1..], last);
      assert (terms + [last])[1..] == terms[1..] + [last];
    }
  }

  lemma {:induction false} TermsTotal(factors: seq<BoundExpr>, masks: nat)
    requires AllEvaluate(factors) && masks >= 1
    ensures EvaluateSum(SubsetTerms(factors, masks)) == Some(SubsetTotal(factors, masks) - 1.0)
  {
    if masks == 1 {
      EmptySubset(factors);
      assert SubsetTotal(factors, 1) == SubsetTotal(factors, 0) + SubsetValue(factors, 0);
    } else {
      TermsTotal(factors, masks - 1);
      SubsetTermEvaluates(factors, masks - 1);
      SumAppended(SubsetTerms(factors, masks - 1), SubsetTerm(factors, masks - 1));
    }
  }

  /** The sum of all cross products is `(1 + e1) * ... * (1 + en) - 1`, for any number of layers. */
  lemma CrossTermsAreGrowth(factors: seq<BoundExpr>)
    requires AllEvaluate(factors)
    ensures Evaluate(Sum(SubsetTerms(factors, Pow2(|factors|)))) == Some(Growth(factors) - 1.0)
  {
    hide *;
    TermsTotal(factors, Pow2(|factors|));
    AllSubsets(factors);
    GrowthAtLeastOne(factors);
    SumIs(SubsetTerms(factors, Pow2(|factors|)), Growth(factors) - 1.0);
  }

  lemma SumIs(terms: seq<BoundExpr>, total: real)
    requires EvaluateSum(terms) == Some(total) && total >= 0.0
    ensures Evaluate(Sum(terms)) == Some(total)
  {
    hide EvaluateSum;
  }

  lemma {:induction false} GrowthAtLeastOne(factors: seq<BoundExpr>)
    requires AllEvaluate(factors)
    ensures Growth(factors) >= 1.0
  {
    if factors != [] {
      GrowthAtLeastOne(factors[1..]);
      Times(1.0 + Evaluate(factors[0]).value, 1.0, Growth(factors[1..]));
    }
  }

  /** Values of successive layers: each within its factor's relative bound of the layer before. */
  ghost predicate Layered(values: seq<real>, factors: seq<BoundExpr>)
    requires AllEvaluate(factors)
  {
    && |values| == |factors| + 1
    && forall i :: 0 <= i < |factors| ==>
        Distance(values[i + 1], values[i]) <= Evaluate(factors[i]).value * Magnitude(values[i])
  }

  lemma GrowthAppended(factors: seq<BoundExpr>, last: BoundExpr)
    requires AllEvaluate(factors) && Evaluate(last).Some?
    ensures AllEvaluate(factors + [last])
    ensures Growth(factors + [last]) == TimesOf(Growth(factors), 1.0 + Evaluate(last).value)
    ensures Growth(factors) >= 1.0
    decreases |factors|
  {
    hide Evaluate, TimesOf;
    var all := factors + [last];
    if factors == [] {
      assert all[1..] == [];
      assert Growth(all) == TimesOf(1.0 + Evaluate(last).value, Growth([]));
      Unit(1.0 + Evaluate(last).value);
    } else {
      GrowthAppended(factors[1..], last);
      assert all[1..] == factors[1..] + [last] && all[0] == factors[0];
      assert Growth(all) == TimesOf(1.0 + Evaluate(factors[0]).value, Growth(factors[1..] + [last]));
      GrowthArithmetic(1.0 + Evaluate(factors[0]).value, Growth(factors[1..]), 1.0 + Evaluate(last).value);
    }
  }

  lemma GrowthArithmetic(a: real, b: real, c: real)
    requires a >= 1.0 && b >= 1.0
    ensures TimesOf(a, TimesOf(b, c)) == TimesOf(TimesOf(a, b), c)
    ensures TimesOf(a, b) >= 1.0
  {
    Times(a, 1.0, b);
    Commute(a, b, c);
  }

  lemma Unit(a: real)
    ensures TimesOf(a, 1.0) == a && TimesOf(1.0, a) == a
  {
  }

  /** Any number of layers end within what the multiplicative rule states. */
  lemma {:induction false} LayersCompose(values: seq<real>, factors: seq<BoundExpr>)
    requires AllEvaluate(factors) && Layered(values, factors)
    ensures Distance(values[|factors|], values[0]) <= (Growth(factors) - 1.0) * Magnitude(values[0])
  {
    hide *;
    if factors != [] {
      var n := |factors| - 1;
      var prefix, last := factors[..n], factors[n];
      LayeredPrefix(values, factors);
      LayersCompose(values[..n + 1], prefix);
      GrowthAppended(prefix, last);
      assert prefix + [last] == factors;
      LayerGrows(Growth(prefix), Evaluate(last).value, Growth(factors));
      LayerStep(values[0], values[n], values[n + 1], Growth(prefix), Evaluate(last).value);
    } else {
      NoGrowth(values, factors);
    }
  }

  lemma LayeredPrefix(values: seq<real>, factors: seq<BoundExpr>)
    requires AllEvaluate(factors) && Layered(values, factors) && factors != []
    ensures |values| == |factors| + 1
    ensures AllEvaluate(factors[..|factors| - 1]) && Layered(values[..|factors|], factors[..|factors| - 1])
    ensures Evaluate(factors[|factors| - 1]).Some?
    ensures Distance(values[|factors|], values[|factors| - 1])
         <= Evaluate(factors[|factors| - 1]).value * Magnitude(values[|factors| - 1])
  {
    hide Distance, Magnitude, Evaluate;
  }

  lemma LayerGrows(g: real, e: real, all: real)
    requires all == TimesOf(g, 1.0 + e)
    ensures all == g * (1.0 + e)
  {
  }

  lemma NoGrowth(values: seq<real>, factors: seq<BoundExpr>)
    requires AllEvaluate(factors) && Layered(values, factors) && factors == []
    ensures |values| == 1
    ensures Distance(values[0], values[0]) <= (Growth(factors) - 1.0) * Magnitude(values[0])
  {
    NoDistance(values[0]);
  }

  lemma NoDistance(x: real)
    ensures Distance(x, x) <= (1.0 - 1.0) * Magnitude(x)
  {
  }

  // ---------------------------------------------------- the other rules

  function LipschitzGuarantee(op: Operator, constant: real, inputs: seq<Guarantee>, local: Option<Guarantee>): Guarantee
    requires |inputs| == 1
  {
    var scaled := Scaled(constant, inputs[0].error);
    match local
    case Some(g) =>
      Guarantee(Absolute, Sum([scaled, g.error]), UnionBound([inputs[0].failure, g.failure]),
                ComposedProvenance(op, inputs, g, "lipschitz_union_bound"))
    case None =>
      Guarantee(Absolute, scaled, inputs[0].failure,
                ComposedProvenance(op, inputs, ExactGuarantee("deterministic Lipschitz transformation"), "lipschitz_union_bound"))
  }

  /** The row count as a bound, or an unknown leaf recorded in the trail. */
  function RowCount(stats: Stats): (BoundExpr, seq<Source>) {
    match stats.inputRowCount
    case Some(n) => (Constant(n as real), [])
    case None =>
      var statistic := if stats.rowCountStatistic.Some? then stats.rowCountStatistic.value else INPUT_ROW_COUNT;
      (Unknown(statistic), [UnavailableStatistic(statistic)])
  }

  /** The bound in absolute value units; a rank error has no conversion. */
  function AbsoluteBound(input: Guarantee): Option<BoundExpr> {
    if input.metric == Absolute then Some(input.error)
    else if input.metric == Rank then None
    else if IsZero(input.error) then Some(Zero)
    else
      var normalizer := match input.metric
        case Relative => TRUE_VALUE_MAGNITUDE
        case AbsoluteStreamL1 => STREAM_L1_NORM
        case _ => STREAM_L2_NORM;
      Some(Product([input.error, Unknown(normalizer)]))
  }

  /** A sum, mean, max or min of relative estimates keeps the largest relative bound. */
  function RelativeFold(op: Operator, inputs: seq<Guarantee>, stats: Stats, needsSign: bool, rule: string): Composed {
    if needsSign && stats.valuesNonNegative == Some(false) then Failure(UnsupportedComposition(op))
    else
      var (count, counted) := RowCount(stats);
      var (bound, signed) :=
        if needsSign && stats.valuesNonNegative.None? then
          match stats.signStatistic
          case Some(statistic) =>
            (Product([Max(Errors(inputs)), Unknown(statistic)]), [UnavailableStatistic(statistic)])
          case None => (Unknown(VALUES_NON_NEGATIVE), [UnavailableStatistic(VALUES_NON_NEGATIVE)])
        else (Max(Errors(inputs)), []);
      Success(Guarantee(Relative, bound, ScaledProbability(count, UnionBound(Failures(inputs))),
                        counted + signed + ComposedProvenance(op, inputs, ExactGuarantee("exact aggregation"), rule)))
  }

  /** The absolute bounds of all inputs in order, when every one has one. */
  function AbsoluteBounds(inputs: seq<Guarantee>): Option<seq<BoundExpr>> {
    if inputs == [] then Some([])
    else
      var prefix := AbsoluteBounds(inputs[..|inputs| - 1]);
      var last := AbsoluteBound(inputs[|inputs| - 1]);
      if prefix.Some? && last.Some? then Some(prefix.value + [last.value]) else None
  }

  function UnknownFactors(bounds: seq<BoundExpr>): seq<Source> {
    if bounds == [] then []
    else
      var last := bounds[|bounds| - 1];
      UnknownFactors(bounds[..|bounds| - 1]) + (if last.Product? then UnknownsIn(last.factors) else [])
  }

  function UnknownsIn(factors: seq<BoundExpr>): seq<Source> {
    if factors == [] then []
    else (if factors[0].Unknown? then [UnavailableStatistic(factors[0].statistic)] else []) + UnknownsIn(factors[1..])
  }

  /** The loop of the exact sum: absolute terms and failure probabilities in input order. */
  method SumTerms(inputs: seq<Guarantee>) returns (r: Option<(seq<BoundExpr>, seq<ProbabilityExpr>)>)
    ensures r.Some? <==> AbsoluteBounds(inputs).Some?
    ensures r.Some? ==> r.value == (AbsoluteBounds(inputs).value, Failures(inputs))
  {
    hide *;
    NoBounds();
    var terms: seq<BoundExpr> := [];
    var deltas: seq<ProbabilityExpr> := [];
    for i := 0 to |inputs|
      invariant AbsoluteBounds(inputs[..i]) == Some(terms)
      invariant |deltas| == i && forall k :: 0 <= k < i ==> deltas[k] == inputs[k].failure
    {
      BoundsGrow(inputs, i);
      var absolute := AbsoluteBound(inputs[i]);
      if absolute.None? {
        NoAbsoluteBound(inputs, i);
        return None;
      }
      terms := terms + [absolute.value];
      deltas := deltas + [inputs[i].failure];
    }
    WholePrefix(inputs);
    assert deltas == Failures(inputs);
    r := Some((terms, deltas));
  }

  lemma WholePrefix<T>(s: seq<T>)
    ensures s[..|s|] == s
  {
  }

  lemma NoBounds()
    ensures AbsoluteBounds([]) == Some([])
  {
  }

  lemma BoundsGrow(inputs: seq<Guarantee>, i: nat)
    requires i < |inputs|
    ensures AbsoluteBounds(inputs[..i + 1])
         == if AbsoluteBounds(inputs[..i]).Some? && AbsoluteBound(inputs[i]).Some?
            then Some(AbsoluteBounds(inputs[..i]).value + [AbsoluteBound(inputs[i]).value]) else None
  {
    hide AbsoluteBound;
    assert inputs[..i + 1][..i] == inputs[..i];
  }

  lemma {:induction false} NoAbsoluteBound(inputs: seq<Guarantee>, i: nat)
    requires i < |inputs| && AbsoluteBound(inputs[i]).None?
    ensures AbsoluteBounds(inputs).None?
  {
    if i < |inputs| - 1 { NoAbsoluteBound(inputs[..|inputs| - 1], i); }
  }

  function ExactSumRule(op: Operator, inputs: seq<Guarantee>, stats: Stats): Composed {
    if AllRelative(inputs) then RelativeFold(op, inputs, stats, true, "exact_sum_relative")
    else if AbsoluteBounds(inputs).None? then Failure(UnsupportedComposition(op))
    else
      var terms := AbsoluteBounds(inputs).value;
      var (count, counted) := RowCount(stats);
      Success(Guarantee(Absolute, Product([count, Sum(terms)]), ScaledProbability(count, UnionBound(Failures(inputs))),
                        UnknownFactors(terms) + counted
                          + ComposedProvenance(op, inputs, ExactGuarantee("ExactAggregate(Sum)"), "exact_sum_union_bound")))
  }

  /** Mean, max and min: the largest absolute bound. */
  function LargestBoundRule(op: Operator, inputs: seq<Guarantee>, stats: Stats, needsSign: bool, name: string,
                            rule: string,
                            relativeRule: string): Composed
  {
    if AllRelative(inputs) then RelativeFold(op, inputs, stats, needsSign, relativeRule)
    else if exists i :: 0 <= i < |inputs| && inputs[i].metric != Absolute then Failure(UnsupportedComposition(op))
    else
      var (count, counted) := RowCount(stats);
      Success(Guarantee(Absolute, Max(Errors(inputs)), ScaledProbability(count, UnionBound(Failures(inputs))),
                        counted + ComposedProvenance(op, inputs, ExactGuarantee(name), rule)))
  }

  function DivisionRule(op: Operator, inputs: seq<Guarantee>, slack: real, rule: string): Composed
    requires |inputs| == 2
  {
    var a, b := Evaluate(inputs[0].error), Evaluate(inputs[1].error);
    if a.None? || b.None? || b.value >= 1.0 then Failure(UnsupportedComposition(op))
    else
      Success(Guarantee(Relative, Constant((a.value + b.value) / (1.0 - b.value) + slack), UnionBound(Failures(inputs)),
                        ComposedProvenance(op, inputs, ExactGuarantee("exact division"), rule)))
  }

  /** The built-in rule for `op` over `inputs` and the operator's own `local` guarantee. */
  ghost function Propagate(op: Operator, inputs: seq<Guarantee>, local: Option<Guarantee>, stats: Stats): Composed {
    if AllExact(inputs) then
      match local
      case Some(g) => Success(g.(provenance := g.provenance + Children(inputs) + [CompositionStep(op, "exact_input")]))
      case None =>
        Success(Guarantee(Absolute, Zero, ZeroProbability,
                          ExactGuarantee("exact inputs").provenance + [CompositionStep(op, "exact_input")]))
    else
      match op
      case CheckedRelativeDivision =>
        if |inputs| != 2 || local.Some? || !SameMetric(inputs, Relative) then Failure(UnsupportedComposition(op))
        else DivisionRule(op, inputs, 4.0 * EPSILON, "checked_relative_division_union_bound")
      case ApproximateAggregate =>
        if local.None? || !SameMetric(inputs, local.value.metric) || EstimatesDistinctCount(local.value)
        then Failure(UnsupportedComposition(op))
        else
          (match local.value.metric
           case Absolute => Success(Additive(op, inputs, local.value))
           case Relative =>
             if stats.valuesNonNegative == Some(false) then Failure(UnsupportedComposition(op))
             else if stats.valuesNonNegative.None? then
               Success(Guarantee(Relative, Unknown(VALUES_NON_NEGATIVE), UnknownProbability(VALUES_NON_NEGATIVE),
                                 ComposedProvenance(op, inputs, local.value, "relative_value_sign_unverified")
                                   + [UnavailableStatistic(VALUES_NON_NEGATIVE)]))
             else Success(Multiplicative(op, inputs, local.value))
           case _ => Failure(UnsupportedComposition(op)))
      case Lipschitz(constant) =>
        if constant < 0.0 || |inputs| != 1 || !SameMetric(inputs, Absolute)
           || (local.Some? && local.value.metric != Absolute) then Failure(UnsupportedComposition(op))
        else Success(LipschitzGuarantee(op, constant, inputs, local))
      case ExactSum => ExactSumRule(op, inputs, stats)
      case ExactAverage =>
        LargestBoundRule(op, inputs, stats, true, "ExactAggregate(Average)", "exact_average_union_bound", "exact_average_relative")
      case ExactExtremum =>
        LargestBoundRule(op, inputs, stats, false, "ExactAggregate(Max)", "exact_extremum_union_bound", "exact_extremum_relative")
      case ExactDivision =>
        if |inputs| != 2 || !SameMetric(inputs, Relative) then Failure(UnsupportedComposition(op))
        else DivisionRule(op, inputs, 0.0, "relative_division_union_bound")
      case _ => Failure(UnsupportedComposition(op))
  }

  // ----------------------------------------- stream-normalized bounds

  /** The norm a Count-Min or Count Sketch bound is normalized by. */
  datatype StreamNorm = SourceNorm(source: string) | ConstantWeight(weight: real, source: string)

  function SourceStatistic(norm: string, source: string): string {
    norm + "[" + source + "]"
  }

  function NamedFactors(factors: seq<BoundExpr>, norm: StreamNorm): seq<BoundExpr> {
    if factors == [] then []
    else
      var head := if !factors[0].Unknown? then factors[0]
        else match norm
             case SourceNorm(source) => Unknown(SourceStatistic(factors[0].statistic, source))
             case ConstantWeight(weight, source) =>
               Product([Constant(Magnitude(weight)), Unknown(SourceStatistic(STREAM_ROW_COUNT, source))]);
      [head] + NamedFactors(factors[1..], norm)
  }

  function UnknownStatistics(b: BoundExpr): seq<Source>
    decreases b, 1
  {
    match b
    case Unknown(statistic) => [UnavailableStatistic(statistic)]
    case Sum(terms) => UnknownStatisticsIn(terms)
    case Product(factors) => UnknownStatisticsIn(factors)
    case Max(terms) => UnknownStatisticsIn(terms)
    case Scaled(_, inner) => UnknownStatistics(inner)
    case _ => []
  }

  function UnknownStatisticsIn(terms: seq<BoundExpr>): seq<Source>
    decreases terms, 0
  {
    if terms == [] then [] else UnknownStatistics(terms[0]) + UnknownStatisticsIn(terms[1..])
  }

  /** A stream-normalized bound restated as an absolute error; any other guarantee as it is. */
  function AdditiveAsAbsolute(input: Guarantee, norm: Option<StreamNorm>): Guarantee {
    if (input.metric != AbsoluteStreamL1 && input.metric != AbsoluteStreamL2) || input.IsExact() then input
    else
      var bound := AbsoluteBound(input).value;
      var named := if norm.Some? && bound.Product? then Product(NamedFactors(bound.factors, norm.value)) else bound;
      Guarantee(Absolute, named, input.failure, input.provenance + UnknownStatistics(named))
  }

  // -------------------------------------------------- checked division

  /** The checked division of two relative estimates is within its bound, which is wider than the exact one's. */
  lemma CheckedDivisionSound(l: Guarantee, r: Guarantee, g: Guarantee, x: real, x': real, y: real, y': real)
    requires !AllExact([l, r]) && Propagate(CheckedRelativeDivision, [l, r], None, NO_STATS) == Success(g) && y != 0.0
    requires Evaluate(l.error).Some? && Distance(x', x) <= Evaluate(l.error).value * Magnitude(x)
    requires Evaluate(r.error).Some? && Distance(y', y) <= Evaluate(r.error).value * Magnitude(y)
    ensures y' != 0.0 && Evaluate(g.error).Some?
    ensures Distance(x' / y', x / y) <= Evaluate(g.error).value * Magnitude(x / y)
  {
    hide *;
    var a, b, bound := CheckedDivisionRule(l, r, g);
    WiderQuotient(x, x', y, y', a, b, bound);
  }

  lemma WiderQuotient(x: real, x': real, y: real, y': real, a: real, b: real, bound: real)
    requires a >= 0.0 && 0.0 <= b < 1.0 && y != 0.0 && (a + b) / (1.0 - b) <= bound
    requires Distance(x', x) <= a * Magnitude(x) && Distance(y', y) <= b * Magnitude(y)
    ensures y' != 0.0
    ensures Distance(x' / y', x / y) <= bound * Magnitude(x / y)
  {
    hide *;
    RelativeQuotient(x, x', y, y', a, b);
    MagnitudeZero(x / y);
    Wider((a + b) / (1.0 - b), bound, Magnitude(x / y), Distance(x' / y', x / y));
  }

  lemma Wider(e: real, f: real, m: real, d: real)
    requires e <= f && m >= 0.0 && d <= e * m
    ensures d <= f * m
  {
  }

  lemma CheckedDivisionRule(l: Guarantee, r: Guarantee, g: Guarantee) returns (a: real, b: real, bound: real)
    requires !AllExact([l, r]) && Propagate(CheckedRelativeDivision, [l, r], None, NO_STATS) == Success(g)
    ensures Evaluate(l.error) == Some(a) && Evaluate(r.error) == Some(b) && Evaluate(g.error) == Some(bound)
    ensures a >= 0.0 && 0.0 <= b < 1.0 && (a + b) / (1.0 - b) <= bound
  {
    hide AllExact, SameMetric, ComposedProvenance;
    assert [l, r][0] == l && [l, r][1] == r;
    a, b := Evaluate(l.error).value, Evaluate(r.error).value;
    NonNegativeQuotient(a + b, 1.0 - b);
    assert g.error == Constant((a + b) / (1.0 - b) + 4.0 * EPSILON);
    assert EPSILON > 0.0;
    bound := Evaluate(g.error).value;
  }
}
