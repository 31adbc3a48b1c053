/**
 Error bounds, failure probabilities and the guarantees made of them
 (crates/types/src/ir/properties/guarantee.rs). Values are exact reals.
 */
module Guarantees {
  import opened Results

  /** What an error is measured in. */
  datatype Metric = Absolute | AbsoluteStreamL1 | AbsoluteStreamL2 | Relative | Rank

  /** A symbolic error bound; an unknown statistic is never a number. */
  datatype BoundExpr =
    | Zero
    | Constant(value: real)
    | Sum(terms: seq<BoundExpr>)
    | Product(factors: seq<BoundExpr>)
    | Scaled(factor: real, inner: BoundExpr)
    | Max(terms: seq<BoundExpr>)
    | Unknown(statistic: string)

  function NonNegative(r: Option<real>): Option<real> {
    if r.Some? && r.value >= 0.0 then r else None
  }

  /** The bound's value, unless it needs an unknown statistic or comes out negative. */
  function Evaluate(b: BoundExpr): (r: Option<real>)
    ensures r.Some? ==> r.value >= 0.0
    decreases b, 1
  {
    match b
    case Zero => Some(0.0)
    case Constant(value) => NonNegative(Some(value))
    case Sum(terms) => NonNegative(EvaluateSum(terms))
    case Product(factors) => NonNegative(EvaluateProduct(factors))
    case Scaled(factor, inner) =>
      var r := Evaluate(inner);
      if r.None? then None else NonNegative(Some(TimesOf(factor, r.value)))
    case Max(terms) => NonNegative(EvaluateMax(terms))
    case Unknown(_) => None
  }

  function EvaluateSum(terms: seq<BoundExpr>): (r: Option<real>)
    ensures r.Some? ==> r.value >= 0.0
    decreases terms, 0
  {
    if terms == [] then Some(0.0)
    else
      var head, tail := Evaluate(terms[0]), EvaluateSum(terms[1..]);
      if head.Some? && tail.Some? then Some(head.value + tail.value) else None
  }

  function EvaluateProduct(factors: seq<BoundExpr>): (r: Option<real>)
    ensures r.Some? ==> r.value >= 0.0
    decreases factors, 0
  {
    if factors == [] then Some(1.0)
    else
      var head, tail := Evaluate(factors[0]), EvaluateProduct(factors[1..]);
      if head.Some? && tail.Some? then Some(TimesOf(head.value, tail.value)) else None
  }

  function TimesOf(a: real, b: real): (r: real)
    ensures a >= 0.0 && b >= 0.0 ==> r >= 0.0
  {
    a * b
  }

  lemma ProductNonNegative(a: real, b: real)
    requires a >= 0.0 && b >= 0.0
    ensures a * b >= 0.0
    ensures a * b == 0.0 <==> a == 0.0 || b == 0.0
  {
  }

  function EvaluateMax(terms: seq<BoundExpr>): (r: Option<real>)
    ensures r.Some? ==> r.value >= 0.0
    decreases terms, 0
  {
    if terms == [] then Some(0.0)
    else
      var head, tail := Evaluate(terms[0]), EvaluateMax(terms[1..]);
      if head.Some? && tail.Some? then Some(if head.value > tail.value then head.value else tail.value) else None
  }

  /** Zero by structure, whatever the unknown statistics are. */
  predicate IsZero(b: BoundExpr)
    decreases b, 1
  {
    match b
    case Zero => true
    case Constant(value) => value == 0.0
    case Sum(terms) => AllZero(terms)
    case Max(terms) => AllZero(terms)
    case Product(factors) => AnyZero(factors)
    case Scaled(factor, inner) => factor == 0.0 || IsZero(inner)
    case Unknown(_) => false
  }

  predicate AllZero(terms: seq<BoundExpr>)
    decreases terms, 0
  {
    terms == [] || (IsZero(terms[0]) && AllZero(terms[1..]))
  }

  predicate AnyZero(terms: seq<BoundExpr>)
    decreases terms, 0
  {
    terms != [] && (IsZero(terms[0]) || AnyZero(terms[1..]))
  }

  /** On a bound that evaluates, zero by structure and zero by value are one. */
  lemma {:induction false} ZeroIsZero(b: BoundExpr)
    requires Evaluate(b).Some?
    ensures IsZero(b) <==> Evaluate(b).value == 0.0
    decreases b, 1
  {
    match b {
      case Sum(terms) => ZeroSum(terms);
      case Max(terms) => ZeroMax(terms);
      case Product(factors) => ZeroProduct(factors);
      case Scaled(factor, inner) =>
        ZeroIsZero(inner);
        ZeroFactor(factor, Evaluate(inner).value);
      case _ =>
    }
  }

  lemma ZeroFactor(a: real, b: real)
    ensures a * b == 0.0 <==> a == 0.0 || b == 0.0
  {
  }

  lemma {:induction false} ZeroSum(terms: seq<BoundExpr>)
    requires EvaluateSum(terms).Some?
    ensures AllZero(terms) <==> EvaluateSum(terms).value == 0.0
    decreases terms, 0
  {
    if terms != [] { ZeroIsZero(terms[0]); ZeroSum(terms[1..]); }
  }

  lemma {:induction false} ZeroMax(terms: seq<BoundExpr>)
    requires EvaluateMax(terms).Some?
    ensures AllZero(terms) <==> EvaluateMax(terms).value == 0.0
    decreases terms, 0
  {
    if terms != [] { ZeroIsZero(terms[0]); ZeroMax(terms[1..]); }
  }

  lemma {:induction false} ZeroProduct(factors: seq<BoundExpr>)
    requires EvaluateProduct(factors).Some?
    ensures AnyZero(factors) <==> EvaluateProduct(factors).value == 0.0
    decreases factors, 0
  {
    if factors != [] {
      ZeroIsZero(factors[0]);
      ZeroProduct(factors[1..]);
      ProductNonNegative(Evaluate(factors[0]).value, EvaluateProduct(factors[1..]).value);
    }
  }

  /** A symbolic failure probability; several events only ever combine by the union bound. */
  datatype ProbabilityExpr =
    | ZeroProbability
    | ConstantProbability(value: real)
    | UnionBound(terms: seq<ProbabilityExpr>)
    | ScaledProbability(count: BoundExpr, inner: ProbabilityExpr)
    | UnknownProbability(statistic: string)

  function Clamp01(r: real): real {
    if r < 0.0 then 0.0 else if r > 1.0 then 1.0 else r
  }

  function Probability(p: ProbabilityExpr): (r: Option<real>)
    ensures r.Some? ==> 0.0 <= r.value <= 1.0
    decreases p, 1
  {
    match p
    case ZeroProbability => Some(0.0)
    case ConstantProbability(value) => if 0.0 <= value <= 1.0 then Some(value) else None
    case UnionBound(terms) =>
      var r := ProbabilitySum(terms);
      if r.None? then None else Some(Clamp01(r.value))
    case ScaledProbability(count, inner) =>
      var n, r := Evaluate(count), Probability(inner);
      if n.Some? && r.Some? then Some(Clamp01(TimesOf(n.value, r.value))) else None
    case UnknownProbability(_) => None
  }

  function ProbabilitySum(terms: seq<ProbabilityExpr>): (r: Option<real>)
    ensures r.Some? ==> r.value >= 0.0
    decreases terms, 0
  {
    if terms == [] then Some(0.0)
    else
      var head, tail := Probability(terms[0]), ProbabilitySum(terms[1..]);
      if head.Some? && tail.Some? then Some(head.value + tail.value) else None
  }

  predicate NeverFails(p: ProbabilityExpr)
    decreases p, 1
  {
    match p
    case ZeroProbability => true
    case ConstantProbability(value) => value == 0.0
    case UnionBound(terms) => NoneFails(terms)
    case ScaledProbability(count, inner) => IsZero(count) || NeverFails(inner)
    case UnknownProbability(_) => false
  }

  predicate NoneFails(terms: seq<ProbabilityExpr>)
    decreases terms, 0
  {
    terms == [] || (NeverFails(terms[0]) && NoneFails(terms[1..]))
  }

  lemma {:induction false} NeverFailsIsZero(p: ProbabilityExpr)
    requires Probability(p).Some?
    ensures NeverFails(p) <==> Probability(p).value == 0.0
    decreases p, 1
  {
    match p {
      case UnionBound(terms) => NoneFailsIsZero(terms);
      case ScaledProbability(count, inner) =>
        ZeroIsZero(count);
        NeverFailsIsZero(inner);
        ProductNonNegative(Evaluate(count).value, Probability(inner).value);
      case _ =>
    }
  }

  lemma {:induction false} NoneFailsIsZero(terms: seq<ProbabilityExpr>)
    requires ProbabilitySum(terms).Some?
    ensures NoneFails(terms) <==> ProbabilitySum(terms).value == 0.0
    decreases terms, 0
  {
    if terms != [] { NeverFailsIsZero(terms[0]); NoneFailsIsZero(terms[1..]); }
  }

  /** How a parent consumes its inputs' values. */
  datatype Operator =
    | CheckedRelativeDivision
    | ApproximateAggregate
    | Lipschitz(constant: real)
    | ExactSum
    | ExactAverage
    | ExactExtremum
    | ExactDivision
    | ExactProduct
    | CounterRate
    | InstantCounterRate
    | CounterIncrease

  /** One entry of a guarantee's trail; equality of guarantees compares the trail too. */
  datatype Source =
    | Exact(reason: string)
    | SketchEvaluation(sketch: nat, distinctCount: bool)
    | ChildGuarantee(inputIndex: nat, guarantee: Guarantee)
    | CompositionStep(operator: Operator, rule: string)
    | UnavailableStatistic(statistic: string)

  /** The error exceeds `error` with probability at most `failure`, for each value separately. */
  datatype Guarantee = Guarantee(metric: Metric, error: BoundExpr, failure: ProbabilityExpr, provenance: seq<Source>) {
    predicate IsExact() {
      IsZero(error) && NeverFails(failure)
    }
  }

  function ExactGuarantee(reason: string): (g: Guarantee)
    ensures g.IsExact()
  {
    Guarantee(Absolute, Zero, ZeroProbability, [Exact(reason)])
  }

  function Errors(gs: seq<Guarantee>): (bs: seq<BoundExpr>)
    ensures |bs| == |gs|
    ensures forall i :: 0 <= i < |gs| ==> bs[i] == gs[i].error
  {
    if gs == [] then [] else [gs[0].error] + Errors(gs[1..])
  }

  function Failures(gs: seq<Guarantee>): (ps: seq<ProbabilityExpr>)
    ensures |ps| == |gs|
    ensures forall i :: 0 <= i < |gs| ==> ps[i] == gs[i].failure
  {
    if gs == [] then [] else [gs[0].failure] + Failures(gs[1..])
  }

  // What follows from a composed bound being known.

  lemma {:induction false} TermOfSum(terms: seq<BoundExpr>, i: nat)
    requires EvaluateSum(terms).Some? && i < |terms|
    ensures Evaluate(terms[i]).Some? && Evaluate(terms[i]).value <= EvaluateSum(terms).value
  {
    if i > 0 { TermOfSum(terms[1..], i - 1); }
  }

  lemma {:induction false} TermOfMax(terms: seq<BoundExpr>, i: nat)
    requires EvaluateMax(terms).Some? && i < |terms|
    ensures Evaluate(terms[i]).Some? && Evaluate(terms[i]).value <= EvaluateMax(terms).value
  {
    if i > 0 { TermOfMax(terms[1..], i - 1); }
  }

  lemma {:induction false} TermOfUnion(terms: seq<ProbabilityExpr>, i: nat)
    requires ProbabilitySum(terms).Some? && i < |terms|
    ensures Probability(terms[i]).Some? && Probability(terms[i]).value <= ProbabilitySum(terms).value
  {
    if i > 0 { TermOfUnion(terms[1..], i - 1); }
  }

  lemma {:induction false} ZeroTerm(terms: seq<BoundExpr>, i: nat)
    requires AllZero(terms) && i < |terms|
    ensures IsZero(terms[i])
  {
    if i > 0 { ZeroTerm(terms[1..], i - 1); }
  }

  lemma {:induction false} NeverFailingTerm(terms: seq<ProbabilityExpr>, i: nat)
    requires NoneFails(terms) && i < |terms|
    ensures NeverFails(terms[i])
  {
    if i > 0 { NeverFailingTerm(terms[1..], i - 1); }
  }
}
