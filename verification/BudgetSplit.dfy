/**
 Equal shares of an accuracy target (crates/accuracy/src/budget.rs): what each
 of several approximate inputs is sized for, and what their composition meets.
 */
module BudgetSplit {
  import opened Composition
  import opened Guarantees
  import opened RealBounds
  import opened Results
  import opened ScalarExprs
  import opened ScalarRules
  import ScalarSoundness

  function Power(x: real, n: nat): real {
    if n == 0 then 1.0 else TimesOf(x, Power(x, n - 1))
  }

  /** `s` is the relative share of `e` among `n` inputs: `(1 - s)^n * (1 + e) = 1`. */
  predicate IsShare(s: real, e: real, n: nat) {
    0.0 < s < 1.0 && TimesOf(Power(1.0 - s, n), 1.0 + e) == 1.0
  }

  datatype Target = Target(maxError: real, failureProbability: Option<real>, metric: Option<Metric>) {
    predicate IsExact() {
      maxError == 0.0 && failureProbability == Some(0.0)
    }
  }

  /** The target of one of `n` inputs; `root` is the n-th root of `1 / (1 + maxError)`. */
  function PerInputTarget(target: Target, metric: Metric, n: nat, root: real): Option<Target> {
    if target.IsExact() || target.maxError <= 0.0 then None
    else if n <= 1 then Some(target)
    else
      var fraction := 1.0 / n as real;
      Some(target.(
        maxError := if metric == Relative then 1.0 - root else TimesOf(target.maxError, fraction),
        failureProbability :=
          if target.failureProbability.Some? then Some(TimesOf(target.failureProbability.value, fraction)) else None))
  }

  predicate IsRoot(root: real, e: real, n: nat) {
    root > 0.0 && TimesOf(Power(root, n), 1.0 + e) == 1.0
  }

  // ------------------------------------------------------------ powers

  lemma {:induction false} PowerPositive(x: real, n: nat)
    requires x > 0.0
    ensures Power(x, n) > 0.0
    ensures x <= 1.0 ==> Power(x, n) <= 1.0
    ensures x < 1.0 && n > 0 ==> Power(x, n) < 1.0
    ensures x >= 1.0 ==> Power(x, n) >= 1.0
  {
    if n > 0 {
      PowerPositive(x, n - 1);
      hide Power;
      UnitProduct(x, Power(x, n - 1));
    }
  }

  lemma UnitProduct(x: real, p: real)
    requires x > 0.0 && p > 0.0
    ensures TimesOf(x, p) > 0.0
    ensures x <= 1.0 && p <= 1.0 ==> TimesOf(x, p) <= 1.0
    ensures x < 1.0 && p <= 1.0 ==> TimesOf(x, p) < 1.0
    ensures x >= 1.0 && p >= 1.0 ==> TimesOf(x, p) >= 1.0
  {
    TimesPositive(x, p);
    if p <= 1.0 { Times(x, p, 1.0); }
    if p >= 1.0 { Times(x, 1.0, p); }
  }

  lemma {:induction false} PowerAdds(x: real, m: nat, n: nat)
    ensures Power(x, m + n) == TimesOf(Power(x, m), Power(x, n))
  {
    if m == 0 {
      TimesOneLeft(Power(x, n));
    } else {
      PowerAdds(x, m - 1, n);
      assert m + n - 1 == (m - 1) + n;
      assert Power(x, m + n) == TimesOf(x, Power(x, (m - 1) + n));
      hide Power;
      Associate(x, Power(x, m - 1), Power(x, n));
    }
  }

  lemma TimesOneLeft(p: real)
    ensures TimesOf(1.0, p) == p
  {
  }

  lemma Associate(x: real, p: real, q: real)
    ensures TimesOf(x, TimesOf(p, q)) == TimesOf(TimesOf(x, p), q)
  {
    Commute(x, p, q);
  }

  lemma {:induction false} PowerShrinks(x: real, m: nat, n: nat)
    requires 0.0 < x <= 1.0 && m <= n
    ensures Power(x, n) <= Power(x, m)
    decreases n
  {
    if m < n {
      PowerShrinks(x, m, n - 1);
      PowerPositive(x, n - 1);
      hide Power;
      ShareOf(x, Power(x, n - 1));
    }
  }

  lemma ShareOf(x: real, p: real)
    requires 0.0 < x <= 1.0 && p > 0.0
    ensures TimesOf(x, p) <= p
  {
    Times(p, x, 1.0);
  }

  lemma {:induction false} PowerStrict(x: real, y: real, n: nat)
    requires 0.0 < x < y && n > 0
    ensures Power(x, n) < Power(y, n)
  {
    assert Power(x, n) == TimesOf(x, Power(x, n - 1)) && Power(y, n) == TimesOf(y, Power(y, n - 1));
    PowerPositive(x, n - 1);
    PowerPositive(y, n - 1);
    if n > 1 {
      PowerStrict(x, y, n - 1);
    } else {
      assert Power(x, 0) == 1.0 && Power(y, 0) == 1.0;
    }
    hide Power;
    StrictProduct(x, y, Power(x, n - 1), Power(y, n - 1));
  }

  lemma StrictProduct(x: real, y: real, p: real, q: real)
    requires 0.0 < x < y && 0.0 < p <= q
    ensures TimesOf(x, p) < TimesOf(y, q)
  {
    Times(x, p, q);
    TimesPositive(y - x, q);
    assert (y - x) * q == y * q - x * q;
  }

  /** A target has one share. */
  lemma ShareIsUnique(s: real, t: real, e: real, n: nat)
    requires IsShare(s, e, n) && IsShare(t, e, n) && n > 0 && e > 0.0
    ensures s == t
  {
    hide Power;
    if s < t {
      PowerStrict(1.0 - t, 1.0 - s, n);
      StrictScale(Power(1.0 - t, n), Power(1.0 - s, n), 1.0 + e);
    } else if t < s {
      PowerStrict(1.0 - s, 1.0 - t, n);
      StrictScale(Power(1.0 - s, n), Power(1.0 - t, n), 1.0 + e);
    }
  }

  lemma StrictScale(p: real, q: real, k: real)
    requires p < q && k > 0.0
    ensures TimesOf(p, k) < TimesOf(q, k)
  {
    TimesPositive(q - p, k);
    assert (q - p) * k == q * k - p * k;
  }

  /** What one of several inputs is sized for: its relative share, or its fraction of an additive error and of delta. */
  lemma PerInputShares(target: Target, metric: Metric, n: nat, root: real)
    requires n >= 2 && target.maxError > 0.0 && IsRoot(root, target.maxError, n)
    ensures PerInputTarget(target, metric, n, root).Some?
    ensures var share := PerInputTarget(target, metric, n, root).value;
      && (metric == Relative ==> IsShare(share.maxError, target.maxError, n))
      && (metric != Relative ==> n as real * share.maxError == target.maxError)
      && (target.failureProbability.Some? ==>
            share.failureProbability.Some? && n as real * share.failureProbability.value == target.failureProbability.value)
      && (target.failureProbability.None? ==> share.failureProbability.None?)
      && share.metric == target.metric
  {
    RootBelowOne(root, target.maxError, n);
    hide Power, TimesOf;
    WholeOfFractions(target.maxError, n);
    if target.failureProbability.Some? { WholeOfFractions(target.failureProbability.value, n); }
    assert 1.0 - (1.0 - root) == root;
  }

  lemma WholeOfFractions(e: real, n: nat)
    requires n > 0
    ensures n as real * TimesOf(e, 1.0 / n as real) == e
  {
    var k := n as real;
    var f := 1.0 / k;
    assert k * f == 1.0;
    Commute(k, e, f);
  }

  lemma RootBelowOne(root: real, e: real, n: nat)
    requires IsRoot(root, e, n) && e > 0.0
    ensures root < 1.0
  {
    PowerPositive(root, n);
    hide Power;
    if root >= 1.0 { UnitBelow(Power(root, n), e); }
  }

  lemma UnitBelow(p: real, e: real)
    requires p >= 1.0 && e > 0.0
    ensures TimesOf(p, 1.0 + e) > 1.0
  {
    Times(1.0 + e, 1.0, p);
  }

  // ------------------------------------- products and quotients of inputs

  /** A tree of products and quotients over columns, relations and literals. */
  predicate IsRatio(e: Expr) {
    match e
    case Column(_) => true
    case Relation(_) => true
    case Literal(_) => true
    case Arithmetic(op, left, right) => (op == Mul || op == Div) && IsRatio(left) && IsRatio(right)
    case _ => false
  }

  /** How often the tree reads an approximate column or relation. */
  function Reads(e: Expr, columns: set<nat>, relations: set<nat>): nat {
    match e
    case Column(id) => if id in columns then 1 else 0
    case Relation(node) => if node in relations then 1 else 0
    case Arithmetic(_, left, right) => Reads(left, columns, relations) + Reads(right, columns, relations)
    case _ => 0
  }

  /** Approximate inputs within relative `s` of the truth, and every other one equal to it. */
  ghost predicate InputsWithin(truth: Env, estimate: Env, columns: set<nat>, relations: set<nat>, s: real) {
    && (forall c: nat :: if c in columns then Close(Relative, Some(s), truth.column(c), estimate.column(c))
                         else truth.column(c) == estimate.column(c))
    && (forall n: nat :: if n in relations then Close(Relative, Some(s), truth.relation(n), estimate.relation(n))
                         else truth.relation(n) == estimate.relation(n))
  }

  /** The estimate is `ratio` times the truth, and the ratio within `low` and `1 / low`. */
  ghost predicate RatioWithin(truth: Value, estimate: Value, low: real, ratio: real) {
    && low > 0.0
    && low <= ratio
    && TimesOf(ratio, low) <= 1.0
    && truth.Number? == estimate.Number?
    && (if truth.Number? then estimate.value == TimesOf(ratio, truth.value) else truth == estimate)
  }

  lemma SameRatio(v: Value)
    ensures RatioWithin(v, v, 1.0, 1.0)
  {
  }

  /** An input within relative `s` is off by a factor between `1 - s` and `1 / (1 - s)`. */
  lemma LeafRatio(truth: Value, estimate: Value, s: real) returns (ratio: real)
    requires 0.0 < s < 1.0 && Close(Relative, Some(s), truth, estimate)
    ensures RatioWithin(truth, estimate, 1.0 - s, ratio)
  {
    Numbers(Relative, s, truth, estimate);
    hide Close;
    if truth.Number? && truth.value != 0.0 {
      ratio := estimate.value / truth.value;
      QuotientTimesDivisor(estimate.value, truth.value);
      hide *;
      RatioOfNumbers(truth.value, estimate.value, ratio, s);
    } else {
      ratio := 1.0;
      assert TimesOf(1.0, 1.0 - s) <= 1.0;
      if truth.Number? { RelativeKeepsSign(truth.value, estimate.value, s); }
    }
  }

  lemma QuotientTimesDivisor(p: real, q: real)
    requires q != 0.0
    ensures p == TimesOf(p / q, q)
  {
  }

  lemma RatioOfNumbers(t: real, x: real, ratio: real, s: real)
    requires 0.0 < s < 1.0 && t != 0.0 && x == TimesOf(ratio, t) && Distance(x, t) <= s * Magnitude(t)
    ensures 1.0 - s <= ratio && TimesOf(ratio, 1.0 - s) <= 1.0
  {
    RatioDistance(t, x, ratio, s);
    hide *;
    ClampedRatio(ratio, s);
  }

  lemma RatioDistance(t: real, x: real, ratio: real, s: real)
    requires t != 0.0 && x == TimesOf(ratio, t) && Distance(x, t) <= s * Magnitude(t)
    ensures Magnitude(ratio - 1.0) <= s
  {
    Unfold(ratio, t);
    assert x - t == (ratio - 1.0) * t;
    assert Distance(x, t) == Magnitude((ratio - 1.0) * t);
    MagnitudeOfProduct(ratio - 1.0, t);
    MagnitudeZero(t);
    hide *;
    CancelPositive(Magnitude(ratio - 1.0), s, Magnitude(t));
  }

  lemma Unfold(a: real, b: real)
    ensures TimesOf(a, b) == a * b
    ensures TimesOf(a, b) == TimesOf(b, a)
  {
  }

  lemma ClampedRatio(ratio: real, s: real)
    requires 0.0 < s < 1.0 && Magnitude(ratio - 1.0) <= s
    ensures 1.0 - s <= ratio && TimesOf(ratio, 1.0 - s) <= 1.0
  {
    Times(1.0 - s, ratio, 1.0 + s);
    Unfold(1.0 - s, ratio);
    assert (1.0 - s) * (1.0 + s) == 1.0 - s * s;
    ProductNonNegative(s, s);
  }

  lemma RatioProduct(x: Value, x': Value, y: Value, y': Value, p: real, q: real, a: real, b: real, sem: Semantics)
    requires RatioWithin(x, x', p, a) && RatioWithin(y, y', q, b)
    ensures RatioWithin(Compute(Mul, x, y, sem), Compute(Mul, x', y', sem), TimesOf(p, q), TimesOf(a, b))
  {
    BoundsMultiply(p, q, a, b);
    if x.Number? && y.Number? {
      ProductIs(x.value, y.value, sem);
      ProductIs(x'.value, y'.value, sem);
      Regroup(a, x.value, b, y.value);
    }
    hide TimesOf;
  }

  lemma BoundsMultiply(p: real, q: real, a: real, b: real)
    requires 0.0 < p <= a && 0.0 < q <= b && TimesOf(a, p) <= 1.0 && TimesOf(b, q) <= 1.0
    ensures TimesOf(p, q) > 0.0 && TimesOf(p, q) <= TimesOf(a, b)
    ensures TimesOf(TimesOf(a, b), TimesOf(p, q)) <= 1.0
  {
    PositiveTimes(p, q);
    PositiveTimes(a, p);
    PositiveTimes(b, q);
    LargerTimes(p, a, q, b);
    Regroup(a, p, b, q);
    UnitProduct(TimesOf(a, p), TimesOf(b, q));
    hide *;
  }

  lemma PositiveTimes(p: real, q: real)
    requires p > 0.0 && q > 0.0
    ensures TimesOf(p, q) > 0.0
  {
    TimesPositive(p, q);
  }

  lemma LargerTimes(p: real, a: real, q: real, b: real)
    requires 0.0 < p <= a && 0.0 < q <= b
    ensures TimesOf(p, q) <= TimesOf(a, b)
  {
    Times(p, q, b);
    Times(b, p, a);
  }

  lemma Regroup(a: real, p: real, b: real, q: real)
    ensures TimesOf(TimesOf(a, p), TimesOf(b, q)) == TimesOf(TimesOf(a, b), TimesOf(p, q))
    ensures TimesOf(a, p) * TimesOf(b, q) == TimesOf(TimesOf(a, b), p * q)
  {
    Commute(p, b, q);
    Commute(a, p, b * q);
    Commute(a, b, p * q);
  }

  lemma RatioQuotient(x: Value, x': Value, y: Value, y': Value, p: real, q: real, a: real, b: real, sem: Semantics)
    requires RatioWithin(x, x', p, a) && RatioWithin(y, y', q, b)
    ensures b > 0.0
    ensures RatioWithin(Compute(Div, x, y, sem), Compute(Div, x', y', sem), TimesOf(p, q), a / b)
  {
    ComputeIs(Div, x, y, sem);
    ComputeIs(Div, x', y', sem);
    InverseBounds(q, b);
    BoundsMultiply(p, q, a, 1.0 / b);
    DividedIs(a, b);
    if x.Number? && y.Number? {
      FactorKeepsZero(b, y.value);
      if y.value != 0.0 { QuotientsScale(a, x.value, b, y.value); }
    }
    hide TimesOf, Compute;
  }

  lemma InverseBounds(q: real, b: real)
    requires 0.0 < q <= b && TimesOf(b, q) <= 1.0
    ensures b > 0.0 && 0.0 < q <= 1.0 / b && TimesOf(1.0 / b, q) <= 1.0
  {
    var i := 1.0 / b;
    assert i * b == 1.0;
    Unfold(b, q);
    Unfold(i, q);
    hide *;
    InverseBetween(q, b, i);
  }

  lemma InverseBetween(q: real, b: real, i: real)
    requires 0.0 < q <= b && b * q <= 1.0 && i * b == 1.0
    ensures 0.0 < q <= i && i * q <= 1.0
  {
    assert q * b == b * q;
    CancelPositive(q, i, b);
    Times(i, q, b);
  }

  lemma DividedIs(a: real, b: real)
    requires b != 0.0
    ensures TimesOf(a, 1.0 / b) == a / b
  {
    var i := 1.0 / b;
    assert i * b == 1.0;
    var q := a / b;
    assert q * b == a;
    Commute(q, b, i);
    assert a * i == q * (b * i);
    assert b * i == 1.0;
  }

  lemma FactorKeepsZero(b: real, y: real)
    requires b > 0.0
    ensures TimesOf(b, y) == 0.0 <==> y == 0.0
  {
  }

  lemma QuotientsScale(a: real, x: real, b: real, y: real)
    requires b > 0.0 && y != 0.0
    ensures TimesOf(b, y) != 0.0
    ensures TimesOf(a, x) / TimesOf(b, y) == TimesOf(a / b, x / y)
  {
    FactorKeepsZero(b, y);
    QuotientTimesDivisor(a, b);
    QuotientTimesDivisor(x, y);
    Regroup(a / b, b, x / y, y);
    hide *;
    UniqueQuotient(TimesOf(a, x), TimesOf(b, y), TimesOf(a / b, x / y));
  }

  lemma UniqueQuotient(p: real, q: real, r: real)
    requires q != 0.0 && p == TimesOf(r, q)
    ensures p / q == r
  {
  }

  /** The whole tree is off by at most the product of its inputs' factors. */
  lemma {:induction false} TreeRatio(e: Expr, truth: Env, estimate: Env, columns: set<nat>, relations: set<nat>,
                                     s: real,
                                     sem: Semantics)
    returns (ratio: real)
    requires IsRatio(e) && 0.0 < s < 1.0 && InputsWithin(truth, estimate, columns, relations, s)
    ensures RatioWithin(Eval(e, truth, sem), Eval(e, estimate, sem), Power(1.0 - s, Reads(e, columns, relations)), ratio)
  {
    hide Close, RatioWithin;
    match e {
      case Column(id) =>
        if id in columns { ratio := LeafRatio(truth.column(id), estimate.column(id), s); PowerOne(1.0 - s); }
        else { SameRatio(truth.column(id)); ratio := 1.0; }
      case Relation(node) =>
        if node in relations { ratio := LeafRatio(truth.relation(node), estimate.relation(node), s); PowerOne(1.0 - s); }
        else { SameRatio(truth.relation(node)); ratio := 1.0; }
      case Literal(value) => SameRatio(value); ratio := 1.0;
      case Arithmetic(op, left, right) =>
        var a := TreeRatio(left, truth, estimate, columns, relations, s, sem);
        var b := TreeRatio(right, truth, estimate, columns, relations, s, sem);
        var m, n := Reads(left, columns, relations), Reads(right, columns, relations);
        PowerAdds(1.0 - s, m, n);
        var x, y := Eval(left, truth, sem), Eval(right, truth, sem);
        var x', y' := Eval(left, estimate, sem), Eval(right, estimate, sem);
        ratio := RatioStep(op, x, x', y, y', Power(1.0 - s, m), Power(1.0 - s, n), a, b, sem);
    }
  }

  lemma RatioStep(op: ArithmeticOp, x: Value, x': Value, y: Value, y': Value, p: real, q: real, a: real, b: real,
                  sem: Semantics)
    returns (ratio: real)
    requires op == Mul || op == Div
    requires RatioWithin(x, x', p, a) && RatioWithin(y, y', q, b)
    ensures RatioWithin(Compute(op, x, y, sem), Compute(op, x', y', sem), TimesOf(p, q), ratio)
  {
    hide *;
    if op == Mul {
      RatioProduct(x, x', y, y', p, q, a, b, sem);
      ratio := TimesOf(a, b);
    } else {
      RatioQuotient(x, x', y, y', p, q, a, b, sem);
      ratio := a / b;
    }
  }

  lemma PowerOne(x: real)
    ensures Power(x, 1) == x && Power(x, 0) == 1.0
  {
    assert Power(x, 1) == TimesOf(x, Power(x, 0));
  }

  /**
   The split meets its target: any tree of products and quotients that reads at
   most `n` approximate inputs, each within its share, is within the target.
   */
  lemma SplitMeetsTarget(e: Expr, truth: Env, estimate: Env, columns: set<nat>, relations: set<nat>, s: real,
                         eps: real, n: nat,
                         sem: Semantics)
    requires IsRatio(e) && eps > 0.0 && IsShare(s, eps, n)
    requires InputsWithin(truth, estimate, columns, relations, s) && Reads(e, columns, relations) <= n
    ensures Close(Relative, Some(eps), Eval(e, truth, sem), Eval(e, estimate, sem))
  {
    var ratio := TreeRatio(e, truth, estimate, columns, relations, s, sem);
    PowerShrinks(1.0 - s, Reads(e, columns, relations), n);
    var low := Power(1.0 - s, Reads(e, columns, relations));
    PowerPositive(1.0 - s, n);
    hide Eval, Power, Close, IsRatio, InputsWithin, Reads;
    RatioMeets(Eval(e, truth, sem), Eval(e, estimate, sem), low, ratio, Power(1.0 - s, n), eps);
  }

  lemma RatioMeets(truth: Value, estimate: Value, low: real, ratio: real, share: real, eps: real)
    requires RatioWithin(truth, estimate, low, ratio) && 0.0 < share <= low && TimesOf(share, 1.0 + eps) == 1.0
        && eps > 0.0
    ensures Close(Relative, Some(eps), truth, estimate)
  {
    RatioNearOne(low, ratio, share, eps);
    if truth.Number? {
      FactorDistance(truth.value, ratio, eps);
      hide *;
      RelativeNumbers(eps, truth.value, estimate.value);
    }
  }

  lemma RatioNearOne(low: real, ratio: real, share: real, eps: real)
    requires 0.0 < share <= low <= ratio && TimesOf(ratio, low) <= 1.0 && TimesOf(share, 1.0 + eps) == 1.0 && eps > 0.0
    ensures Magnitude(ratio - 1.0) <= eps
  {
    UpperRatio(low, ratio, share, eps);
    LowerRatio(ratio, share, eps);
  }

  lemma UpperRatio(low: real, ratio: real, share: real, eps: real)
    requires 0.0 < share <= low && ratio > 0.0 && TimesOf(ratio, low) <= 1.0 && TimesOf(share, 1.0 + eps) == 1.0
    ensures ratio <= 1.0 + eps
  {
    Unfold(ratio, low);
    Unfold(share, 1.0 + eps);
    hide *;
    BelowInverse(low, ratio, share, 1.0 + eps);
  }

  lemma BelowInverse(low: real, ratio: real, share: real, most: real)
    requires 0.0 < share <= low && ratio > 0.0 && ratio * low <= 1.0 && share * most == 1.0
    ensures ratio <= most
  {
    Times(ratio, share, low);
    assert most * share == share * most;
    CancelPositive(ratio, most, share);
  }

  lemma LowerRatio(ratio: real, share: real, eps: real)
    requires share <= ratio && TimesOf(share, 1.0 + eps) == 1.0 && eps > 0.0
    ensures ratio >= 1.0 - eps
  {
    assert (1.0 - eps) * (1.0 + eps) == 1.0 - eps * eps;
    ProductNonNegative(eps, eps);
    CancelPositive(1.0 - eps, share, 1.0 + eps);
  }

  lemma FactorDistance(t: real, ratio: real, eps: real)
    requires Magnitude(ratio - 1.0) <= eps
    ensures Distance(TimesOf(ratio, t), t) <= eps * Magnitude(t)
  {
    assert ratio * t - t == (ratio - 1.0) * t;
    MagnitudeOfProduct(ratio - 1.0, t);
    Times(Magnitude(t), Magnitude(ratio - 1.0), eps);
  }

  // --------------------------------------------- the bounds plans compose

  lemma ShareOfTwo(s: real, eps: real)
    requires IsShare(s, eps, 2)
    ensures (1.0 - s) * (1.0 - s) * (1.0 + eps) == 1.0
  {
    PowerOne(1.0 - s);
    assert Power(1.0 - s, 2) == TimesOf(1.0 - s, Power(1.0 - s, 1));
  }

  /** The bound a quotient of two shares composes to, `(a + b) / (1 - b)`, meets the target. */
  lemma QuotientOfTwoMeets(s: real, eps: real)
    requires IsShare(s, eps, 2)
    ensures (s + s) / (1.0 - s) <= eps
  {
    ShareOfTwo(s, eps);
    var c := 1.0 - s;
    assert c > 0.0;
    TwiceAtMost(s, c, eps);
    DivideBound(s + s, c, eps);
  }

  lemma TwiceAtMost(s: real, c: real, eps: real)
    requires c == 1.0 - s && 0.0 < s < 1.0 && c * c * (1.0 + eps) == 1.0
    ensures s + s <= eps * c
  {
    var k := 1.0 + eps;
    Commute(c, c, k);
    assert c * (c * k) == 1.0;
    // c * k >= 1 + s, since (1 + s) * c <= 1
    assert (1.0 + s) * c == 1.0 - s * s;
    ProductNonNegative(s, s);
    CancelPositive(1.0 + s, c * k, c);
    assert c * k == c + c * eps;
  }

  /** The bound a product of two shares composes to, `a + b + ab`, meets the target. */
  lemma ProductOfTwoMeets(s: real, eps: real)
    requires IsShare(s, eps, 2)
    ensures s + s + s * s <= eps
  {
    ShareOfTwo(s, eps);
    var c := 1.0 - s;
    TwiceAtMost(s, c, eps);
    var k := 1.0 + eps;
    Commute(c, c, k);
    assert c * (c * k) == 1.0;
    assert (1.0 + s) * c == 1.0 - s * s;
    ProductNonNegative(s, s);
    CancelPositive(1.0 + s, c * k, c);
    SquareBelow(s, c, k);
  }

  lemma SquareBelow(s: real, c: real, k: real)
    requires 0.0 < s < 1.0 && c == 1.0 - s && 1.0 + s <= c * k
    ensures s + s + s * s <= k - 1.0
  {
    var g, w := 1.0 + s, (1.0 + s) * c;
    assert w == 1.0 - s * s;
    ProductNonNegative(s, s);
    Times(g, g, c * k);
    Commute(g, c, k);
    assert g * g == 1.0 + s + s + s * s;
    assert g * (c * k) == w * k;
    hide *;
    if k <= 0.0 { Times(c, k, 0.0); }
    Times(k, w, 1.0);
    AtMost(g * g, w, k);
  }

  lemma AtMost(x: real, w: real, k: real)
    requires x <= w * k && k * w <= k * 1.0
    ensures x <= k
  {
  }

  /** As the algebra composes them: a product of two inputs of one share evaluates within the target. */
  lemma ComposedProductMeets(l: Guarantee, r: Guarantee, s: real, eps: real)
    requires IsShare(s, eps, 2) && l.metric == Relative && r.metric == Relative
    requires Evaluate(l.error) == Some(s) && Evaluate(r.error) == Some(s)
    ensures RelativeProductGuarantee(l, r).Some?
    ensures var bound := BoundOf(RelativeProductGuarantee(l, r).value.error); bound.Some? ==> bound.value <= eps
  {
    KnownBound(l.error);
    KnownBound(r.error);
    ProductOfTwoMeets(s, eps);
    ProductUnfolded(s, s);
    hide BoundOf, Evaluate, IsShare, TimesOf;
    if BoundOf(RelativeProductGuarantee(l, r).value.error).Some? { BoundOfRelativeProduct(l.error, r.error); }
  }

  /** As the algebra composes them: a quotient of two inputs of one share evaluates within the target. */
  lemma ComposedQuotientMeets(l: Guarantee, r: Guarantee, s: real, eps: real)
    requires IsShare(s, eps, 2) && l.metric == Relative && r.metric == Relative
    requires Evaluate(l.error) == Some(s) && Evaluate(r.error) == Some(s)
    ensures Compose(ExactDivision, [l, r], None).Some?
    ensures BoundOf(Compose(ExactDivision, [l, r], None).value.error).Some?
    ensures BoundOf(Compose(ExactDivision, [l, r], None).value.error).value <= eps
  {
    hide Compose, BoundOf, Evaluate, Power;
    QuotientOfTwoMeets(s, eps);
    QuotientBound(l, r);
  }

  /** A division of a relative divisor below one composes `(a + b) / (1 - b)`; at one or above it is refused. */
  lemma QuotientBound(l: Guarantee, r: Guarantee)
    requires ExactOrRelative(l) && r.metric == Relative && Evaluate(l.error).Some? && Evaluate(r.error).Some?
    requires Evaluate(r.error).value > 0.0
    ensures Compose(ExactDivision, [l, r], None).Some? <==> Evaluate(r.error).value < 1.0
    ensures Evaluate(r.error).value < 1.0 ==>
      var g := Compose(ExactDivision, [l, r], None).value;
      && g.metric == Relative
      && Evaluate(g.error) == Some((Evaluate(l.error).value + Evaluate(r.error).value) / (1.0 - Evaluate(r.error).value))
      && BoundOf(g.error) == Evaluate(g.error)
  {
    hide ComposedProvenance, Failures;
    ZeroIsZero(r.error);
    DivisionComposed(l, r);
    assert [l, r][0] == l && [l, r][1] == r;
    assert SameMetric([l, r], Relative);
    hide Compose, SameMetric;
    var a, b := Evaluate(l.error).value, Evaluate(r.error).value;
    if b < 1.0 {
      NonNegativeQuotient(a + b, 1.0 - b);
      var g := Compose(ExactDivision, [l, r], None).value;
      assert g.error == Constant((a + b) / (1.0 - b));
      KnownBound(g.error);
    }
  }

  /**
   A quotient of a quotient composes each step's slack: `x / (y / z)` over three
   shares, whose true error meets the target, is refused or given a bound beyond it.
   */
  lemma NestedQuotientMisses(x: Guarantee, y: Guarantee, z: Guarantee, s: real, eps: real)
    requires IsShare(s, eps, 3) && x.metric == y.metric == z.metric == Relative
    requires Evaluate(x.error) == Evaluate(y.error) == Evaluate(z.error) == Some(s)
    ensures Compose(ExactDivision, [y, z], None).Some?
    ensures var outer := Compose(ExactDivision, [x, Compose(ExactDivision, [y, z], None).value], None);
      && (outer.Some? <==> s < 1.0 / 3.0)
      && (outer.Some? ==> Evaluate(outer.value.error).Some? && Evaluate(outer.value.error).value > eps)
  {
    hide Compose, BoundOf, Evaluate, Power;
    QuotientBound(y, z);
    var inner := Compose(ExactDivision, [y, z], None).value;
    InnerBound(s, (s + s) / (1.0 - s));
    QuotientBound(x, inner);
    if s < 1.0 / 3.0 { NestedBound(s, eps); }
  }

  lemma InnerBound(s: real, inner: real)
    requires 0.0 < s < 1.0 && inner == (s + s) / (1.0 - s)
    ensures inner > 0.0 && (inner < 1.0 <==> s < 1.0 / 3.0)
  {
    var c := 1.0 - s;
    assert inner * c == s + s;
    if inner <= 0.0 { Times(c, inner, 0.0); }
    if inner < 1.0 { TimesPositive(1.0 - inner, c); assert (1.0 - inner) * c == c - inner * c; }
    if inner >= 1.0 { Times(c, 1.0, inner); }
  }

  lemma NestedBound(s: real, eps: real)
    requires IsShare(s, eps, 3) && s < 1.0 / 3.0
    ensures var inner := (s + s) / (1.0 - s);
      inner < 1.0 && (s + inner) / (1.0 - inner) > eps
  {
    var c := 1.0 - s;
    PowerOne(c);
    assert Power(c, 2) == TimesOf(c, Power(c, 1)) && Power(c, 3) == TimesOf(c, Power(c, 2));
    var inner := (s + s) / c;
    assert inner * c == s + s;
    InnerBelowOne(s, c, inner);
    hide Power;
    var outer := (s + inner) / (1.0 - inner);
    assert outer * (1.0 - inner) == s + inner;
    OuterTimesC(s, c, inner, outer);
    var q, square := s * s, c * c;
    SquarePositive(s, q);
    TimesPositive(s, q);
    SquareOf(s, q, c);
    CubeOf(s, q, s * q, c, square);
    Expand(s, q, s * q, c * square);
    NestedAbove(s, c, outer, eps);
  }

  lemma InnerBelowOne(s: real, c: real, inner: real)
    requires 0.0 < s < 1.0 / 3.0 && c == 1.0 - s && inner * c == s + s
    ensures 0.0 < inner < 1.0
  {
    if inner >= 1.0 { Times(c, 1.0, inner); }
    if inner <= 0.0 { Times(c, inner, 0.0); }
  }

  lemma OuterTimesC(s: real, c: real, inner: real, outer: real)
    requires c == 1.0 - s && inner * c == s + s && outer * (1.0 - inner) == s + inner
    ensures outer * (1.0 - 3.0 * s) == 3.0 * s - s * s
  {
    assert (1.0 - inner) * c == c - inner * c == 1.0 - 3.0 * s;
    Commute(outer, 1.0 - inner, c);
    assert outer * ((1.0 - inner) * c) == (outer * (1.0 - inner)) * c;
    assert (s + inner) * c == s * c + inner * c == 3.0 * s - s * s;
  }

  lemma SquarePositive(s: real, q: real)
    requires s > 0.0 && q == s * s
    ensures q > 0.0
  {
    ProductNonNegative(s, s);
  }

  lemma SquareOf(s: real, q: real, c: real)
    requires c == 1.0 - s && q == s * s
    ensures c * c == 1.0 - 2.0 * s + q
  {
    assert c * c == c - s * c;
  }

  lemma CubeOf(s: real, q: real, t: real, c: real, square: real)
    requires c == 1.0 - s && q == s * s && t == s * q && square == 1.0 - 2.0 * s + q
    ensures c * square == 1.0 - 3.0 * s + 3.0 * q - t
  {
    assert s * square == s - 2.0 * q + t;
    assert c * square == square - s * square;
  }

  /** `(1 - s^2) * (1 - s)^3 > 1 - 3s`. */
  lemma Expand(s: real, q: real, t: real, cube: real)
    requires 0.0 < s < 1.0 && q == s * s && t == s * q && q > 0.0 && t > 0.0
    requires cube == 1.0 - 3.0 * s + 3.0 * q - t
    ensures (1.0 - q) * cube > 1.0 - 3.0 * s
  {
    assert q * cube == q - 3.0 * (s * q) + 3.0 * (q * q) - q * t;
    assert (1.0 - q) * cube == cube - q * cube;
    // what remains is 2q + 2t - 3q^2 + qt, and q^2 < t < q
    SmallSquare(s, q, t);
  }

  lemma SmallSquare(s: real, q: real, t: real)
    requires 0.0 < s < 1.0 && q == s * s && t == s * q && q > 0.0
    ensures q * q < t < q && q * t > 0.0
  {
    TimesPositive(s, q);
    TimesPositive(q, 1.0 - s);
    assert q * (1.0 - s) == q - q * s;
    Commute(q, s, s);
    assert q * q == s * (q * s);
    TimesPositive(t, 1.0 - s);
    assert t * (1.0 - s) == t - t * s;
    TimesPositive(q, t);
  }

  lemma NestedAbove(s: real, c: real, outer: real, eps: real)
    requires 0.0 < s < 1.0 / 3.0 && c == 1.0 - s
    requires outer * (1.0 - 3.0 * s) == 3.0 * s - s * s
    requires (1.0 - s * s) * (c * (c * c)) > 1.0 - 3.0 * s
    requires TimesOf(TimesOf(c, TimesOf(c, c)), 1.0 + eps) == 1.0
    ensures outer > eps
  {
    var cube, d, k := c * (c * c), 1.0 - 3.0 * s, 1.0 + eps;
    assert cube * k == 1.0;
    assert (1.0 + outer) * d == 1.0 - s * s;
    TimesPositive(c, c);
    TimesPositive(c, c * c);
    hide *;
    CompareInverse(1.0 + outer, d, 1.0 - s * s, cube, k);
  }

  lemma CompareInverse(g: real, d: real, n: real, cube: real, k: real)
    requires d > 0.0 && cube > 0.0 && g * d == n && n * cube > d && cube * k == 1.0
    ensures g > k
  {
    Commute(g, d, cube);
    assert (g * cube) * d == n * cube by { Commute(g, cube, d); assert cube * d == d * cube; }
    if g * cube <= 1.0 { Times(d, g * cube, 1.0); }
    if g <= k { Times(cube, g, k); }
  }

  /** A lone approximate denominator gets the whole target, and its quotient is refused or its bound misses it. */
  lemma LoneDenominatorMisses(l: Guarantee, r: Guarantee, eps: real)
    requires l.IsExact() && Evaluate(l.error) == Some(0.0)
    requires r.metric == Relative && Evaluate(r.error) == Some(eps) && eps > 0.0
    ensures Compose(ExactDivision, [l, r], None).Some? <==> eps < 1.0
    ensures eps < 1.0 ==>
      var bound := Evaluate(Compose(ExactDivision, [l, r], None).value.error);
      bound.Some? && bound.value > eps
  {
    hide Compose, BoundOf, Evaluate;
    QuotientBound(l, r);
    if eps < 1.0 { LoneBound(eps); }
  }

  lemma LoneBound(eps: real)
    requires 0.0 < eps < 1.0
    ensures (0.0 + eps) / (1.0 - eps) > eps
  {
    var bound := (0.0 + eps) / (1.0 - eps);
    assert bound * (1.0 - eps) == eps;
    assert eps * (1.0 - eps) == eps - eps * eps;
    TimesPositive(eps, eps);
    if bound <= eps { Times(1.0 - eps, bound, eps); }
  }

  /** The product of `m` reads of one column. */
  function ReadTimes(m: nat): Expr {
    if m == 0 then Literal(Number(1.0)) else Arithmetic(Mul, Column(0), ReadTimes(m - 1))
  }

  /** Every estimate of a lone input within the target leaves the product of its `m` reads within it. */
  ghost predicate ReadsMeet(m: nat, eps: real, sem: Semantics) {
    forall truth: Env, estimate: Env :: InputsWithin(truth, estimate, {0}, {}, eps) ==>
      Close(Relative, Some(eps), Eval(ReadTimes(m), truth, sem), Eval(ReadTimes(m), estimate, sem))
  }

  /**
   Inputs are counted once each, so a lone input is sized for the whole target
   however often it is read: its powers meet the target exactly when it is read
   at most once.
   */
  lemma ReadsMeetIffOnce(m: nat, eps: real, sem: Semantics)
    requires eps > 0.0
    ensures ReadsMeet(m, eps, sem) <==> m <= 1
  {
    hide Close, InputsWithin;
    if m <= 1 {
      forall truth: Env, estimate: Env | InputsWithin(truth, estimate, {0}, {}, eps)
        ensures Close(Relative, Some(eps), Eval(ReadTimes(m), truth, sem), Eval(ReadTimes(m), estimate, sem))
      {
        ReadOnce(m, truth, estimate, eps, sem);
      }
    } else {
      var truth := Env((c: nat) => Number(1.0), (n: nat) => Undefined);
      var estimate := Env((c: nat) => Number(if c == 0 then 1.0 + eps else 1.0), (n: nat) => Undefined);
      OffByTarget(truth, estimate, eps);
      EvalReads(m, truth, sem, 1.0);
      EvalReads(m, estimate, sem, 1.0 + eps);
      PowerPositive(1.0, m);
      PowerFar(m, eps);
    }
  }

  lemma ReadOnce(m: nat, truth: Env, estimate: Env, eps: real, sem: Semantics)
    requires m <= 1 && eps > 0.0 && InputsWithin(truth, estimate, {0}, {}, eps)
    ensures Close(Relative, Some(eps), Eval(ReadTimes(m), truth, sem), Eval(ReadTimes(m), estimate, sem))
  {
    assert Eval(ReadTimes(0), truth, sem) == Eval(ReadTimes(0), estimate, sem) == Number(1.0);
    SameIsClose(Relative, eps, Number(1.0));
    if m == 1 {
      var x, x' := truth.column(0), estimate.column(0);
      assert Close(Relative, Some(eps), x, x');
      Numbers(Relative, eps, x, x');
      EvalOnce(truth, sem);
      EvalOnce(estimate, sem);
      SameIsClose(Relative, eps, Undefined);
    }
  }

  lemma EvalOnce(env: Env, sem: Semantics)
    ensures Eval(ReadTimes(1), env, sem) == if env.column(0).Number? then env.column(0) else Undefined
  {
    assert ReadTimes(1) == Arithmetic(Mul, Column(0), Literal(Number(1.0)));
    ScalarSoundness.EvalArithmetic(Mul, Column(0), Literal(Number(1.0)), env, sem);
    if env.column(0).Number? { ProductIs(env.column(0).value, 1.0, sem); }
  }

  lemma OffByTarget(truth: Env, estimate: Env, eps: real)
    requires eps > 0.0
    requires forall c: nat :: truth.column(c) == Number(1.0)
    requires forall c: nat :: estimate.column(c) == Number(if c == 0 then 1.0 + eps else 1.0)
    requires forall n: nat :: truth.relation(n) == estimate.relation(n)
    ensures InputsWithin(truth, estimate, {0}, {}, eps)
  {
    assert Magnitude(1.0) == 1.0;
    RelativeNumbers(eps, 1.0, 1.0 + eps);
  }

  lemma {:induction false} EvalReads(m: nat, env: Env, sem: Semantics, x: real)
    requires env.column(0) == Number(x)
    ensures Eval(ReadTimes(m), env, sem) == Number(Power(x, m))
  {
    if m > 0 {
      EvalReads(m - 1, env, sem, x);
      ScalarSoundness.EvalArithmetic(Mul, Column(0), ReadTimes(m - 1), env, sem);
      hide Power;
      ProductIs(x, Power(x, m - 1), sem);
    }
  }

  /** `(1 + eps)^m` is beyond `1 + eps` from the second power on. */
  lemma PowerFar(m: nat, eps: real)
    requires m >= 2 && eps > 0.0
    ensures Power(1.0, m) == 1.0
    ensures !Close(Relative, Some(eps), Number(Power(1.0, m)), Number(Power(1.0 + eps, m)))
  {
    PowersOfOne(m);
    PowerAboveOne(1.0 + eps, m - 1);
    assert Power(1.0 + eps, m) == TimesOf(1.0 + eps, Power(1.0 + eps, m - 1));
    hide Power;
    StrictProduct(1.0, 1.0 + eps, 1.0 + eps, 1.0 + eps);
    BeyondTarget(eps, Power(1.0 + eps, m - 1), Power(1.0 + eps, m));
  }

  lemma BeyondTarget(eps: real, p: real, q: real)
    requires eps > 0.0 && p >= 1.0 + eps && q == TimesOf(1.0 + eps, p)
    ensures !Close(Relative, Some(eps), Number(1.0), Number(q))
  {
    TimesPositive(eps, p);
    assert (1.0 + eps) * p == p + eps * p;
    assert Magnitude(1.0) == 1.0;
  }

  lemma {:induction false} PowersOfOne(m: nat)
    ensures Power(1.0, m) == 1.0
  {
    if m > 0 { PowersOfOne(m - 1); }
  }

  lemma {:induction false} PowerAboveOne(x: real, m: nat)
    requires x > 1.0 && m >= 1
    ensures Power(x, m) >= x
  {
    if m == 1 {
      assert Power(x, 0) == 1.0;
    } else {
      PowerAboveOne(x, m - 1);
      hide Power;
      Times(x, 1.0, Power(x, m - 1));
    }
  }
}
