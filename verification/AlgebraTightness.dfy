/**
 The scalar error algebra gives no more than it must: a guarantee exactly for the
 documented operands, and the least bound that is sound for them
 (crates/accuracy/src/propagation.rs:1336-1560).
 */
module AlgebraTightness {
  import opened Composition
  import opened Guarantees
  import opened LipschitzRules
  import opened RealBounds
  import opened Results
  import opened ScalarExprs
  import opened ScalarRules
  import opened ScalarSoundness

  // ------------------------------------------------ values at the bound

  /** Two numbers whose error is the whole bound; nothing is asked of a zero bound. */
  ghost predicate AtBound(metric: Metric, bound: real, truth: Value, estimate: Value) {
    bound == 0.0 ||
    (&& truth.Number? && estimate.Number?
     && match metric
        case Absolute => Distance(estimate.value, truth.value) == bound
        case Relative => truth.value != 0.0 && Distance(estimate.value, truth.value) == bound * Magnitude(truth.value)
        case _ => false)
  }

  /** Values at a bound are within no smaller one. */
  lemma BeyondSmaller(metric: Metric, bound: real, c: real, truth: Value, estimate: Value)
    requires AtBound(metric, bound, truth, estimate) && 0.0 <= c < bound
    ensures !Close(metric, Some(c), truth, estimate)
  {
    hide Distance;
    if Close(metric, Some(c), truth, estimate) {
      Numbers(metric, c, truth, estimate);
      if metric == Relative {
        SmallerShare(c, bound, Magnitude(truth.value));
      }
    }
  }

  lemma SmallerShare(c: real, bound: real, m: real)
    requires c < bound && m > 0.0
    ensures c * m < bound * m
  {
  }

  /** An operand's true and estimated value: within its guarantee, and its literal when it is one. */
  ghost predicate OperandAllows(g: Guarantee, literal: Option<real>, truth: Value, estimate: Value) {
    Accurate(g, truth, estimate) && (literal.Some? ==> truth == Number(literal.value))
  }

  /** Off by the whole bound, either way. */
  lemma OffBy(g: Guarantee, metric: Metric, bound: real, v: real, d: real)
    requires BoundOf(g.error) == Some(bound) && (g.IsExact() || g.metric == metric)
    requires metric == Absolute || metric == Relative
    requires Magnitude(d) <= if metric == Absolute then bound else bound * Magnitude(v)
    ensures Accurate(g, Number(v), Number(v + d))
  {
    hide IsZero, Evaluate;
    KeptNonNegative(g.error);
    OffByDistance(v, d);
    if g.IsExact() {
      assert bound == 0.0 by { ExactBound(g); }
      NoShare(v, bound);
      assert d == 0.0;
    } else if metric == Absolute {
      AbsoluteNumbers(bound, v, v + d);
    } else {
      RelativeNumbers(bound, v, v + d);
    }
  }

  lemma NoShare(v: real, bound: real)
    requires bound == 0.0
    ensures bound * Magnitude(v) == 0.0
  {
  }

  lemma ExactBound(g: Guarantee)
    requires g.IsExact()
    ensures BoundOf(g.error) == Some(0.0)
  {
  }

  lemma OffByDistance(v: real, d: real)
    ensures Distance(v + d, v) == Magnitude(d)
  {
  }

  // -------------------------------------------- the worst of arithmetic

  /** What every rule here is asked: a composed guarantee over operands with known bounds, literals exact. */
  ghost predicate KnownOperands(l: Guarantee, r: Guarantee, leftLiteral: Option<real>, rightLiteral: Option<real>) {
    && BoundOf(l.error).Some? && BoundOf(r.error).Some?
    && (leftLiteral.Some? ==> l.IsExact()) && (rightLiteral.Some? ==> r.IsExact())
  }

  function ValueOr(literal: Option<real>, other: real): real {
    if literal.Some? then literal.value else other
  }

  /** Some operands' values are off by the whole composed bound. */
  ghost predicate Reaches(op: ArithmeticOp, l: Guarantee, r: Guarantee, leftLiteral: Option<real>, rightLiteral: Option<real>,
                          metric: Metric, bound: real, sem: Semantics)
  {
    exists x, x', y, y' :: OperandAllows(l, leftLiteral, x, x') && OperandAllows(r, rightLiteral, y, y')
      && AtBound(metric, bound, Compute(op, x, y, sem), Compute(op, x', y', sem))
  }

  lemma Reach(op: ArithmeticOp, l: Guarantee, r: Guarantee, leftLiteral: Option<real>, rightLiteral: Option<real>,
              metric: Metric, bound: real, sem: Semantics, x: real, x': real, y: real, y': real)
    requires OperandAllows(l, leftLiteral, Number(x), Number(x')) && OperandAllows(r, rightLiteral, Number(y), Number(y'))
    requires AtBound(metric, bound, Compute(op, Number(x), Number(y), sem), Compute(op, Number(x'), Number(y'), sem))
    ensures Reaches(op, l, r, leftLiteral, rightLiteral, metric, bound, sem)
  {
  }

  lemma Allowed(g: Guarantee, literal: Option<real>, x: real, x': real)
    requires Accurate(g, Number(x), Number(x')) && (literal.Some? ==> x == literal.value)
    ensures OperandAllows(g, literal, Number(x), Number(x'))
  {
  }

  /** Sums and differences: both errors the same way. */
  lemma SumReaches(op: ArithmeticOp, l: Guarantee, r: Guarantee, leftLiteral: Option<real>, rightLiteral: Option<real>,
                   g: Guarantee, sem: Semantics)
    requires (op == Add || op == Sub) && (!l.IsExact() || !r.IsExact())
    requires KnownOperands(l, r, leftLiteral, rightLiteral) && ArithmeticRule(op, l, r, leftLiteral, rightLiteral) == Some(g)
    requires BoundOf(g.error).Some?
    ensures Reaches(op, l, r, leftLiteral, rightLiteral, g.metric, BoundOf(g.error).value, sem)
  {
    var a, b := BoundOf(l.error).value, BoundOf(r.error).value;
    SumBound(op, l, r, leftLiteral, rightLiteral, g);
    hide IsZero, NeverFails, BoundOf, Evaluate, ArithmeticRule;
    KeptNonNegative(l.error);
    KeptNonNegative(r.error);
    var x, y := ValueOr(leftLiteral, 1.0), ValueOr(rightLiteral, 1.0);
    var d := if op == Add then b else 0.0 - b;
    OffBy(l, Absolute, a, x, a);
    OffBy(r, Absolute, b, y, d);
    Reach(op, l, r, leftLiteral, rightLiteral, Absolute, a + b, sem, x, x + a, y, y + d);
  }

  lemma SumBound(op: ArithmeticOp, l: Guarantee, r: Guarantee, leftLiteral: Option<real>, rightLiteral: Option<real>, g: Guarantee)
    requires (op == Add || op == Sub) && (!l.IsExact() || !r.IsExact())
    requires BoundOf(l.error).Some? && BoundOf(r.error).Some? && BoundOf(g.error).Some?
    requires ArithmeticRule(op, l, r, leftLiteral, rightLiteral) == Some(g)
    ensures g.metric == Absolute && (l.IsExact() || l.metric == Absolute) && (r.IsExact() || r.metric == Absolute)
    ensures BoundOf(g.error) == Some(BoundOf(l.error).value + BoundOf(r.error).value)
  {
    if l.IsExact() {
      LipschitzComposed(1.0, r);
      OneScaled(r.error);
      ExactBound(l);
    } else if r.IsExact() {
      LipschitzComposed(1.0, l);
      OneScaled(l.error);
      ExactBound(r);
    } else {
      SumComposed(l, r);
      OneScaled(l.error);
      assert g.error == Sum([Scaled(1.0, l.error), r.error]);
      BoundOfSum(Scaled(1.0, l.error), r.error);
    }
  }

  /** A product with an exact factor: all of the error of the other. */
  lemma FactorReaches(l: Guarantee, r: Guarantee, leftLiteral: Option<real>, rightLiteral: Option<real>, g: Guarantee, sem: Semantics)
    requires l.IsExact() != r.IsExact() && BoundOf(g.error).Some?
    requires KnownOperands(l, r, leftLiteral, rightLiteral) && ArithmeticRule(Mul, l, r, leftLiteral, rightLiteral) == Some(g)
    requires g.metric == Relative ==> leftLiteral != Some(0.0) && rightLiteral != Some(0.0)
    ensures Reaches(Mul, l, r, leftLiteral, rightLiteral, g.metric, BoundOf(g.error).value, sem)
  {
    if l.IsExact() {
      FactorBound(r, leftLiteral, g);
      OtherFactor(l, r, leftLiteral, rightLiteral, g, sem);
    } else {
      FactorBound(l, rightLiteral, g);
      OtherFactor(r, l, rightLiteral, leftLiteral, g, sem);
      Turned(r, l, rightLiteral, leftLiteral, g.metric, BoundOf(g.error).value, sem);
    }
  }

  lemma Turned(l: Guarantee, r: Guarantee, leftLiteral: Option<real>, rightLiteral: Option<real>, metric: Metric, bound: real,
               sem: Semantics)
    requires Reaches(Mul, l, r, leftLiteral, rightLiteral, metric, bound, sem)
    ensures Reaches(Mul, r, l, rightLiteral, leftLiteral, metric, bound, sem)
  {
    hide AtBound;
    var x, x', y, y' :| OperandAllows(l, leftLiteral, x, x') && OperandAllows(r, rightLiteral, y, y')
      && AtBound(metric, bound, Compute(Mul, x, y, sem), Compute(Mul, x', y', sem));
    ComputeCommutes(x, y, sem);
    ComputeCommutes(x', y', sem);
  }

  /** The bound of a product with an exact factor. */
  lemma FactorBound(l: Guarantee, factor: Option<real>, g: Guarantee)
    requires !l.IsExact() && BoundOf(l.error).Some? && ScaledBy(l, MagnitudeOf(factor)) == Some(g)
    ensures l.metric == g.metric && (g.metric == Absolute || g.metric == Relative)
    ensures g.metric == Relative ==> g.error == l.error
    ensures g.metric == Absolute ==> factor.Some? && BoundOf(g.error) == Some(TimesOf(Magnitude(factor.value), BoundOf(l.error).value))
  {
    if l.metric != Relative {
      hide BoundOf, IsZero, NeverFails, Evaluate, TimesOf, Magnitude;
      var k, b := Magnitude(factor.value), BoundOf(l.error).value;
      LipschitzComposed(k, l);
      assert g.error == Scaled(k, l.error);
      BoundOfScaled(k, l.error);
    }
  }

  lemma OtherFactor(l: Guarantee, r: Guarantee, leftLiteral: Option<real>, rightLiteral: Option<real>, g: Guarantee, sem: Semantics)
    requires l.IsExact() && !r.IsExact() && rightLiteral.None? && BoundOf(r.error).Some?
    requires r.metric == g.metric && (g.metric == Relative || g.metric == Absolute)
    requires g.metric == Relative ==> g.error == r.error && leftLiteral != Some(0.0)
    requires g.metric == Absolute ==>
      leftLiteral.Some? && BoundOf(g.error) == Some(TimesOf(Magnitude(leftLiteral.value), BoundOf(r.error).value))
    ensures Reaches(Mul, l, r, leftLiteral, rightLiteral, g.metric, BoundOf(g.error).value, sem)
  {
    hide IsZero, NeverFails, BoundOf, Evaluate, TimesOf;
    KeptNonNegative(r.error);
    ExactBound(l);
    var b, c := BoundOf(r.error).value, ValueOr(leftLiteral, 1.0);
    OffByFactor(b);
    OffBy(l, Absolute, 0.0, c, 0.0);
    OffBy(r, g.metric, b, 1.0, b);
    FactorAtBound(g.metric, b, c, sem);
    Reach(Mul, l, r, leftLiteral, rightLiteral, g.metric, BoundOf(g.error).value, sem, c, c + 0.0, 1.0, 1.0 + b);
  }

  lemma OffByFactor(b: real)
    requires b >= 0.0
    ensures Magnitude(b) == b && Magnitude(1.0) == 1.0 && b * Magnitude(1.0) == b && Magnitude(0.0) == 0.0
  {
  }

  lemma FactorAtBound(metric: Metric, b: real, c: real, sem: Semantics)
    requires b >= 0.0 && (metric == Absolute || (metric == Relative && c != 0.0))
    ensures AtBound(metric, if metric == Absolute then TimesOf(Magnitude(c), b) else b, Compute(Mul, Number(c), Number(1.0), sem),
                    Compute(Mul, Number(c + 0.0), Number(1.0 + b), sem))
  {
    ProductIs(c, 1.0, sem);
    ProductIs(c, 1.0 + b, sem);
    FactorOff(b, c);
  }

  lemma FactorOff(b: real, c: real)
    requires b >= 0.0
    ensures Distance(c * (1.0 + b), c * 1.0) == Magnitude(c) * b == b * Magnitude(c * 1.0)
  {
    assert c * (1.0 + b) - c * 1.0 == c * b;
    MagnitudeOfProduct(c, b);
  }

  /** A product of two relative errors: both over. */
  lemma ProductReaches(l: Guarantee, r: Guarantee, leftLiteral: Option<real>, rightLiteral: Option<real>, g: Guarantee, sem: Semantics)
    requires KnownOperands(l, r, leftLiteral, rightLiteral) && leftLiteral.None? && rightLiteral.None?
    requires RelativeProductGuarantee(l, r) == Some(g) && BoundOf(g.error).Some?
    ensures Reaches(Mul, l, r, leftLiteral, rightLiteral, g.metric, BoundOf(g.error).value, sem)
  {
    assert g.error == Sum([l.error, r.error, Product([l.error, r.error])]);
    BoundOfRelativeProduct(l.error, r.error);
    hide IsZero, NeverFails, BoundOf, Evaluate, RelativeProductGuarantee;
    KeptNonNegative(l.error);
    KeptNonNegative(r.error);
    var a, b := BoundOf(l.error).value, BoundOf(r.error).value;
    OffByFactor(a);
    OffByFactor(b);
    OffBy(l, Relative, a, 1.0, a);
    OffBy(r, Relative, b, 1.0, b);
    ProductAtBound(a, b, sem);
    Reach(Mul, l, r, leftLiteral, rightLiteral, Relative, BoundOf(g.error).value, sem, 1.0, 1.0 + a, 1.0, 1.0 + b);
  }

  lemma ProductAtBound(a: real, b: real, sem: Semantics)
    requires a >= 0.0 && b >= 0.0
    ensures AtBound(Relative, a + b + TimesOf(a, b), Compute(Mul, Number(1.0), Number(1.0), sem),
                    Compute(Mul, Number(1.0 + a), Number(1.0 + b), sem))
  {
    ProductIs(1.0, 1.0, sem);
    ProductIs(1.0 + a, 1.0 + b, sem);
    ProductUnfolded(a, b);
    ProductAtLeast(a, b);
    ProductOff(a, b);
  }

  lemma ProductOff(a: real, b: real)
    requires a * b >= 0.0 && a >= 0.0 && b >= 0.0
    ensures Distance((1.0 + a) * (1.0 + b), 1.0 * 1.0) == a + b + a * b && Magnitude(1.0 * 1.0) == 1.0
    ensures (a + b + a * b) * Magnitude(1.0 * 1.0) == a + b + a * b
  {
    assert (1.0 + a) * (1.0 + b) == 1.0 + a + b + a * b;
  }

  /** A quotient by an exact divisor: all of the error of the numerator. */
  lemma DivisorReaches(l: Guarantee, r: Guarantee, leftLiteral: Option<real>, rightLiteral: Option<real>, g: Guarantee, sem: Semantics)
    requires !l.IsExact() && r.IsExact() && rightLiteral != Some(0.0) && BoundOf(g.error).Some?
    requires KnownOperands(l, r, leftLiteral, rightLiteral) && ScaledBy(l, InverseOf(rightLiteral)) == Some(g)
    ensures Reaches(Div, l, r, leftLiteral, rightLiteral, g.metric, BoundOf(g.error).value, sem)
  {
    DivisorBound(l, rightLiteral, g);
    hide IsZero, NeverFails, BoundOf, Evaluate, ScaledBy;
    KeptNonNegative(l.error);
    ExactBound(r);
    var a, c := BoundOf(l.error).value, ValueOr(rightLiteral, 1.0);
    OffByFactor(a);
    OffBy(l, g.metric, a, 1.0, a);
    OffBy(r, Absolute, 0.0, c, 0.0);
    DivisorAtBound(g.metric, a, c, sem);
    Reach(Div, l, r, leftLiteral, rightLiteral, g.metric, BoundOf(g.error).value, sem, 1.0, 1.0 + a, c, c + 0.0);
  }

  lemma DivisorBound(l: Guarantee, divisor: Option<real>, g: Guarantee)
    requires !l.IsExact() && BoundOf(l.error).Some? && divisor != Some(0.0) && ScaledBy(l, InverseOf(divisor)) == Some(g)
    ensures l.metric == g.metric && (g.metric == Absolute || g.metric == Relative)
    ensures g.metric == Relative ==> g.error == l.error
    ensures g.metric == Absolute ==>
      divisor.Some? && BoundOf(g.error) == Some(BoundOf(l.error).value / Magnitude(divisor.value))
  {
    if l.metric != Relative {
      var c := 1.0 / Magnitude(divisor.value);
      DivisorPositive(divisor.value);
      LipschitzComposed(c, l);
      BoundOfScaled(c, l.error);
      Inverse(BoundOf(l.error).value, Magnitude(divisor.value));
    }
  }

  lemma Inverse(a: real, m: real)
    requires m > 0.0
    ensures TimesOf(1.0 / m, a) == a / m
  {
    var t := 1.0 / m;
    assert t * m == 1.0;
    assert (t * a) * m == a;
  }

  lemma DivisorAtBound(metric: Metric, a: real, c: real, sem: Semantics)
    requires a >= 0.0 && c != 0.0 && (metric == Absolute || metric == Relative)
    ensures Magnitude(c) > 0.0
    ensures AtBound(metric, if metric == Absolute then a / Magnitude(c) else a, Compute(Div, Number(1.0), Number(c), sem),
                    Compute(Div, Number(1.0 + a), Number(c + 0.0), sem))
  {
    assert c + 0.0 == c;
    ComputeIs(Div, Number(1.0), Number(c), sem);
    ComputeIs(Div, Number(1.0 + a), Number(c), sem);
    DivisorPositive(c);
    hide Compute, Distance, Magnitude;
    DivisorOff(a, c);
  }

  lemma Cancel(p: real, q: real, c: real)
    requires c != 0.0 && p * c == q * c
    ensures p == q
  {
    assert (p - q) * c == 0.0;
  }

  lemma DivisorOff(a: real, c: real)
    requires a >= 0.0 && c != 0.0
    ensures Magnitude(c) > 0.0 && 1.0 / c != 0.0
    ensures Distance((1.0 + a) / c, 1.0 / c) == a / Magnitude(c) == a * Magnitude(1.0 / c)
  {
    var t := 1.0 / c;
    assert t * c == 1.0;
    assert (1.0 + a) / c == t + a * t by {
      assert (a * t) * c == a * (t * c);
      assert (t + a * t) * c == 1.0 + a;
      var q := (1.0 + a) / c;
      assert q * c == 1.0 + a;
      Cancel(q, t + a * t, c);
    }
    MagnitudeOfProduct(a, t);
    assert Magnitude(a) == a;
    MagnitudeOfInverse(c);
    Inverse(a, Magnitude(c));
  }

  lemma MagnitudeOfInverse(c: real)
    requires c != 0.0
    ensures Magnitude(c) > 0.0 && Magnitude(1.0 / c) == 1.0 / Magnitude(c)
  {
  }

  /** A quotient of relative errors: the numerator over and the divisor under. */
  lemma QuotientReaches(l: Guarantee, r: Guarantee, leftLiteral: Option<real>, rightLiteral: Option<real>, g: Guarantee, sem: Semantics)
    requires !r.IsExact() && leftLiteral != Some(0.0)
    requires KnownOperands(l, r, leftLiteral, rightLiteral) && Compose(ExactDivision, [l, r], None) == Some(g)
    ensures BoundOf(g.error).Some? && Reaches(Div, l, r, leftLiteral, rightLiteral, g.metric, BoundOf(g.error).value, sem)
  {
    hide IsZero, NeverFails, BoundOf, Evaluate, Compose, Reaches, OperandAllows, AtBound, Compute;
    QuotientRule(l, r, g);
    var a, b := Evaluate(l.error).value, Evaluate(r.error).value;
    KnownBound(l.error);
    KnownBound(r.error);
    ConstantQuotient(a, b);
    var c := ValueOr(leftLiteral, 1.0);
    ShareOf(a, c);
    ShareOf(0.0 - b, 1.0);
    OffBy(l, Relative, a, c, a * c);
    OffBy(r, Relative, b, 1.0, (0.0 - b) * 1.0);
    QuotientAtBound(a, b, c, sem);
    Allowed(l, leftLiteral, c, c + a * c);
    Allowed(r, rightLiteral, 1.0, 1.0 + (0.0 - b) * 1.0);
    Reach(Div, l, r, leftLiteral, rightLiteral, Relative, (a + b) / (1.0 - b), sem, c, c + a * c, 1.0, 1.0 + (0.0 - b) * 1.0);
  }

  lemma ShareOf(a: real, v: real)
    ensures Magnitude(a * v) == Magnitude(a) * Magnitude(v)
    ensures a >= 0.0 ==> Magnitude(a) == a
    ensures a <= 0.0 ==> Magnitude(a) == 0.0 - a
  {
    MagnitudeOfProduct(a, v);
  }

  lemma QuotientAtBound(a: real, b: real, c: real, sem: Semantics)
    requires a >= 0.0 && 0.0 <= b < 1.0 && c != 0.0
    ensures AtBound(Relative, (a + b) / (1.0 - b), Compute(Div, Number(c), Number(1.0), sem),
                    Compute(Div, Number(c + a * c), Number(1.0 + (0.0 - b) * 1.0), sem))
  {
    assert 1.0 + (0.0 - b) * 1.0 == 1.0 - b;
    ComputeIs(Div, Number(c), Number(1.0), sem);
    ComputeIs(Div, Number(c + a * c), Number(1.0 - b), sem);
    hide Compute, Distance, Magnitude;
    assert c / 1.0 == c;
    NonNegativeQuotient(a + b, 1.0 - b);
    QuotientOff(a, b, c);
  }

  lemma QuotientOff(a: real, b: real, c: real)
    requires b < 1.0 && (a + b) / (1.0 - b) >= 0.0
    ensures Distance((c + a * c) / (1.0 - b), c) == (a + b) / (1.0 - b) * Magnitude(c)
  {
    var s := 1.0 - b;
    var q, t := (a + b) / s, (c + a * c) / s;
    assert q * s == a + b && t * s == c + a * c;
    assert (t - c) * s == (a + b) * c;
    Commute(q, c, s);
    assert (q * c) * s == (a + b) * c;
    SameFactor(t - c, q * c, s);
    MagnitudeOfProduct(q, c);
    assert Magnitude(q) == q;
  }

  lemma SameFactor(p: real, q: real, s: real)
    requires s > 0.0 && p * s == q * s
    ensures p == q
  {
    assert (p - q) * s == 0.0;
  }

  // ------------------------------------------------------- least bounds

  /** Whatever values the operands' guarantees allow, the result is within `c`. */
  ghost predicate AlwaysWithin(op: ArithmeticOp, l: Guarantee, r: Guarantee, leftLiteral: Option<real>, rightLiteral: Option<real>,
                               metric: Metric, c: real, sem: Semantics)
  {
    forall x, x', y, y' :: OperandAllows(l, leftLiteral, x, x') && OperandAllows(r, rightLiteral, y, y') ==>
      Close(metric, Some(c), Compute(op, x, y, sem), Compute(op, x', y', sem))
  }

  /** A literal zero that leaves a product or quotient nothing to be off by. */
  predicate ZeroOperand(op: ArithmeticOp, leftLiteral: Option<real>, rightLiteral: Option<real>) {
    (op == Mul || op == Div) && (leftLiteral == Some(0.0) || rightLiteral == Some(0.0))
  }

  /** Every rule's bound is reached, but for a relative one kept by a literal zero. */
  lemma RuleReaches(op: ArithmeticOp, l: Guarantee, r: Guarantee, leftLiteral: Option<real>, rightLiteral: Option<real>,
                    g: Guarantee, sem: Semantics)
    requires !l.IsExact() || !r.IsExact()
    requires KnownOperands(l, r, leftLiteral, rightLiteral) && ArithmeticRule(op, l, r, leftLiteral, rightLiteral) == Some(g)
    requires BoundOf(g.error).Some?
    requires g.metric == Relative ==> !ZeroOperand(op, leftLiteral, rightLiteral)
    ensures Reaches(op, l, r, leftLiteral, rightLiteral, g.metric, BoundOf(g.error).value, sem)
  {
    hide Reaches, IsZero, NeverFails, Shifted, ScaledBy, Compose, Evaluate, RelativeProductGuarantee;
    var statistic := OperandDomainStatistic(op, l, r);
    if op == Add || op == Sub {
      SumReaches(op, l, r, leftLiteral, rightLiteral, g, sem);
    } else if statistic.Some? {
      SymbolicUnknown(l, r, statistic.value);
    } else if op == Mul {
      if l.IsExact() || r.IsExact() {
        FactorReaches(l, r, leftLiteral, rightLiteral, g, sem);
      } else {
        ProductReaches(l, r, leftLiteral, rightLiteral, g, sem);
      }
    } else if r.IsExact() {
      DivisorReaches(l, r, leftLiteral, rightLiteral, g, sem);
    } else {
      QuotientMetric(l, r, g);
      QuotientReaches(l, r, leftLiteral, rightLiteral, g, sem);
    }
  }

  lemma SymbolicUnknown(l: Guarantee, r: Guarantee, statistic: string)
    ensures BoundOf(Symbolic(l, r, statistic).error).None?
  {
  }

  lemma QuotientMetric(l: Guarantee, r: Guarantee, g: Guarantee)
    requires !r.IsExact() && Compose(ExactDivision, [l, r], None) == Some(g)
    ensures g.metric == Relative
  {
    QuotientRule(l, r, g);
  }

  /**
   The composed bound is the least sound one: over every pair of values the
   operands allow, the result is within `c` exactly when the bound is. Only a
   relative bound past a literal zero claims less than could be said, since the
   result is then exact.
   */
  lemma LeastBound(op: ArithmeticOp, left: Guarantee, right: Guarantee, leftLiteral: Option<real>, rightLiteral: Option<real>,
                   same: bool, g: Guarantee, c: real, sem: Semantics)
    requires ArithmeticGuarantee(op, Some(left), Some(right), leftLiteral, rightLiteral, same) == Some(g)
    requires KnownOperands(AdditiveAsAbsolute(left, None), AdditiveAsAbsolute(right, None), leftLiteral, rightLiteral)
    requires BoundOf(g.error).Some? && c >= 0.0
    ensures AlwaysWithin(op, AdditiveAsAbsolute(left, None), AdditiveAsAbsolute(right, None), leftLiteral, rightLiteral,
                         g.metric, c, sem)
         == (BoundOf(g.error).value <= c || (g.metric == Relative && ZeroOperand(op, leftLiteral, rightLiteral)))
  {
    var l, r := AdditiveAsAbsolute(left, None), AdditiveAsAbsolute(right, None);
    if l.IsExact() && r.IsExact() {
      ExactAlways(op, l, r, leftLiteral, rightLiteral, g, c, sem);
    } else {
      var rule := ArithmeticRule(op, l, r, leftLiteral, rightLiteral).value;
      assert g.error == rule.error && g.metric == rule.metric;
      RuleLeast(op, l, r, leftLiteral, rightLiteral, rule, c, sem);
    }
  }

  lemma ExactAlways(op: ArithmeticOp, l: Guarantee, r: Guarantee, leftLiteral: Option<real>, rightLiteral: Option<real>,
                    g: Guarantee, c: real, sem: Semantics)
    requires l.IsExact() && r.IsExact() && g == ExactGuarantee("arithmetic over exact operands") && c >= 0.0
    ensures AlwaysWithin(op, l, r, leftLiteral, rightLiteral, g.metric, c, sem) && BoundOf(g.error) == Some(0.0)
  {
    ExactBound(g);
    forall x, x', y, y' | OperandAllows(l, leftLiteral, x, x') && OperandAllows(r, rightLiteral, y, y')
      ensures Close(g.metric, Some(c), Compute(op, x, y, sem), Compute(op, x', y', sem))
    {
      ExactIsEqual(l, x, x');
      ExactIsEqual(r, y, y');
    }
  }

  lemma RuleLeast(op: ArithmeticOp, l: Guarantee, r: Guarantee, leftLiteral: Option<real>, rightLiteral: Option<real>,
                  g: Guarantee, c: real, sem: Semantics)
    requires !l.IsExact() || !r.IsExact()
    requires ArithmeticRule(op, l, r, leftLiteral, rightLiteral) == Some(g)
    requires KnownOperands(l, r, leftLiteral, rightLiteral) && BoundOf(g.error).Some? && c >= 0.0
    ensures AlwaysWithin(op, l, r, leftLiteral, rightLiteral, g.metric, c, sem)
         == (BoundOf(g.error).value <= c || (g.metric == Relative && ZeroOperand(op, leftLiteral, rightLiteral)))
  {
    hide ArithmeticRule, Close, BoundOf, IsZero, NeverFails, Compute;
    var bound := BoundOf(g.error).value;
    KeptNonNegative(g.error);
    if bound <= c {
      forall x, x', y, y' | OperandAllows(l, leftLiteral, x, x') && OperandAllows(r, rightLiteral, y, y')
        ensures Close(g.metric, Some(c), Compute(op, x, y, sem), Compute(op, x', y', sem))
      {
        RuleAccurate(op, l, r, leftLiteral, rightLiteral, g, x, x', y, y', sem);
        RuleMetric(op, l, r, leftLiteral, rightLiteral, g);
        CloseWider(g.metric, bound, c, Compute(op, x, y, sem), Compute(op, x', y', sem));
      }
    } else if g.metric == Relative && ZeroOperand(op, leftLiteral, rightLiteral) {
      ZeroAlways(op, l, r, leftLiteral, rightLiteral, g, c, sem);
    } else {
      RuleReaches(op, l, r, leftLiteral, rightLiteral, g, sem);
      var x, x', y, y' :| OperandAllows(l, leftLiteral, x, x') && OperandAllows(r, rightLiteral, y, y')
        && AtBound(g.metric, bound, Compute(op, x, y, sem), Compute(op, x', y', sem));
      BeyondSmaller(g.metric, bound, c, Compute(op, x, y, sem), Compute(op, x', y', sem));
    }
  }

  lemma RuleMetric(op: ArithmeticOp, l: Guarantee, r: Guarantee, leftLiteral: Option<real>, rightLiteral: Option<real>, g: Guarantee)
    requires !l.IsExact() || !r.IsExact()
    requires ArithmeticRule(op, l, r, leftLiteral, rightLiteral) == Some(g)
    ensures g.metric == Absolute || g.metric == Relative
  {
    hide Evaluate, IsZero, NeverFails;
  }

  /** A product with zero, and zero divided by what is not zero, are exact. */
  lemma ZeroAlways(op: ArithmeticOp, l: Guarantee, r: Guarantee, leftLiteral: Option<real>, rightLiteral: Option<real>,
                   g: Guarantee, c: real, sem: Semantics)
    requires !l.IsExact() || !r.IsExact()
    requires ArithmeticRule(op, l, r, leftLiteral, rightLiteral) == Some(g) && g.metric == Relative
    requires KnownOperands(l, r, leftLiteral, rightLiteral) && BoundOf(g.error).Some?
    requires ZeroOperand(op, leftLiteral, rightLiteral)
    ensures AlwaysWithin(op, l, r, leftLiteral, rightLiteral, Relative, c, sem)
  {
    hide ArithmeticRule, BoundOf, IsZero, NeverFails;
    forall x, x', y, y' | OperandAllows(l, leftLiteral, x, x') && OperandAllows(r, rightLiteral, y, y')
      ensures Close(Relative, Some(c), Compute(op, x, y, sem), Compute(op, x', y', sem))
    {
      RuleAccurate(op, l, r, leftLiteral, rightLiteral, g, x, x', y, y', sem);
      if leftLiteral.Some? { ExactIsEqual(l, x, x'); }
      if rightLiteral.Some? { ExactIsEqual(r, y, y'); }
      hide AlwaysWithin, KnownOperands, OperandAllows;
      ZeroClose(op, g, c, x, x', y, y', sem);
    }
  }

  lemma ZeroClose(op: ArithmeticOp, g: Guarantee, c: real, x: Value, x': Value, y: Value, y': Value, sem: Semantics)
    requires op == Mul || op == Div
    requires x == x' == Number(0.0) || y == y' == Number(0.0)
    requires g.metric == Relative && BoundOf(g.error).Some? && Accurate(g, Compute(op, x, y, sem), Compute(op, x', y', sem))
    ensures Close(Relative, Some(c), Compute(op, x, y, sem), Compute(op, x', y', sem))
  {
    var t, e := Compute(op, x, y, sem), Compute(op, x', y', sem);
    hide BoundOf, Distance, Magnitude;
    assert t.Number? && e.Number? ==> t == e;
  }

  // ---------------------------------------------- when a bound is given

  predicate ScaleGiven(g: Guarantee, factor: Option<real>) {
    g.metric == Relative || (g.metric == Absolute && factor.Some?)
  }

  /** A quotient of relative or exact by relative, which has a closed form. */
  predicate RelativeQuotientOf(l: Guarantee, r: Guarantee) {
    (l.IsExact() || l.metric == Relative) && r.metric == Relative
  }

  /** The operands, restated in value units, that arithmetic has a guarantee for. */
  predicate ArithmeticGiven(op: ArithmeticOp, l: Guarantee, r: Guarantee, leftLiteral: Option<real>, rightLiteral: Option<real>) {
    (l.IsExact() && r.IsExact()) ||
    match op
    case Add => (l.IsExact() || l.metric == Absolute) && (r.IsExact() || r.metric == Absolute)
    case Sub => (l.IsExact() || l.metric == Absolute) && (r.IsExact() || r.metric == Absolute)
    case Mul =>
      if l.IsExact() then ScaleGiven(r, leftLiteral)
      else if r.IsExact() then ScaleGiven(l, rightLiteral)
      else Valued(l) && Valued(r)
    case Div =>
      if r.IsExact() then rightLiteral != Some(0.0) && ScaleGiven(l, rightLiteral)
      else if RelativeQuotientOf(l, r) then
        Evaluate(l.error).Some? && Evaluate(r.error).Some? && Evaluate(r.error).value < 1.0
      else Valued(l) && Valued(r)
    case _ => false
  }

  /** Arithmetic has a guarantee exactly when both operands do and they are of the kinds listed. */
  lemma GivenIff(op: ArithmeticOp, left: Option<Guarantee>, right: Option<Guarantee>, leftLiteral: Option<real>,
                 rightLiteral: Option<real>, same: bool)
    ensures ArithmeticGuarantee(op, left, right, leftLiteral, rightLiteral, same).Some?
         == (left.Some? && right.Some? &&
             ArithmeticGiven(op, AdditiveAsAbsolute(left.value, None), AdditiveAsAbsolute(right.value, None), leftLiteral, rightLiteral))
  {
    if left.Some? && right.Some? {
      var l, r := AdditiveAsAbsolute(left.value, None), AdditiveAsAbsolute(right.value, None);
      hide AdditiveAsAbsolute;
      if !l.IsExact() || !r.IsExact() { RuleGivenIff(op, l, r, leftLiteral, rightLiteral); }
    }
  }

  lemma RuleGivenIff(op: ArithmeticOp, l: Guarantee, r: Guarantee, leftLiteral: Option<real>, rightLiteral: Option<real>)
    requires !l.IsExact() || !r.IsExact()
    ensures ArithmeticRule(op, l, r, leftLiteral, rightLiteral).Some? == ArithmeticGiven(op, l, r, leftLiteral, rightLiteral)
  {
    hide IsZero, NeverFails, Evaluate, Compose;
    if op == Add || op == Sub {
      if !l.IsExact() { LipschitzComposed(1.0, l); SumComposed(l, r); }
      if !r.IsExact() { LipschitzComposed(1.0, r); }
    } else if op == Mul {
      if l.IsExact() { ScaleGivenIff(r, MagnitudeOf(leftLiteral)); }
      if r.IsExact() { ScaleGivenIff(l, MagnitudeOf(rightLiteral)); }
    } else if op == Div {
      if r.IsExact() {
        if rightLiteral != Some(0.0) { InversePositive(rightLiteral); ScaleGivenIff(l, InverseOf(rightLiteral)); }
      } else {
        QuotientGivenIff(l, r);
      }
    }
  }

  lemma InversePositive(literal: Option<real>)
    requires literal != Some(0.0)
    ensures InverseOf(literal).Some? ==> InverseOf(literal).value >= 0.0
  {
    if literal.Some? { DivisorPositive(literal.value); }
  }

  lemma ScaleGivenIff(l: Guarantee, factor: Option<real>)
    requires !l.IsExact() && (factor.Some? ==> factor.value >= 0.0)
    ensures ScaledBy(l, factor).Some? == ScaleGiven(l, factor)
  {
    hide IsZero, NeverFails;
    if factor.Some? { LipschitzComposed(factor.value, l); }
  }

  lemma QuotientGivenIff(l: Guarantee, r: Guarantee)
    requires !r.IsExact()
    ensures Compose(ExactDivision, [l, r], None).Some? ==
      (RelativeQuotientOf(l, r) && Evaluate(l.error).Some? && Evaluate(r.error).Some? && Evaluate(r.error).value < 1.0)
  {
    hide IsZero, NeverFails, Evaluate;
    DivisionComposed(l, r);
    assert [l, r][0] == l && [l, r][1] == r;
    hide Compose;
    assert SameMetric([l, r], Relative) == RelativeQuotientOf(l, r);
  }

  /** Products of two estimates that are not both relative, and quotients by one that are not of relative errors. */
  predicate NeedsDomains(op: ArithmeticOp, l: Guarantee, r: Guarantee) {
    || (op == Mul && !l.IsExact() && !r.IsExact() && !(l.metric == Relative && r.metric == Relative))
    || (op == Div && !r.IsExact() && !RelativeQuotientOf(l, r))
  }

  /** Over operands with known bounds the composed bound is known too, unless it needs the operands' domains. */
  lemma KnownIff(op: ArithmeticOp, left: Guarantee, right: Guarantee, leftLiteral: Option<real>, rightLiteral: Option<real>,
                 same: bool, g: Guarantee)
    requires ArithmeticGuarantee(op, Some(left), Some(right), leftLiteral, rightLiteral, same) == Some(g)
    requires Evaluate(AdditiveAsAbsolute(left, None).error).Some? && Evaluate(AdditiveAsAbsolute(right, None).error).Some?
    ensures Evaluate(g.error).Some? == !NeedsDomains(op, AdditiveAsAbsolute(left, None), AdditiveAsAbsolute(right, None))
  {
    var l, r := AdditiveAsAbsolute(left, None), AdditiveAsAbsolute(right, None);
    if !l.IsExact() || !r.IsExact() {
      var rule := ArithmeticRule(op, l, r, leftLiteral, rightLiteral).value;
      assert g.error == rule.error;
      RuleKnownIff(op, l, r, leftLiteral, rightLiteral, rule);
    }
  }

  lemma RuleKnownIff(op: ArithmeticOp, l: Guarantee, r: Guarantee, leftLiteral: Option<real>, rightLiteral: Option<real>, g: Guarantee)
    requires !l.IsExact() || !r.IsExact()
    requires ArithmeticRule(op, l, r, leftLiteral, rightLiteral) == Some(g)
    requires Evaluate(l.error).Some? && Evaluate(r.error).Some?
    ensures Evaluate(g.error).Some? == !NeedsDomains(op, l, r)
  {
    hide IsZero, NeverFails, Evaluate, Compose;
    if op == Add || op == Sub {
      if l.IsExact() {
        LipschitzComposed(1.0, r);
        ScaledKnown(1.0, r.error);
      } else if r.IsExact() {
        LipschitzComposed(1.0, l);
        ScaledKnown(1.0, l.error);
      } else {
        SumComposed(l, r);
        ScaledKnown(1.0, l.error);
        assert g.error == Sum([Scaled(1.0, l.error), r.error]);
        SumOfTwo(Scaled(1.0, l.error), r.error);
      }
    } else if op == Mul {
      if l.IsExact() { ScaleKnown(r, MagnitudeOf(leftLiteral), g); }
      else if r.IsExact() { ScaleKnown(l, MagnitudeOf(rightLiteral), g); }
      else if l.metric == Relative && r.metric == Relative { ProductKnown(l, r, g); }
      else { SymbolicNotKnown(l, r, PRODUCT_OPERAND_DOMAINS); }
    } else if r.IsExact() {
      InversePositive(rightLiteral);
      ScaleKnown(l, InverseOf(rightLiteral), g);
    } else if OperandDomainStatistic(op, l, r).None? {
      QuotientRule(l, r, g);
      ConstantQuotient(Evaluate(l.error).value, Evaluate(r.error).value);
      ConstantKnown((Evaluate(l.error).value + Evaluate(r.error).value) / (1.0 - Evaluate(r.error).value));
    } else {
      SymbolicNotKnown(l, r, QUOTIENT_OPERAND_DOMAINS);
    }
  }

  lemma ConstantKnown(value: real)
    requires value >= 0.0
    ensures Evaluate(Constant(value)) == Some(value)
  {
  }

  lemma SymbolicNotKnown(l: Guarantee, r: Guarantee, statistic: string)
    ensures Evaluate(Symbolic(l, r, statistic).error).None?
  {
  }

  lemma ScaledKnown(c: real, b: BoundExpr)
    requires c >= 0.0 && Evaluate(b).Some?
    ensures Evaluate(Scaled(c, b)) == Some(TimesOf(c, Evaluate(b).value))
  {
    ScaledUnfolds(c, b);
    hide Evaluate;
    ScaledValue(c, Evaluate(b).value);
  }

  lemma ScaleKnown(l: Guarantee, factor: Option<real>, g: Guarantee)
    requires !l.IsExact() && (factor.Some? ==> factor.value >= 0.0) && ScaledBy(l, factor) == Some(g) && Evaluate(l.error).Some?
    ensures Evaluate(g.error).Some?
  {
    hide IsZero, NeverFails, Evaluate;
    if l.metric != Relative {
      LipschitzComposed(factor.value, l);
      ScaledKnown(factor.value, l.error);
    }
  }

  lemma ProductKnown(l: Guarantee, r: Guarantee, g: Guarantee)
    requires RelativeProductGuarantee(l, r) == Some(g) && Evaluate(l.error).Some? && Evaluate(r.error).Some?
    ensures Evaluate(g.error).Some?
  {
    var a, b, p := l.error, r.error, Product([l.error, r.error]);
    assert g.error == Sum([a, b, p]);
    ProductOfTwo(a, b);
    SumStep(a, [b, p]);
    SumStep(b, [p]);
    SumStep(p, []);
    assert [a] + [b, p] == [a, b, p] && [b] + [p] == [b, p] && [p] + [] == [p];
    SumUnfolds([a, b, p]);
    hide Evaluate, EvaluateSum;
  }

  // ------------------------------------------------ the composed failure

  /** The failure claimed is the operands' added, and one value read twice is counted once. */
  lemma ComposedFailure(op: ArithmeticOp, left: Guarantee, right: Guarantee, leftLiteral: Option<real>, rightLiteral: Option<real>,
                        same: bool, g: Guarantee)
    requires ArithmeticGuarantee(op, Some(left), Some(right), leftLiteral, rightLiteral, same) == Some(g)
    requires Probability(left.failure).Some? && Probability(right.failure).Some?
    ensures Probability(g.failure)
         == Some(if same then Probability(left.failure).value
                 else Clamp01(Probability(left.failure).value + Probability(right.failure).value))
  {
    var l, r := AdditiveAsAbsolute(left, None), AdditiveAsAbsolute(right, None);
    RestatedFailure(left);
    RestatedFailure(right);
    hide AdditiveAsAbsolute;
    if l.IsExact() && r.IsExact() {
      NeverFailsIsZero(l.failure);
      NeverFailsIsZero(r.failure);
    } else {
      var rule := ArithmeticRule(op, l, r, leftLiteral, rightLiteral).value;
      if !same {
        RuleCountsBoth(op, l, r, leftLiteral, rightLiteral, rule);
        FailureOfBoth(rule, l, r);
      }
    }
  }

  lemma RuleCountsBoth(op: ArithmeticOp, l: Guarantee, r: Guarantee, leftLiteral: Option<real>, rightLiteral: Option<real>, g: Guarantee)
    requires !l.IsExact() || !r.IsExact()
    requires ArithmeticRule(op, l, r, leftLiteral, rightLiteral) == Some(g)
    ensures CountsBoth(g, l, r)
  {
    hide IsZero, NeverFails, Evaluate, Compose;
    if op == Add || op == Sub {
      if l.IsExact() {
        LipschitzComposed(1.0, r);
      } else if r.IsExact() {
        LipschitzComposed(1.0, l);
      } else {
        SumComposed(l, r);
      }
    } else if op == Mul {
      if l.IsExact() { ScaleFailure(r, MagnitudeOf(leftLiteral), g); }
      else if r.IsExact() { ScaleFailure(l, MagnitudeOf(rightLiteral), g); }
    } else if r.IsExact() {
      InversePositive(rightLiteral);
      ScaleFailure(l, InverseOf(rightLiteral), g);
    } else if OperandDomainStatistic(op, l, r).None? {
      QuotientRule(l, r, g);
    }
  }

  lemma ScaleFailure(l: Guarantee, factor: Option<real>, g: Guarantee)
    requires !l.IsExact() && (factor.Some? ==> factor.value >= 0.0) && ScaledBy(l, factor) == Some(g)
    ensures g.failure == l.failure
  {
    hide IsZero, NeverFails;
    if l.metric != Relative { LipschitzComposed(factor.value, l); }
  }

  lemma FailureOfBoth(g: Guarantee, l: Guarantee, r: Guarantee)
    requires CountsBoth(g, l, r) && Probability(l.failure).Some? && Probability(r.failure).Some?
    ensures Probability(g.failure) == Some(Clamp01(Probability(l.failure).value + Probability(r.failure).value))
  {
    NeverFailsIsZero(l.failure);
    NeverFailsIsZero(r.failure);
    UnionOfTwo(l.failure, r.failure);
    hide IsZero, NeverFails, Probability;
  }

  lemma UnionOfTwo(p: ProbabilityExpr, q: ProbabilityExpr)
    requires Probability(p).Some? && Probability(q).Some?
    ensures Probability(UnionBound([p, q])) == Some(Clamp01(Probability(p).value + Probability(q).value))
  {
    hide Probability;
    ClaimAdds(q, []);
    ClaimAdds(p, [q]);
    assert [p] + [q] == [p, q] && [q] + [] == [q];
    UnionIs([p, q]);
  }

  lemma ClaimAdds(head: ProbabilityExpr, rest: seq<ProbabilityExpr>)
    requires Probability(head).Some? && (rest == [] || ProbabilitySum(rest).Some?)
    ensures ProbabilitySum(rest).Some?
    ensures ProbabilitySum([head] + rest) == Some(Probability(head).value + ProbabilitySum(rest).value)
    ensures rest == [] ==> ProbabilitySum(rest) == Some(0.0)
  {
    hide Probability;
    assert ([head] + rest)[1..] == rest;
  }

  lemma UnionIs(terms: seq<ProbabilityExpr>)
    requires ProbabilitySum(terms).Some?
    ensures Probability(UnionBound(terms)) == Some(Clamp01(ProbabilitySum(terms).value))
  {
    hide ProbabilitySum;
  }

  /** A guarantee of just this absolute bound and failure. */
  ghost predicate KeepsAbsolute(g: Option<Guarantee>, bound: real, failure: ProbabilityExpr) {
    g.Some? && g.value.metric == Absolute && Evaluate(g.value.error) == Some(bound) && g.value.failure == failure
  }

  /** A literal added to or subtracted from an expression, or the other way round, keeps its absolute bound and failure. */
  lemma LiteralShift(op: ArithmeticOp, e: Expr, c: real, inputs: Inputs, l: Guarantee, bound: real)
    requires op == Add || op == Sub
    requires OperandOf(e, inputs, ScalarGuarantee(e, inputs)) == Some(l) && l.metric == Absolute && !l.IsExact()
    requires Evaluate(l.error) == Some(bound)
    ensures KeepsAbsolute(ScalarGuarantee(Arithmetic(op, e, Literal(Number(c))), inputs), bound, l.failure)
    ensures KeepsAbsolute(ScalarGuarantee(Arithmetic(op, Literal(Number(c)), e), inputs), bound, l.failure)
  {
    var literal, exact := Literal(Number(c)), ExactGuarantee("constant");
    hide ArithmeticGuarantee, KeepsAbsolute, Evaluate, NeverFails, ScalarGuarantee;
    ShiftComposed(op, l, exact, LiteralOf(e), LiteralOf(literal), bound);
    ShiftComposed(op, l, exact, LiteralOf(literal), LiteralOf(e), bound);
    LiteralOperand(Number(c), inputs);
    ArithmeticUnfolds(op, e, literal, inputs);
    ArithmeticUnfolds(op, literal, e, inputs);
    assert !SameValue(e, literal) && !SameValue(literal, e);
    hide *;
  }

  lemma LiteralOperand(v: Value, inputs: Inputs)
    ensures OperandOf(Literal(v), inputs, ScalarGuarantee(Literal(v), inputs)) == Some(ExactGuarantee("constant"))
  {
  }

  lemma ArithmeticUnfolds(op: ArithmeticOp, left: Expr, right: Expr, inputs: Inputs)
    ensures ScalarGuarantee(Arithmetic(op, left, right), inputs)
         == ArithmeticGuarantee(op, OperandOf(left, inputs, ScalarGuarantee(left, inputs)),
                                OperandOf(right, inputs, ScalarGuarantee(right, inputs)),
                                LiteralOf(left), LiteralOf(right), SameValue(left, right))
  {
    hide ArithmeticGuarantee, OperandOf;
  }

  lemma ShiftComposed(op: ArithmeticOp, l: Guarantee, exact: Guarantee, leftLiteral: Option<real>, rightLiteral: Option<real>,
                      bound: real)
    requires (op == Add || op == Sub) && l.metric == Absolute && !l.IsExact() && exact.metric == Absolute && exact.IsExact()
    requires Evaluate(l.error) == Some(bound)
    ensures KeepsAbsolute(ArithmeticGuarantee(op, Some(l), Some(exact), leftLiteral, rightLiteral, false), bound, l.failure)
    ensures KeepsAbsolute(ArithmeticGuarantee(op, Some(exact), Some(l), leftLiteral, rightLiteral, false), bound, l.failure)
  {
    assert AdditiveAsAbsolute(l, None) == l && AdditiveAsAbsolute(exact, None) == exact;
    LipschitzComposed(1.0, l);
    ScaledKnown(1.0, l.error);
    Unit(bound);
    hide Evaluate, IsZero, NeverFails, Compose, TimesOf;
  }

  // ------------------------------------------- functions of one value

  /** The approximate ones are in `metric`, a stream-normalized bound counting as an absolute one. */
  predicate AllIn(gs: seq<Guarantee>, metric: Metric) {
    forall i :: 0 <= i < |gs| ==> gs[i].IsExact() || AdditiveAsAbsolute(gs[i], None).metric == metric
  }

  /** A clamp, absolute value or negation has a guarantee exactly for arguments in one value unit. */
  lemma LipschitzGivenIff(gs: seq<Guarantee>)
    ensures LipschitzOf(gs).Some? == (AllIn(gs, Absolute) || AllIn(gs, Relative))
  {
    var approximate := ApproximateOf(gs);
    NoApproximate(gs);
    if approximate != [] {
      ApproximateNotExact(gs, 0);
      assert !AllExact(approximate);
      MetricsOf(gs, Absolute);
      MetricsOf(gs, Relative);
      hide ApproximateOf, IsZero, NeverFails, AdditiveAsAbsolute;
      assert LipschitzOf(gs).Some? == (AllRelative(approximate) || forall i :: 0 <= i < |approximate| ==> approximate[i].metric == Absolute);
    }
  }

  lemma {:induction false} MetricsOf(gs: seq<Guarantee>, metric: Metric)
    ensures (forall i :: 0 <= i < |ApproximateOf(gs)| ==> ApproximateOf(gs)[i].metric == metric) == AllIn(gs, metric)
  {
    if gs != [] {
      var rest, last := gs[..|gs| - 1], gs[|gs| - 1];
      MetricsOf(rest, metric);
      assert gs == rest + [last];
      assert AllIn(gs, metric) == (AllIn(rest, metric) && (last.IsExact() || AdditiveAsAbsolute(last, None).metric == metric));
      hide IsZero, NeverFails, AdditiveAsAbsolute, AllIn;
      var before, all := ApproximateOf(rest), ApproximateOf(gs);
      if last.IsExact() {
        assert all == before;
      } else {
        assert all == before + [AdditiveAsAbsolute(last, None)];
        assert forall i :: 0 <= i < |before| ==> all[i] == before[i];
        assert all[|before|] == AdditiveAsAbsolute(last, None);
      }
    }
  }

  // The values of clamps and absolute values.

  function Arity(name: FunctionName): nat {
    match name
    case Abs => 1
    case Clamp => 3
    case _ => 2
  }

  /** The argument `k` at 1, the others where it decides the result and every estimate up to `top` does too. */
  function Deciding(name: FunctionName, k: nat, top: real, v: real): (xs: seq<Value>)
    requires !name.Named? && k < Arity(name)
    ensures |xs| == Arity(name) && xs[k] == Number(v)
  {
    match name
    case Abs => [Number(v)]
    case ClampMin => if k == 0 then [Number(v), Number(0.0)] else [Number(0.0), Number(v)]
    case ClampMax => if k == 0 then [Number(v), Number(top)] else [Number(top), Number(v)]
    case _ =>
      if k == 0 then [Number(v), Number(0.0), Number(top)]
      else if k == 1 then [Number(0.0), Number(v), Number(top)]
      else [Number(top), Number(0.0), Number(v)]
  }

  lemma DecidingIs(name: FunctionName, k: nat, top: real, v: real, w: real, sem: Semantics)
    requires !name.Named? && k < Arity(name) && 0.0 <= v <= top && 0.0 <= w <= top
    ensures Apply(name, Deciding(name, k, top, v), sem) == Number(v)
    ensures forall i :: 0 <= i < Arity(name) && i != k ==> Deciding(name, k, top, v)[i] == Deciding(name, k, top, w)[i]
  {
  }

  /** Whatever values the arguments' guarantees allow, the result is within `c`. */
  ghost predicate FunctionWithin(name: FunctionName, gs: seq<Guarantee>, metric: Metric, c: real, sem: Semantics) {
    forall xs, xs' :: AllAccurate(gs, xs, xs') ==> Close(metric, Some(c), Apply(name, xs, sem), Apply(name, xs', sem))
  }

  /** Some argument has the largest bound, unless all are zero. */
  lemma {:induction false} LargestOf(bounds: seq<BoundExpr>) returns (k: nat)
    requires EvaluateMax(bounds).Some? && EvaluateMax(bounds).value > 0.0
    ensures k < |bounds| && Evaluate(bounds[k]) == EvaluateMax(bounds)
  {
    hide Evaluate;
    if Evaluate(bounds[0]).value > EvaluateMax(bounds[1..]).value {
      k := 0;
    } else {
      k := LargestOf(bounds[1..]);
      k := k + 1;
    }
  }

  /** The argument behind an approximate one. */
  lemma {:induction false} ArgumentOf(gs: seq<Guarantee>, j: nat) returns (i: nat)
    requires j < |ApproximateOf(gs)|
    ensures i < |gs| && ApproximateOf(gs)[j] == AdditiveAsAbsolute(gs[i], None) && !gs[i].IsExact()
  {
    hide AdditiveAsAbsolute, IsZero, NeverFails;
    var rest := ApproximateOf(gs[..|gs| - 1]);
    if j < |rest| { i := ArgumentOf(gs[..|gs| - 1], j); } else { i := |gs| - 1; }
  }

  /** A restated guarantee with a known bound that is not zero was in value units all along. */
  lemma KnownRestated(g: Guarantee)
    requires Evaluate(AdditiveAsAbsolute(g, None).error).Some? && Evaluate(AdditiveAsAbsolute(g, None).error).value > 0.0
    requires AdditiveAsAbsolute(g, None).metric == Absolute || AdditiveAsAbsolute(g, None).metric == Relative
    requires !g.IsExact()
    ensures AdditiveAsAbsolute(g, None) == g
  {
    if g.metric == AbsoluteStreamL1 || g.metric == AbsoluteStreamL2 {
      var norm := Unknown(if g.metric == AbsoluteStreamL1 then STREAM_L1_NORM else STREAM_L2_NORM);
      if !IsZero(g.error) {
        assert AdditiveAsAbsolute(g, None).error == Product([g.error, norm]);
        ProductOfTwo(g.error, norm);
      }
    }
  }

  /** The argument whose own bound is the composed one. */
  lemma DecidingArgument(gs: seq<Guarantee>, g: Guarantee) returns (k: nat)
    requires LipschitzOf(gs) == Some(g) && Evaluate(g.error).Some? && Evaluate(g.error).value > 0.0
    ensures k < |gs| && gs[k].metric == g.metric && Evaluate(gs[k].error) == Evaluate(g.error)
    ensures g.metric == Absolute || g.metric == Relative
  {
    LipschitzRule(gs, g);
    KnownNotZero(g.error);
    hide LipschitzOf, IsZero, NeverFails;
    var bounds := Errors(ApproximateOf(gs));
    MaxUnfolds(bounds);
    var j := LargestOf(bounds);
    k := ArgumentOf(gs, j);
    KnownRestated(gs[k]);
  }

  lemma KnownNotZero(b: BoundExpr)
    requires Evaluate(b).Some? && Evaluate(b).value > 0.0
    ensures !IsZero(b)
  {
    ZeroIsZero(b);
  }

  lemma MaxUnfolds(bounds: seq<BoundExpr>)
    ensures Evaluate(Max(bounds)) == EvaluateMax(bounds)
  {
  }

  lemma OwnAtBound(metric: Metric, b: real)
    requires (metric == Absolute || metric == Relative) && b >= 0.0
    ensures AtBound(metric, b, Number(1.0), Number(1.0 + b))
  {
    OffByDistance(1.0, b);
    OffByFactor(b);
  }

  lemma FunctionReaches(name: FunctionName, gs: seq<Guarantee>, g: Guarantee, sem: Semantics) returns (xs: seq<Value>, xs': seq<Value>)
    requires !name.Named? && |gs| == Arity(name) && LipschitzOf(gs) == Some(g)
    requires Evaluate(g.error).Some? && Evaluate(g.error).value > 0.0
    ensures AllAccurate(gs, xs, xs')
    ensures AtBound(g.metric, Evaluate(g.error).value, Apply(name, xs, sem), Apply(name, xs', sem))
  {
    var k := DecidingArgument(gs, g);
    var b := Evaluate(g.error).value;
    KnownBound(gs[k].error);
    hide LipschitzOf, IsZero, NeverFails, BoundOf, Evaluate, Apply, AtBound, Accurate, Deciding;
    OffByFactor(b);
    OffBy(gs[k], g.metric, b, 1.0, b);
    OwnAtBound(g.metric, b);
    xs, xs' := Deciding(name, k, 1.0 + b, 1.0), Deciding(name, k, 1.0 + b, 1.0 + b);
    DecidingIs(name, k, 1.0 + b, 1.0, 1.0 + b, sem);
    DecidingIs(name, k, 1.0 + b, 1.0 + b, 1.0, sem);
    forall i | 0 <= i < |gs| ensures Accurate(gs[i], xs[i], xs'[i]) {
      if i != k { SameAccurate(gs[i], xs[i]); }
    }
  }

  /** A clamp or absolute value: the largest of its arguments' bounds is the least that is sound. */
  lemma FunctionLeast(name: FunctionName, gs: seq<Guarantee>, g: Guarantee, c: real, sem: Semantics)
    requires !name.Named? && |gs| == Arity(name) && LipschitzOf(gs) == Some(g) && (name != Abs ==> ClampAllows(gs))
    requires Evaluate(g.error).Some? && c >= 0.0
    ensures FunctionWithin(name, gs, g.metric, c, sem) == (Evaluate(g.error).value <= c)
  {
    hide LipschitzOf, ClampAllows, Evaluate, IsZero, NeverFails, Apply, AllAccurate, Close;
    var bound := Evaluate(g.error).value;
    KnownBound(g.error);
    KeptNonNegative(g.error);
    LipschitzMetric(gs, g);
    if bound <= c {
      forall xs, xs' | AllAccurate(gs, xs, xs') ensures Close(g.metric, Some(c), Apply(name, xs, sem), Apply(name, xs', sem)) {
        FunctionAccurate(name, gs, g, xs, xs', sem);
        hide BoundOf;
        CloseWider(g.metric, bound, c, Apply(name, xs, sem), Apply(name, xs', sem));
      }
    } else {
      var xs, xs' := FunctionReaches(name, gs, g, sem);
      BeyondSmaller(g.metric, bound, c, Apply(name, xs, sem), Apply(name, xs', sem));
    }
  }

  lemma LipschitzMetric(gs: seq<Guarantee>, g: Guarantee)
    requires LipschitzOf(gs) == Some(g)
    ensures g.metric == Absolute || g.metric == Relative
  {
    LipschitzRule(gs, g);
  }

  /** The failure of a function of several values: theirs added. */
  lemma FunctionFailure(gs: seq<Guarantee>, g: Guarantee)
    requires LipschitzOf(gs) == Some(g) && ApproximateOf(gs) != [] && ProbabilitySum(Failures(ApproximateOf(gs))).Some?
    ensures Probability(g.failure) == Some(Clamp01(ProbabilitySum(Failures(ApproximateOf(gs))).value))
  {
    LipschitzRule(gs, g);
    hide LipschitzOf, ApproximateOf;
    FunctionFailureOf(g, Failures(ApproximateOf(gs)));
  }

  lemma FunctionFailureOf(g: Guarantee, ps: seq<ProbabilityExpr>)
    requires g.failure == ScaledProbability(Constant(1.0), UnionBound(ps)) && ProbabilitySum(ps).Some?
    ensures Probability(g.failure) == Some(Clamp01(ProbabilitySum(ps).value))
  {
    hide ProbabilitySum;
    UnionIs(ps);
    ConstantKnown(1.0);
    OneTime(Clamp01(ProbabilitySum(ps).value));
  }

  lemma OneTime(p: real)
    requires 0.0 <= p <= 1.0
    ensures Clamp01(TimesOf(1.0, p)) == p
  {
  }

  // -------------------------------------------- one value, and several

  /** One approximate value in value units keeps its bound, metric and failure. */
  lemma OneArgument(l: Guarantee, g: Guarantee)
    requires LipschitzOf([l]) == Some(g) && !l.IsExact() && Evaluate(l.error).Some?
    requires l.metric == Absolute || l.metric == Relative
    ensures g.metric == l.metric && Evaluate(g.error) == Evaluate(l.error)
    ensures Probability(l.failure).Some? ==> Probability(g.failure) == Probability(l.failure)
  {
    assert [l][..0] == [] && ApproximateOf([l]) == [AdditiveAsAbsolute(l, None)] && AdditiveAsAbsolute(l, None) == l;
    LipschitzRule([l], g);
    hide LipschitzOf, ApproximateOf;
    assert Errors([l]) == [l.error] && Failures([l]) == [l.failure];
    assert Max([l.error]).terms == [l.error];
    OnlyTerm(l.error);
    if Probability(l.failure).Some? {
      ClaimAdds(l.failure, []);
      assert [l.failure] + [] == [l.failure];
      FunctionFailureOf(g, [l.failure]);
    }
  }

  lemma OnlyTerm(b: BoundExpr)
    ensures Evaluate(b).Some? ==> Evaluate(Max([b])) == Evaluate(b)
  {
    assert [b][1..] == [];
    assert EvaluateMax([b][1..]) == Some(0.0);
  }

  /** Negation keeps a known bound in value units, its metric and its failure. */
  lemma NegationKeeps(e: Expr, inputs: Inputs, l: Guarantee)
    requires ScalarGuarantee(e, inputs) == Some(l) && !l.IsExact() && (l.metric == Absolute || l.metric == Relative)
    requires Evaluate(l.error).Some? && Probability(l.failure).Some?
    ensures var g := ScalarGuarantee(Negative(e), inputs);
      && g.Some? && g.value.metric == l.metric && Evaluate(g.value.error) == Evaluate(l.error)
      && Probability(g.value.failure) == Probability(l.failure)
  {
    LipschitzGivenIff([l]);
    assert AdditiveAsAbsolute(l, None) == l;
    assert AllIn([l], l.metric);
    assert ScalarGuarantee(Negative(e), inputs) == LipschitzOf([l]);
    hide LipschitzOf, ScalarGuarantee, Evaluate, Probability;
    OneArgument(l, LipschitzOf([l]).value);
  }

  /** Whichever of the values is picked, its estimate is within `c`. */
  ghost predicate PickWithin(gs: seq<Guarantee>, metric: Metric, c: real) {
    forall k: nat, x, x' :: k < |gs| && Accurate(gs[k], x, x') ==> Close(metric, Some(c), x, x')
  }

  /** The weakest of several guarantees claims no more than one of them must. */
  lemma WeakestLeast(gs: seq<Guarantee>, g: Guarantee, c: real)
    requires Weakest(gs) == Some(g) && (g.metric == Absolute || g.metric == Relative)
    requires Evaluate(g.error).Some? && c >= 0.0
    ensures PickWithin(gs, g.metric, c) == (Evaluate(g.error).value <= c)
  {
    hide Weakest, Close, Evaluate, IsZero, NeverFails;
    var bound := Evaluate(g.error).value;
    KnownBound(g.error);
    KeptNonNegative(g.error);
    if bound <= c {
      forall k: nat, x, x' | k < |gs| && Accurate(gs[k], x, x') ensures Close(g.metric, Some(c), x, x') {
        WeakestAccurate(gs, g, k, x, x');
        hide BoundOf;
        CloseWider(g.metric, bound, c, x, x');
      }
    } else {
      var k := WeakestIsOne(gs, g);
      KnownBound(gs[k].error);
      hide BoundOf;
      OffByFactor(bound);
      OffBy(gs[k], g.metric, bound, 1.0, bound);
      OwnAtBound(g.metric, bound);
      BeyondSmaller(g.metric, bound, c, Number(1.0), Number(1.0 + bound));
      assert k < |gs| && Accurate(gs[k], Number(1.0), Number(1.0 + bound));
    }
  }

  lemma WeakestIsOne(gs: seq<Guarantee>, g: Guarantee) returns (k: nat)
    requires Weakest(gs) == Some(g) && Evaluate(g.error).Some? && Evaluate(g.error).value > 0.0
    ensures k < |gs| && gs[k].metric == g.metric && Evaluate(gs[k].error) == Evaluate(g.error)
  {
    var distinct := DistinctApproximate(gs);
    hide LipschitzOf, IsZero, NeverFails, Evaluate;
    if |distinct| == 0 {
      assert g == ExactGuarantee("exact over exact operands");
      NothingKnown();
      assert false;
    } else {
      var j := 0;
      if |distinct| > 1 { j := DecidingArgument(distinct, g); }
      assert distinct[j] in gs;
      k :| 0 <= k < |gs| && gs[k] == distinct[j];
    }
  }

  lemma NothingKnown()
    ensures Evaluate(Zero) == Some(0.0)
  {
  }

  /** Several values have a weakest guarantee exactly when at most one is approximate, or all are in one value unit. */
  lemma WeakestGivenIff(gs: seq<Guarantee>)
    ensures Weakest(gs).Some? ==
      ((forall i, j :: 0 <= i < j < |gs| && !gs[i].IsExact() && !gs[j].IsExact() ==> gs[i] == gs[j])
       || AllIn(gs, Absolute) || AllIn(gs, Relative))
  {
    var distinct := DistinctApproximate(gs);
    LipschitzGivenIff(distinct);
    hide LipschitzOf, IsZero, NeverFails, AdditiveAsAbsolute;
    DistinctIn(gs, Absolute);
    DistinctIn(gs, Relative);
    AtMostOneKind(gs);
  }

  lemma DistinctIn(gs: seq<Guarantee>, metric: Metric)
    ensures AllIn(DistinctApproximate(gs), metric) == AllIn(gs, metric)
  {
    var distinct := DistinctApproximate(gs);
    hide IsZero, NeverFails, AdditiveAsAbsolute;
    if AllIn(distinct, metric) {
      forall i | 0 <= i < |gs| && !gs[i].IsExact() ensures AdditiveAsAbsolute(gs[i], None).metric == metric {
        assert gs[i] in distinct;
      }
    }
    if AllIn(gs, metric) {
      forall i | 0 <= i < |distinct| ensures AdditiveAsAbsolute(distinct[i], None).metric == metric {
        assert distinct[i] in gs;
      }
    }
  }

  /** No two different approximate guarantees exactly when at most one is kept. */
  lemma AtMostOneKind(gs: seq<Guarantee>)
    ensures (|DistinctApproximate(gs)| <= 1)
         == (forall i, j :: 0 <= i < j < |gs| && !gs[i].IsExact() && !gs[j].IsExact() ==> gs[i] == gs[j])
  {
    var distinct := DistinctApproximate(gs);
    hide IsZero, NeverFails;
    if |distinct| > 1 {
      assert distinct[0] in gs && distinct[1] in gs && distinct[0] != distinct[1];
      var i :| 0 <= i < |gs| && gs[i] == distinct[0];
      var j :| 0 <= j < |gs| && gs[j] == distinct[1];
      assert i != j && !gs[i].IsExact() && !gs[j].IsExact();
    } else {
      forall i, j | 0 <= i < j < |gs| && !gs[i].IsExact() && !gs[j].IsExact() ensures gs[i] == gs[j] {
        assert gs[i] in distinct && gs[j] in distinct;
      }
    }
  }

  // --------------------------------------------- the whole expression

  lemma {:induction false} ConditionsAre(branches: seq<Branch>, inputs: Inputs)
    ensures ConditionsExact(branches, inputs)
         == forall i :: 0 <= i < |branches| ==> IsExactOption(ScalarGuarantee(branches[i].condition, inputs))
  {
    hide ScalarGuarantee, IsExactOption;
    if branches != [] {
      ConditionsAre(branches[1..], inputs);
      assert branches == [branches[0]] + branches[1..];
    }
  }

  lemma {:induction false} ResultsAre(branches: seq<Branch>, inputs: Inputs)
    ensures ResultGuarantees(branches, inputs).Some? ==> |ResultGuarantees(branches, inputs).value| == |branches|
    ensures ResultGuarantees(branches, inputs).Some?
         == forall i :: 0 <= i < |branches| ==> ScalarGuarantee(branches[i].result, inputs).Some?
    ensures ResultGuarantees(branches, inputs).Some? ==>
      forall i :: 0 <= i < |branches| ==> ScalarGuarantee(branches[i].result, inputs) == Some(ResultGuarantees(branches, inputs).value[i])
  {
    hide ScalarGuarantee;
    if branches != [] {
      ResultsAre(branches[1..], inputs);
      assert branches == [branches[0]] + branches[1..];
    }
  }

  /** Each result's guarantee, and the default's last. */
  ghost predicate AreResults(gs: seq<Guarantee>, branches: seq<Branch>, otherwise: Option<Expr>, inputs: Inputs) {
    && |gs| == |branches| + (if otherwise.Some? then 1 else 0)
    && (forall i :: 0 <= i < |branches| ==> ScalarGuarantee(branches[i].result, inputs) == Some(gs[i]))
    && (otherwise.Some? ==> ScalarGuarantee(otherwise.value, inputs) == Some(gs[|branches|]))
  }

  /** What decides a CASE is exact: its operand and every condition. */
  ghost predicate DecidedExactly(operand: Option<Expr>, branches: seq<Branch>, inputs: Inputs) {
    && (operand.Some? ==> IsExactOption(ScalarGuarantee(operand.value, inputs)))
    && forall i :: 0 <= i < |branches| ==> IsExactOption(ScalarGuarantee(branches[i].condition, inputs))
  }

  /** A CASE has the weakest of its results' guarantees exactly when it is decided exactly and every result has one. */
  lemma CaseIsWeakest(operand: Option<Expr>, branches: seq<Branch>, otherwise: Option<Expr>, inputs: Inputs, gs: seq<Guarantee>)
    requires AreResults(gs, branches, otherwise, inputs)
    ensures ScalarGuarantee(Case(operand, branches, otherwise), inputs)
         == if DecidedExactly(operand, branches, inputs) then Weakest(gs) else None
  {
    ConditionsAre(branches, inputs);
    ResultsAre(branches, inputs);
    CaseUnfolds(operand, branches, otherwise, inputs);
    hide ScalarGuarantee, Weakest, IsExactOption, ConditionsExact, ResultGuarantees;
    assert forall i :: 0 <= i < |branches| ==> ScalarGuarantee(branches[i].result, inputs).Some?;
    var n, results := |branches|, ResultGuarantees(branches, inputs).value;
    assert |results| == n && forall i :: 0 <= i < n ==> results[i] == gs[i];
    if otherwise.Some? {
      assert gs == results + [ScalarGuarantee(otherwise.value, inputs).value];
    } else {
      assert gs == results + [];
    }
  }

  lemma CaseUnfolds(operand: Option<Expr>, branches: seq<Branch>, otherwise: Option<Expr>, inputs: Inputs)
    ensures ScalarGuarantee(Case(operand, branches, otherwise), inputs) ==
      if operand.Some? && !IsExactOption(ScalarGuarantee(operand.value, inputs)) then None
      else if !ConditionsExact(branches, inputs) then None
      else
        var results := ResultGuarantees(branches, inputs);
        var last := if otherwise.Some? then ScalarGuarantee(otherwise.value, inputs) else None;
        if results.None? || (otherwise.Some? && last.None?) then None
        else Weakest(results.value + if otherwise.Some? then [last.value] else [])
  {
    hide Weakest, IsExactOption, ConditionsExact, ResultGuarantees;
  }

  /** A CASE has a guarantee only when all its results do. */
  lemma CaseNeedsResults(operand: Option<Expr>, branches: seq<Branch>, otherwise: Option<Expr>, inputs: Inputs)
    requires ScalarGuarantee(Case(operand, branches, otherwise), inputs).Some?
    ensures exists gs :: AreResults(gs, branches, otherwise, inputs)
  {
    ResultsAre(branches, inputs);
    CaseUnfolds(operand, branches, otherwise, inputs);
    hide ScalarGuarantee, Weakest, IsExactOption, ConditionsExact, ResultGuarantees;
    var results := ResultGuarantees(branches, inputs).value;
    var gs := results + if otherwise.Some? then [ScalarGuarantee(otherwise.value, inputs).value] else [];
    assert forall i :: 0 <= i < |branches| ==> gs[i] == results[i];
    assert AreResults(gs, branches, otherwise, inputs);
  }

  lemma {:induction false} OperandsAre(args: seq<Expr>, inputs: Inputs)
    ensures OperandGuarantees(args, inputs).Some?
         == forall i :: 0 <= i < |args| ==> OperandOf(args[i], inputs, ScalarGuarantee(args[i], inputs)).Some?
  {
    hide ScalarGuarantee, OperandOf;
    if args != [] {
      OperandsAre(args[1..], inputs);
      assert args == [args[0]] + args[1..];
    }
  }

  /** Each argument's guarantee as an operand. */
  ghost predicate AreOperands(gs: seq<Guarantee>, args: seq<Expr>, inputs: Inputs) {
    |gs| == |args| && forall i :: 0 <= i < |args| ==> OperandOf(args[i], inputs, ScalarGuarantee(args[i], inputs)) == Some(gs[i])
  }

  /** A clamp or absolute value has a guarantee exactly when its arguments have, in one value unit; any other function when it reads only exact leaves. */
  lemma CallGivenIff(name: FunctionName, args: seq<Expr>, inputs: Inputs)
    ensures !name.Named? ==>
      (ScalarGuarantee(Call(name, args), inputs).Some?
       == exists gs :: AreOperands(gs, args, inputs) && (AllIn(gs, Absolute) || AllIn(gs, Relative)))
    ensures !name.Named? ==>
      forall gs :: AreOperands(gs, args, inputs) ==> ScalarGuarantee(Call(name, args), inputs) == LipschitzOf(gs)
    ensures name.Named? ==>
      ScalarGuarantee(Call(name, args), inputs)
      == if LeavesExact(Call(name, args), inputs) then Some(ExactGuarantee("exact over exact operands")) else None
  {
    if !name.Named? {
      OperandsAre(args, inputs);
      CallUnfolds(name, args, inputs);
      hide ScalarGuarantee, LipschitzOf, OperandOf, AllIn, OperandGuarantees;
      var gs := OperandGuarantees(args, inputs);
      if gs.Some? {
        LipschitzGivenIff(gs.value);
        assert AreOperands(gs.value, args, inputs);
        forall other | AreOperands(other, args, inputs) ensures other == gs.value {
          assert forall i :: 0 <= i < |args| ==> other[i] == gs.value[i];
        }
      }
    }
  }

  lemma CallUnfolds(name: FunctionName, args: seq<Expr>, inputs: Inputs)
    requires !name.Named?
    ensures ScalarGuarantee(Call(name, args), inputs)
         == if OperandGuarantees(args, inputs).None? then None else LipschitzOf(OperandGuarantees(args, inputs).value)
  {
    hide LipschitzOf, OperandGuarantees;
  }
}
