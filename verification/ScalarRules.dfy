/**
 What a guarantee says of one true and one estimated value, and why every rule
 for arithmetic and for Lipschitz functions keeps it.
 */
module ScalarRules {
  import opened Composition
  import opened Guarantees
  import opened RealBounds
  import opened Results
  import opened ScalarExprs

  /** Zero when the bound is zero by structure, else its value. */
  function BoundOf(b: BoundExpr): (r: Option<real>)
    ensures r.Some? ==> r.value >= 0.0
  {
    if IsZero(b) then Some(0.0) else Evaluate(b)
  }

  /** Equal, or two numbers within the bound. A stream-normalized or rank bound other than zero says nothing here. */
  ghost predicate Close(metric: Metric, bound: Option<real>, truth: Value, estimate: Value) {
    || bound.None?
    || truth == estimate
    || (bound.value != 0.0 &&
        match metric
        case Absolute => truth.Number? && estimate.Number? && Distance(estimate.value, truth.value) <= bound.value
        case Relative =>
          truth.Number? && estimate.Number? && Distance(estimate.value, truth.value) <= bound.value * Magnitude(truth.value)
        case _ => true)
  }

  ghost predicate Accurate(g: Guarantee, truth: Value, estimate: Value) {
    Close(g.metric, BoundOf(g.error), truth, estimate)
  }

  // ------------------------------------------- values of composed bounds

  lemma KnownBound(b: BoundExpr)
    requires Evaluate(b).Some?
    ensures BoundOf(b) == Evaluate(b)
  {
    hide Evaluate, IsZero;
    ZeroIsZero(b);
  }

  lemma BoundOfScaled(c: real, b: BoundExpr)
    requires c >= 0.0
    ensures c == 0.0 ==> BoundOf(Scaled(c, b)) == Some(0.0)
    ensures c != 0.0 ==> BoundOf(Scaled(c, b)).Some? == BoundOf(b).Some?
    ensures BoundOf(b).Some? ==> BoundOf(Scaled(c, b)) == Some(TimesOf(c, BoundOf(b).value))
  {
    ScaledUnfolds(c, b);
    hide Evaluate, IsZero, TimesOf;
    var r := Evaluate(b);
    if IsZero(b) || c == 0.0 {
      NothingScaled(c, BoundOf(b));
    } else if r.Some? {
      ScaledValue(c, r.value);
    }
  }

  lemma ScaledUnfolds(c: real, b: BoundExpr)
    ensures IsZero(Scaled(c, b)) <==> c == 0.0 || IsZero(b)
    ensures Evaluate(Scaled(c, b))
         == if Evaluate(b).None? then None else NonNegative(Some(TimesOf(c, Evaluate(b).value)))
  {
    hide TimesOf;
  }

  lemma NothingScaled(c: real, r: Option<real>)
    requires c == 0.0 || r == Some(0.0)
    ensures r.Some? ==> TimesOf(c, r.value) == 0.0
  {
  }

  lemma ScaledValue(c: real, r: real)
    requires c >= 0.0 && r >= 0.0
    ensures TimesOf(c, r) >= 0.0
  {
  }

  lemma SumOfTwo(a: BoundExpr, b: BoundExpr)
    ensures IsZero(Sum([a, b])) <==> IsZero(a) && IsZero(b)
    ensures Evaluate(Sum([a, b])).Some? <==> Evaluate(a).Some? && Evaluate(b).Some?
    ensures Evaluate(Sum([a, b])).Some? ==> Evaluate(Sum([a, b])).value == Evaluate(a).value + Evaluate(b).value
  {
    assert [a, b][1..] == [b] && [b][1..] == [];
    SumStep(a, [b]);
    SumStep(b, []);
    assert [a] + [b] == [a, b] && [b] + [] == [b];
    hide Evaluate, IsZero, AllZero, EvaluateSum;
    SumUnfolds([a, b]);
  }

  lemma SumUnfolds(terms: seq<BoundExpr>)
    ensures IsZero(Sum(terms)) <==> AllZero(terms)
    ensures Evaluate(Sum(terms)) == EvaluateSum(terms)
  {
  }

  lemma SumStep(head: BoundExpr, rest: seq<BoundExpr>)
    ensures AllZero([head] + rest) <==> IsZero(head) && AllZero(rest)
    ensures EvaluateSum([head] + rest).Some? <==> Evaluate(head).Some? && EvaluateSum(rest).Some?
    ensures EvaluateSum([head] + rest).Some? ==>
      EvaluateSum([head] + rest).value == Evaluate(head).value + EvaluateSum(rest).value
    ensures AllZero([]) && EvaluateSum([]) == Some(0.0)
  {
    assert ([head] + rest)[1..] == rest;
  }

  lemma BoundOfSum(a: BoundExpr, b: BoundExpr)
    requires BoundOf(Sum([a, b])).Some?
    ensures BoundOf(a).Some? && BoundOf(b).Some?
    ensures BoundOf(Sum([a, b])).value == BoundOf(a).value + BoundOf(b).value
  {
    SumOfTwo(a, b);
    hide Evaluate, IsZero;
    if !IsZero(Sum([a, b])) {
      KnownBound(Sum([a, b]));
      KnownBound(a);
      KnownBound(b);
    }
  }

  lemma ProductOfTwo(a: BoundExpr, b: BoundExpr)
    ensures IsZero(Product([a, b])) <==> IsZero(a) || IsZero(b)
    ensures Evaluate(Product([a, b])).Some? <==> Evaluate(a).Some? && Evaluate(b).Some?
    ensures Evaluate(Product([a, b])).Some? ==> Evaluate(Product([a, b])).value == TimesOf(Evaluate(a).value, Evaluate(b).value)
  {
    assert [a] + [b] == [a, b] && [b] + [] == [b];
    ProductStep(a, [b]);
    ProductStep(b, []);
    ProductUnfolds([a, b]);
    hide Evaluate, IsZero, AnyZero, EvaluateProduct;
    if Evaluate(b).Some? { TimesOne(Evaluate(b).value); }
  }

  lemma TimesOne(b: real)
    ensures TimesOf(b, 1.0) == b
  {
  }

  lemma ProductStep(head: BoundExpr, rest: seq<BoundExpr>)
    ensures AnyZero([head] + rest) <==> IsZero(head) || AnyZero(rest)
    ensures EvaluateProduct([head] + rest)
         == if Evaluate(head).Some? && EvaluateProduct(rest).Some?
            then Some(TimesOf(Evaluate(head).value, EvaluateProduct(rest).value)) else None
    ensures !AnyZero([]) && EvaluateProduct([]) == Some(1.0)
  {
    hide TimesOf;
    assert ([head] + rest)[1..] == rest;
  }

  lemma ProductUnfolds(factors: seq<BoundExpr>)
    ensures IsZero(Product(factors)) <==> AnyZero(factors)
    ensures Evaluate(Product(factors)) == EvaluateProduct(factors)
  {
    hide TimesOf;
  }

  /** The bound of a product of two relative errors. */
  lemma BoundOfRelativeProduct(a: BoundExpr, b: BoundExpr)
    requires BoundOf(Sum([a, b, Product([a, b])])).Some?
    ensures BoundOf(a).Some? && BoundOf(b).Some?
    ensures BoundOf(Sum([a, b, Product([a, b])])).value
         == BoundOf(a).value + BoundOf(b).value + TimesOf(BoundOf(a).value, BoundOf(b).value)
  {
    var p := Product([a, b]);
    ProductOfTwo(a, b);
    SumStep(a, [b, p]);
    SumStep(b, [p]);
    SumStep(p, []);
    assert [a] + [b, p] == [a, b, p] && [b] + [p] == [b, p] && [p] + [] == [p];
    SumUnfolds([a, b, p]);
    hide Evaluate, IsZero, AllZero, EvaluateSum, TimesOf;
    if IsZero(Sum([a, b, p])) {
      TimesOne(0.0);
      ZeroTimes();
    } else {
      KnownBound(a);
      KnownBound(b);
      KnownBound(Sum([a, b, p]));
    }
  }

  lemma ZeroTimes()
    ensures TimesOf(0.0, 0.0) == 0.0
  {
  }

  /** The largest of several bounds is at least each of them. */
  lemma BoundOfMax(bounds: seq<BoundExpr>, i: nat)
    requires BoundOf(Max(bounds)).Some? && i < |bounds|
    ensures BoundOf(bounds[i]).Some? && BoundOf(bounds[i]).value <= BoundOf(Max(bounds)).value
  {
    if IsZero(Max(bounds)) {
      assert AllZero(bounds);
      ZeroTerm(bounds, i);
    } else {
      assert EvaluateMax(bounds).Some?;
      TermOfMax(bounds, i);
      KnownBound(bounds[i]);
    }
  }

  // ------------------------------------------------- facts of closeness

  lemma CloseAbsolute(b: real, t: Value, e: Value)
    requires b >= 0.0
    ensures Close(Absolute, Some(b), t, e) <==> t == e || (t.Number? && e.Number? && Distance(e.value, t.value) <= b)
  {
  }

  lemma CloseRelative(b: real, t: Value, e: Value)
    requires b >= 0.0
    ensures Close(Relative, Some(b), t, e)
       <==> t == e || (t.Number? && e.Number? && Distance(e.value, t.value) <= b * Magnitude(t.value))
  {
    if b == 0.0 && t.Number? && e.Number? { NoSpread(e.value, t.value, b); }
  }

  lemma NoSpread(e: real, t: real, b: real)
    requires b == 0.0
    ensures Distance(e, t) <= b * Magnitude(t) <==> e == t
  {
  }

  lemma AbsoluteNumbers(b: real, t: real, e: real)
    requires b >= 0.0 && Distance(e, t) <= b
    ensures Close(Absolute, Some(b), Number(t), Number(e))
  {
    CloseAbsolute(b, Number(t), Number(e));
  }

  lemma RelativeNumbers(b: real, t: real, e: real)
    requires b >= 0.0 && Distance(e, t) <= b * Magnitude(t)
    ensures Close(Relative, Some(b), Number(t), Number(e))
  {
    CloseRelative(b, Number(t), Number(e));
  }

  /** Two close values are one value or two numbers. */
  lemma Numbers(metric: Metric, b: real, t: Value, e: Value)
    requires b >= 0.0 && (metric == Absolute || metric == Relative) && Close(metric, Some(b), t, e)
    ensures t.Number? == e.Number?
    ensures !t.Number? ==> t == e
    ensures t.Number? && metric == Absolute ==> Distance(e.value, t.value) <= b
    ensures t.Number? && metric == Relative ==> Distance(e.value, t.value) <= b * Magnitude(t.value)
  {
    CloseAbsolute(b, t, e);
    CloseRelative(b, t, e);
    if t.Number? { SelfClose(t.value, b); }
  }

  lemma SelfClose(x: real, a: real)
    requires a >= 0.0
    ensures Distance(x, x) <= a * Magnitude(x)
    ensures Distance(x, x) <= a
  {
    ProductAtLeast(a, Magnitude(x));
  }

  lemma ProductAtLeast(a: real, b: real)
    requires a >= 0.0 && b >= 0.0
    ensures a * b >= 0.0
  {
  }

  lemma SameIsClose(metric: Metric, b: real, t: Value)
    ensures Close(metric, Some(b), t, t)
  {
  }

  lemma CloseWider(metric: Metric, b: real, c: real, t: Value, e: Value)
    requires 0.0 <= b <= c && (metric == Absolute || metric == Relative)
    requires Close(metric, Some(b), t, e)
    ensures Close(metric, Some(c), t, e)
  {
    hide Distance, Magnitude;
    if metric == Absolute {
      CloseAbsolute(b, t, e);
      CloseAbsolute(c, t, e);
    } else {
      CloseRelative(b, t, e);
      CloseRelative(c, t, e);
      if t.Number? { Times(Magnitude(t.value), b, c); }
    }
  }

  /** An exact guarantee leaves no room. */
  lemma ExactIsEqual(g: Guarantee, t: Value, e: Value)
    requires g.IsExact() && Accurate(g, t, e)
    ensures t == e
  {
  }

  /** Restating a stream-normalized bound with no known norm claims no more than before. */
  lemma RestatedAccurate(g: Guarantee, t: Value, e: Value)
    requires Accurate(g, t, e)
    ensures Accurate(AdditiveAsAbsolute(g, None), t, e)
    ensures AdditiveAsAbsolute(g, None).failure == g.failure
  {
    if (g.metric == AbsoluteStreamL1 || g.metric == AbsoluteStreamL2) && !g.IsExact() && !IsZero(g.error) {
      var norm := Unknown(if g.metric == AbsoluteStreamL1 then STREAM_L1_NORM else STREAM_L2_NORM);
      ProductOfTwo(g.error, norm);
      assert Evaluate(norm).None?;
      assert AdditiveAsAbsolute(g, None).error == Product([g.error, norm]);
      hide Evaluate, IsZero;
      assert BoundOf(Product([g.error, norm])).None? || IsZero(norm);
      UnknownNotZero(norm);
    }
  }

  lemma UnknownNotZero(b: BoundExpr)
    requires b.Unknown?
    ensures !IsZero(b)
  {
  }

  // ------------------------------------------------ the rules, unfolded

  lemma LipschitzComposed(c: real, l: Guarantee)
    requires c >= 0.0 && !l.IsExact()
    ensures Compose(Lipschitz(c), [l], None)
         == if l.metric == Absolute then Some(LipschitzGuarantee(Lipschitz(c), c, [l], None)) else None
  {
    assert !AllExact([l]) by { assert [l][0] == l; }
    assert SameMetric([l], Absolute) <==> l.metric == Absolute by { assert [l][0] == l; }
  }

  lemma SumComposed(l: Guarantee, r: Guarantee)
    requires !l.IsExact()
    ensures Compose(Lipschitz(1.0), [l], Some(r))
         == if l.metric == Absolute && r.metric == Absolute
            then Some(LipschitzGuarantee(Lipschitz(1.0), 1.0, [l], Some(r))) else None
  {
    assert !AllExact([l]) by { assert [l][0] == l; }
    assert SameMetric([l], Absolute) <==> l.metric == Absolute by { assert [l][0] == l; }
  }

  lemma DivisionComposed(l: Guarantee, r: Guarantee)
    requires !r.IsExact()
    ensures Compose(ExactDivision, [l, r], None)
         == if SameMetric([l, r], Relative) then Succeeded(DivisionRule(ExactDivision, [l, r], 0.0, "relative_division_union_bound"))
            else None
  {
    assert !AllExact([l, r]) by { assert [l, r][1] == r; }
  }

  // ------------------------------------------------------- arithmetic

  /** Which failures a composed arithmetic guarantee counts. */
  predicate CountsBoth(g: Guarantee, l: Guarantee, r: Guarantee) {
    || (r.IsExact() && g.failure == l.failure)
    || (l.IsExact() && g.failure == r.failure)
    || g.failure == UnionBound([l.failure, r.failure])
  }

  lemma OneScaled(b: BoundExpr)
    ensures BoundOf(Scaled(1.0, b)) == BoundOf(b)
  {
    BoundOfScaled(1.0, b);
    hide TimesOf, BoundOf;
    if BoundOf(b).Some? { Unit(BoundOf(b).value); }
  }

  /** A value plus or minus an exact one. */
  lemma ShiftedAccurate(op: ArithmeticOp, l: Guarantee, g: Guarantee, x: Value, x': Value, y: Value, sem: Semantics)
    requires op == Add || op == Sub
    requires !l.IsExact() && Shifted(l) == Some(g) && Accurate(l, x, x')
    ensures Accurate(g, Compute(op, x, y, sem), Compute(op, x', y, sem))
    ensures Accurate(g, Compute(op, y, x, sem), Compute(op, y, x', sem))
    ensures g.failure == l.failure
  {
    LipschitzComposed(1.0, l);
    OneScaled(l.error);
    hide BoundOf;
    var b := BoundOf(l.error);
    if b.Some? {
      KeptNonNegative(l.error);
      CloseAbsolute(b.value, x, x');
      CloseAbsolute(b.value, Compute(op, x, y, sem), Compute(op, x', y, sem));
      CloseAbsolute(b.value, Compute(op, y, x, sem), Compute(op, y, x', sem));
    }
  }

  lemma KeptNonNegative(b: BoundExpr)
    ensures BoundOf(b).Some? ==> BoundOf(b).value >= 0.0
  {
  }

  lemma SumAccurate(op: ArithmeticOp, l: Guarantee, r: Guarantee, g: Guarantee, x: Value, x': Value, y: Value,
                    y': Value,
                    sem: Semantics)
    requires op == Add || op == Sub
    requires !l.IsExact() && Compose(Lipschitz(1.0), [l], Some(r)) == Some(g)
    requires Accurate(l, x, x') && Accurate(r, y, y')
    ensures Accurate(g, Compute(op, x, y, sem), Compute(op, x', y', sem))
    ensures CountsBoth(g, l, r)
  {
    SumComposed(l, r);
    OneScaled(l.error);
    assert g.error == Sum([Scaled(1.0, l.error), r.error]);
    hide BoundOf;
    if BoundOf(g.error).Some? {
      BoundOfSum(Scaled(1.0, l.error), r.error);
      KeptNonNegative(l.error);
      KeptNonNegative(r.error);
      var a, b := BoundOf(l.error).value, BoundOf(r.error).value;
      CloseAbsolute(a, x, x');
      CloseAbsolute(b, y, y');
      CloseAbsolute(a + b, Compute(op, x, y, sem), Compute(op, x', y', sem));
    }
  }

  /** A factor of `c`, on either side. */
  lemma FactorClose(metric: Metric, b: real, c: real, x: Value, x': Value, sem: Semantics)
    requires b >= 0.0 && (metric == Absolute || metric == Relative) && Close(metric, Some(b), x, x')
    ensures metric == Absolute ==> Close(Absolute, Some(Magnitude(c) * b), Compute(Mul, x, Number(c), sem),
                                              Compute(Mul, x', Number(c), sem))
    ensures metric == Relative ==> Close(Relative, Some(b), Compute(Mul, x, Number(c), sem), Compute(Mul, x', Number(c), sem))
  {
    hide *;
    NumberOrSame(metric, Some(b), x, x');
    ComputeIs(Mul, x, Number(c), sem);
    ComputeIs(Mul, x', Number(c), sem);
    if x.Number? {
      FactorCloseNumbers(metric, b, c, x.value, x'.value, sem);
    } else {
      SameIsClose(Absolute, Magnitude(c) * b, Undefined);
      SameIsClose(Relative, b, Undefined);
    }
  }

  lemma FactorCloseNumbers(metric: Metric, b: real, c: real, x: real, x': real, sem: Semantics)
    requires b >= 0.0 && (metric == Absolute || metric == Relative) && Close(metric, Some(b), Number(x), Number(x'))
    ensures metric == Absolute ==> Close(Absolute, Some(Magnitude(c) * b), Compute(Mul, Number(x), Number(c), sem),
                                              Compute(Mul, Number(x'), Number(c), sem))
    ensures metric == Relative ==> Close(Relative, Some(b), Compute(Mul, Number(x), Number(c), sem),
                                              Compute(Mul, Number(x'), Number(c), sem))
  {
    hide *;
    ProductIs(x, c, sem);
    ProductIs(x', c, sem);
    Numbers(metric, b, Number(x), Number(x'));
    MagnitudeZero(c);
    ProductAtLeast(Magnitude(c), b);
    FactorNumbers(metric, b, c, x, x');
    if metric == Absolute { AbsoluteNumbers(Magnitude(c) * b, x * c, x' * c); }
    if metric == Relative { RelativeNumbers(b, x * c, x' * c); }
  }

  /** Close values are two numbers or one value. */
  lemma NumberOrSame(metric: Metric, bound: Option<real>, t: Value, e: Value)
    requires bound.Some? && (metric == Absolute || metric == Relative) && Close(metric, bound, t, e)
    ensures t.Number? == e.Number?
    ensures !t.Number? ==> t == e
  {
  }

  lemma ComputeIs(op: ArithmeticOp, x: Value, y: Value, sem: Semantics)
    ensures !x.Number? || !y.Number? ==> Compute(op, x, y, sem) == Undefined
    ensures x.Number? && y.Number? && op == Div ==>
      Compute(op, x, y, sem) == if y.value == 0.0 then Undefined else Number(x.value / y.value)
  {
  }

  lemma FactorNumbers(metric: Metric, b: real, c: real, x: real, x': real)
    requires metric == Absolute ==> Distance(x', x) <= b
    requires metric == Relative ==> Distance(x', x) <= b * Magnitude(x)
    ensures metric == Absolute ==> Distance(x' * c, x * c) <= Magnitude(c) * b
    ensures metric == Relative ==> Distance(x' * c, x * c) <= b * Magnitude(x * c)
  {
    hide *;
    assert c * x == x * c && c * x' == x' * c;
    DistanceScales(c, x', x);
    if metric == Absolute { Times(Magnitude(c), Distance(x', x), b); }
    if metric == Relative { RelativeScales(c, x, x', b); }
  }

  lemma ComputeCommutes(x: Value, y: Value, sem: Semantics)
    ensures Compute(Mul, x, y, sem) == Compute(Mul, y, x, sem)
  {
  }

  /** Multiplication by an exact value; by a literal zero only a bound that is known keeps what is undefined undefined. */
  lemma ScaledAccurate(l: Guarantee, factor: Option<real>, g: Guarantee, x: Value, x': Value, y: Value, sem: Semantics)
    requires !l.IsExact() && ScaledBy(l, MagnitudeOf(factor)) == Some(g) && Accurate(l, x, x')
    requires factor.Some? ==> y == Number(factor.value)
    requires factor == Some(0.0) && l.metric != Relative ==> BoundOf(l.error).Some?
    ensures Accurate(g, Compute(Mul, x, y, sem), Compute(Mul, x', y, sem))
    ensures g.failure == l.failure
  {
    hide BoundOf;
    KeptNonNegative(l.error);
    if l.metric == Relative {
      if y.Number? && BoundOf(l.error).Some? {
        FactorClose(Relative, BoundOf(l.error).value, y.value, x, x', sem);
      }
    } else {
      var c := factor.value;
      LipschitzComposed(Magnitude(c), l);
      BoundOfScaled(Magnitude(c), l.error);
      if BoundOf(l.error).Some? {
        ProductUnfolded(Magnitude(c), BoundOf(l.error).value);
        FactorClose(Absolute, BoundOf(l.error).value, c, x, x', sem);
      }
    }
  }

  /** Division by an exact value that is not a literal zero. */
  lemma DividedAccurate(l: Guarantee, divisor: Option<real>, g: Guarantee, x: Value, x': Value, y: Value,
                        sem: Semantics)
    requires divisor != Some(0.0)
    requires !l.IsExact() && ScaledBy(l, InverseOf(divisor)) == Some(g) && Accurate(l, x, x')
    requires divisor.Some? ==> y == Number(divisor.value)
    ensures Accurate(g, Compute(Div, x, y, sem), Compute(Div, x', y, sem))
    ensures g.failure == l.failure
  {
    hide BoundOf;
    KeptNonNegative(l.error);
    if l.metric == Relative {
      if y.Number? && y.value != 0.0 && BoundOf(l.error).Some? {
        DivisorClose(Relative, BoundOf(l.error).value, y.value, x, x', sem);
      }
    } else {
      var c := 1.0 / Magnitude(divisor.value);
      assert c > 0.0;
      LipschitzComposed(c, l);
      BoundOfScaled(c, l.error);
      if BoundOf(l.error).Some? {
        ProductUnfolded(c, BoundOf(l.error).value);
        DivisorClose(Absolute, BoundOf(l.error).value, divisor.value, x, x', sem);
      }
    }
  }

  lemma DivisorClose(metric: Metric, b: real, c: real, x: Value, x': Value, sem: Semantics)
    requires b >= 0.0 && c != 0.0 && (metric == Absolute || metric == Relative) && Close(metric, Some(b), x, x')
    ensures Magnitude(c) > 0.0
    ensures metric == Absolute ==>
      Close(Absolute, Some(1.0 / Magnitude(c) * b), Compute(Div, x, Number(c), sem), Compute(Div, x', Number(c), sem))
    ensures metric == Relative ==> Close(Relative, Some(b), Compute(Div, x, Number(c), sem), Compute(Div, x', Number(c), sem))
  {
    hide *;
    NumberOrSame(metric, Some(b), x, x');
    ComputeIs(Div, x, Number(c), sem);
    ComputeIs(Div, x', Number(c), sem);
    DivisorPositive(c);
    if x.Number? {
      DivisorCloseNumbers(metric, b, c, x.value, x'.value);
    } else {
      SameIsClose(Absolute, 1.0 / Magnitude(c) * b, Undefined);
      SameIsClose(Relative, b, Undefined);
    }
  }

  lemma DivisorCloseNumbers(metric: Metric, b: real, c: real, x: real, x': real)
    requires b >= 0.0 && c != 0.0 && (metric == Absolute || metric == Relative)
    requires Close(metric, Some(b), Number(x), Number(x'))
    ensures Magnitude(c) > 0.0
    ensures metric == Absolute ==> Close(Absolute, Some(1.0 / Magnitude(c) * b), Number(x / c), Number(x' / c))
    ensures metric == Relative ==> Close(Relative, Some(b), Number(x / c), Number(x' / c))
  {
    hide *;
    Numbers(metric, b, Number(x), Number(x'));
    DivisorPositive(c);
    ProductAtLeast(1.0 / Magnitude(c), b);
    DivisorNumbers(metric, b, c, x, x');
    if metric == Absolute { AbsoluteNumbers(1.0 / Magnitude(c) * b, x / c, x' / c); }
    if metric == Relative { RelativeNumbers(b, x / c, x' / c); }
  }

  lemma DivisorPositive(c: real)
    requires c != 0.0
    ensures Magnitude(c) > 0.0 && 1.0 / Magnitude(c) > 0.0
  {
    assert Magnitude(c) > 0.0;
  }

  lemma DivisorNumbers(metric: Metric, b: real, c: real, x: real, x': real)
    requires c != 0.0
    requires metric == Absolute ==> Distance(x', x) <= b
    requires metric == Relative ==> Distance(x', x) <= b * Magnitude(x)
    ensures Magnitude(c) > 0.0
    ensures metric == Absolute ==> Distance(x' / c, x / c) <= 1.0 / Magnitude(c) * b
    ensures metric == Relative ==> Distance(x' / c, x / c) <= b * Magnitude(x / c)
  {
    hide *;
    DivisorPositive(c);
    var inverse := 1.0 / Magnitude(c);
    if metric == Absolute {
      AbsoluteDivisor(x, x', c);
      Times(inverse, Distance(x', x), b);
    }
    if metric == Relative { RelativeDivisor(x, x', c, b); }
  }

  lemma RelativeProductAccurate(l: Guarantee, r: Guarantee, g: Guarantee, x: Value, x': Value, y: Value, y': Value,
                                sem: Semantics)
    requires RelativeProductGuarantee(l, r) == Some(g)
    requires Accurate(l, x, x') && Accurate(r, y, y')
    ensures Accurate(g, Compute(Mul, x, y, sem), Compute(Mul, x', y', sem))
    ensures CountsBoth(g, l, r)
  {
    assert g.error == Sum([l.error, r.error, Product([l.error, r.error])]);
    hide BoundOf;
    if BoundOf(g.error).Some? {
      BoundOfRelativeProduct(l.error, r.error);
      KeptNonNegative(l.error);
      KeptNonNegative(r.error);
      var a, b := BoundOf(l.error).value, BoundOf(r.error).value;
      ProductUnfolded(a, b);
      hide *;
      RelativeProductClose(a, b, x, x', y, y', sem);
      StaysAccurate(g, a + b + a * b, Compute(Mul, x, y, sem), Compute(Mul, x', y', sem));
    }
  }

  lemma ProductUnfolded(a: real, b: real)
    ensures TimesOf(a, b) == a * b
  {
  }

  lemma RelativeProductClose(a: real, b: real, x: Value, x': Value, y: Value, y': Value, sem: Semantics)
    requires a >= 0.0 && b >= 0.0
    requires Close(Relative, Some(a), x, x') && Close(Relative, Some(b), y, y')
    ensures Close(Relative, Some(a + b + a * b), Compute(Mul, x, y, sem), Compute(Mul, x', y', sem))
  {
    hide *;
    NumberOrSame(Relative, Some(a), x, x');
    NumberOrSame(Relative, Some(b), y, y');
    ComputeIs(Mul, x, y, sem);
    ComputeIs(Mul, x', y', sem);
    if x.Number? && y.Number? {
      ProductCloseNumbers(a, b, x.value, x'.value, y.value, y'.value, sem);
    } else {
      SameIsClose(Relative, a + b + a * b, Undefined);
    }
  }

  lemma ProductIs(x: real, y: real, sem: Semantics)
    ensures Compute(Mul, Number(x), Number(y), sem) == Number(x * y)
  {
  }

  lemma ProductCloseNumbers(a: real, b: real, x: real, x': real, y: real, y': real, sem: Semantics)
    requires a >= 0.0 && b >= 0.0
    requires Close(Relative, Some(a), Number(x), Number(x')) && Close(Relative, Some(b), Number(y), Number(y'))
    ensures Close(Relative, Some(a + b + a * b), Compute(Mul, Number(x), Number(y), sem), Compute(Mul, Number(x'), Number(y'), sem))
  {
    hide *;
    ProductIs(x, y, sem);
    ProductIs(x', y', sem);
    Numbers(Relative, a, Number(x), Number(x'));
    Numbers(Relative, b, Number(y), Number(y'));
    ProductAtLeast(a, b);
    RelativeProduct(x, x', y, y', a, b);
    RelativeNumbers(a + b + a * b, x * y, x' * y');
  }

  lemma QuotientAccurate(l: Guarantee, r: Guarantee, g: Guarantee, x: Value, x': Value, y: Value, y': Value,
                         sem: Semantics)
    requires !r.IsExact() && Compose(ExactDivision, [l, r], None) == Some(g)
    requires Accurate(l, x, x') && Accurate(r, y, y')
    ensures Accurate(g, Compute(Div, x, y, sem), Compute(Div, x', y', sem))
    ensures CountsBoth(g, l, r)
  {
    QuotientRule(l, r, g);
    var a, b := Evaluate(l.error).value, Evaluate(r.error).value;
    OperandClose(l, a, x, x');
    OperandClose(r, b, y, y');
    hide *;
    ConstantQuotient(a, b);
    QuotientClose(a, b, x, x', y, y', sem);
    StaysAccurate(g, (a + b) / (1.0 - b), Compute(Div, x, y, sem), Compute(Div, x', y', sem));
  }

  lemma QuotientRule(l: Guarantee, r: Guarantee, g: Guarantee)
    requires !r.IsExact() && Compose(ExactDivision, [l, r], None) == Some(g)
    ensures ExactOrRelative(l) && r.metric == Relative
    ensures Evaluate(l.error).Some? && Evaluate(r.error).Some? && Evaluate(r.error).value < 1.0
    ensures g.metric == Relative && CountsBoth(g, l, r)
    ensures var a, b := Evaluate(l.error).value, Evaluate(r.error).value;
      g.error == Constant((a + b) / (1.0 - b))
  {
    hide Evaluate, ComposedProvenance;
    DivisionComposed(l, r);
    FailuresOfTwo(l, r);
    assert [l, r][0] == l && [l, r][1] == r;
    hide Propagate, Compose;
  }

  lemma OperandClose(l: Guarantee, a: real, x: Value, x': Value)
    requires ExactOrRelative(l) && Evaluate(l.error) == Some(a) && Accurate(l, x, x')
    ensures Close(Relative, Some(a), x, x')
  {
    KnownBound(l.error);
    hide Evaluate, IsZero;
    if l.metric != Relative { ExactIsEqual(l, x, x'); }
  }

  lemma FailuresOfTwo(l: Guarantee, r: Guarantee)
    ensures Failures([l, r]) == [l.failure, r.failure]
  {
    assert [l, r][1..] == [r] && [r][1..] == [];
  }

  lemma ConstantQuotient(a: real, b: real)
    requires a >= 0.0 && 0.0 <= b < 1.0
    ensures (a + b) / (1.0 - b) >= 0.0
    ensures BoundOf(Constant((a + b) / (1.0 - b))) == Some((a + b) / (1.0 - b))
  {
    NonNegativeQuotient(a + b, 1.0 - b);
  }

  lemma StaysAccurate(g: Guarantee, bound: real, t: Value, e: Value)
    requires g.metric == Relative && BoundOf(g.error) == Some(bound) && Close(Relative, Some(bound), t, e)
    ensures Accurate(g, t, e)
  {
  }

  lemma QuotientClose(a: real, b: real, x: Value, x': Value, y: Value, y': Value, sem: Semantics)
    requires a >= 0.0 && 0.0 <= b < 1.0
    requires Close(Relative, Some(a), x, x') && Close(Relative, Some(b), y, y')
    ensures Close(Relative, Some((a + b) / (1.0 - b)), Compute(Div, x, y, sem), Compute(Div, x', y', sem))
  {
    hide *;
    NumberOrSame(Relative, Some(a), x, x');
    NumberOrSame(Relative, Some(b), y, y');
    ComputeIs(Div, x, y, sem);
    ComputeIs(Div, x', y', sem);
    if x.Number? && y.Number? {
      DenominatorKeepsZero(b, y.value, y'.value);
      if y.value != 0.0 {
        QuotientCloseNumbers(a, b, x.value, x'.value, y.value, y'.value);
      } else {
        SameIsClose(Relative, (a + b) / (1.0 - b), Undefined);
      }
    } else {
      SameIsClose(Relative, (a + b) / (1.0 - b), Undefined);
    }
  }

  lemma DenominatorKeepsZero(b: real, y: real, y': real)
    requires 0.0 <= b < 1.0 && Close(Relative, Some(b), Number(y), Number(y'))
    ensures y == 0.0 <==> y' == 0.0
  {
    hide *;
    Numbers(Relative, b, Number(y), Number(y'));
    RelativeKeepsSign(y, y', b);
  }

  lemma QuotientCloseNumbers(a: real, b: real, x: real, x': real, y: real, y': real)
    requires a >= 0.0 && 0.0 <= b < 1.0 && y != 0.0
    requires Close(Relative, Some(a), Number(x), Number(x')) && Close(Relative, Some(b), Number(y), Number(y'))
    ensures y' != 0.0
    ensures Close(Relative, Some((a + b) / (1.0 - b)), Number(x / y), Number(x' / y'))
  {
    hide *;
    Numbers(Relative, a, Number(x), Number(x'));
    Numbers(Relative, b, Number(y), Number(y'));
    NonNegativeQuotient(a + b, 1.0 - b);
    RelativeQuotient(x, x', y, y', a, b);
    RelativeNumbers((a + b) / (1.0 - b), x / y, x' / y');
  }

  lemma SymbolicAccurate(l: Guarantee, r: Guarantee, statistic: string, t: Value, e: Value)
    ensures Accurate(Symbolic(l, r, statistic), t, e)
    ensures CountsBoth(Symbolic(l, r, statistic), l, r)
  {
  }
}
