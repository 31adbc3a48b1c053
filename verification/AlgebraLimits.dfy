/**
 Where the scalar error algebra stops being sound, exactly: a clamp of relative
 estimates, a literal zero times an unbounded operand, and the non-finite
 quotients of estimates.
 */
module AlgebraLimits {
  import opened Composition
  import opened FiniteSums
  import opened Guarantees
  import opened LipschitzRules
  import opened Outcomes
  import opened RealBounds
  import opened Results
  import opened ScalarExprs
  import opened ScalarRules
  import opened ScalarSoundness

  // -------------------------------------------------------------- clamps

  /** `clamp_min` keeps the relative bound for all values. */
  ghost predicate ClampKeeps(g: Guarantee, floor: Guarantee, sem: Semantics)
    requires LipschitzOf([g, floor]).Some?
  {
    forall x: real, x': real, y: real :: Accurate(g, Number(x), Number(x')) ==>
      Accurate(LipschitzOf([g, floor]).value, Apply(ClampMin, [Number(x), Number(y)], sem),
               Apply(ClampMin, [Number(x'), Number(y)], sem))
  }

  lemma RelativeClamp(g: Guarantee, floor: Guarantee, a: real)
    requires g.metric == Relative && !g.IsExact() && floor.IsExact() && Evaluate(g.error) == Some(a)
    ensures LipschitzOf([g, floor]).Some?
    ensures BoundOf(g.error) == Some(a)
    ensures LipschitzOf([g, floor]).value.metric == Relative && BoundOf(LipschitzOf([g, floor]).value.error) == Some(a)
  {
    KnownBound(g.error);
    assert [g, floor][..1] == [g] && [g][..0] == [];
    assert ApproximateOf([g]) == [g];
    assert ApproximateOf([g, floor]) == [g];
    assert !AllExact([g]) && AllRelative([g]) by { assert [g][0] == g; }
    assert Errors([g]) == [g.error];
    OnlyTerm(g.error);
    assert LipschitzOf([g, floor]).value.error == Max([g.error]);
  }

  lemma OnlyTerm(b: BoundExpr)
    ensures BoundOf(Max([b])) == BoundOf(b)
  {
    assert [b][1..] == [];
    assert AllZero([b]) <==> IsZero(b);
    assert EvaluateMax([b]) == Evaluate(b);
  }

  /** A clamp of a relative estimate is sound exactly when its bound is at most one. */
  lemma ClampSoundIffAtMostOne(g: Guarantee, floor: Guarantee, a: real, sem: Semantics)
    requires g.metric == Relative && !g.IsExact() && floor.IsExact() && Evaluate(g.error) == Some(a)
    ensures LipschitzOf([g, floor]).Some?
    ensures ClampKeeps(g, floor, sem) <==> a <= 1.0
  {
    RelativeClamp(g, floor, a);
    var c := LipschitzOf([g, floor]).value;
    hide IsZero, NeverFails, Evaluate, LipschitzOf, Close, Apply, BoundOf;
    if a <= 1.0 {
      forall x: real, x': real, y: real | Accurate(g, Number(x), Number(x'))
        ensures Accurate(c, Apply(ClampMin, [Number(x), Number(y)], sem),
               Apply(ClampMin, [Number(x'), Number(y)], sem))
      {
        SameAccurate(floor, Number(y));
        FunctionAccurate(ClampMin, [g, floor], c, [Number(x), Number(y)], [Number(x'), Number(y)], sem);
      }
    } else {
      CrossingZero(a, sem);
      RelativeNumbers(a, -1.0, a - 1.0);
      var x, x', y := -1.0, a - 1.0, 0.0;
      assert Accurate(g, Number(x), Number(x'));
      assert !Accurate(c, Apply(ClampMin, [Number(x), Number(y)], sem),
               Apply(ClampMin, [Number(x'), Number(y)], sem));
    }
  }

  /** The true value -1 clamps to 0; an estimate beyond 0 does not. */
  lemma CrossingZero(a: real, sem: Semantics)
    requires a > 1.0
    ensures Distance(a - 1.0, -1.0) <= a * Magnitude(-1.0)
    ensures !Close(Relative, Some(a), Apply(ClampMin, [Number(-1.0), Number(0.0)], sem),
                   Apply(ClampMin, [Number(a - 1.0), Number(0.0)], sem))
  {
    assert Magnitude(-1.0) == 1.0 && Distance(a - 1.0, -1.0) == a;
    assert Apply(ClampMin, [Number(-1.0), Number(0.0)], sem) == Number(0.0);
    assert Apply(ClampMin, [Number(a - 1.0), Number(0.0)], sem) == Number(a - 1.0);
    assert a * Magnitude(0.0) == 0.0;
  }

  // -------------------------------------------------------- literal zero

  /** Zero times the estimate is accurate under the scaled guarantee, for all values. */
  ghost predicate ZeroFactorKeeps(g: Guarantee, sem: Semantics)
    requires ScaledBy(g, Some(0.0)).Some?
  {
    forall x: Value, x': Value :: Accurate(g, x, x') ==>
      Accurate(ScaledBy(g, Some(0.0)).value, Compute(Mul, x, Number(0.0), sem), Compute(Mul, x', Number(0.0), sem))
  }

  /** A literal zero times an absolute estimate is sound exactly when the estimate's bound is known. */
  lemma ZeroFactorSoundIffBounded(g: Guarantee, sem: Semantics)
    requires g.metric == Absolute && !g.IsExact()
    ensures ScaledBy(g, Some(0.0)).Some?
    ensures ZeroFactorKeeps(g, sem) <==> BoundOf(g.error).Some?
  {
    LipschitzComposed(0.0, g);
    BoundOfScaled(0.0, g.error);
    var c := ScaledBy(g, Some(0.0)).value;
    assert MagnitudeOf(Some(0.0)) == Some(0.0);
    hide IsZero, NeverFails, Evaluate, BoundOf, Compose;
    if BoundOf(g.error).Some? {
      forall x: Value, x': Value | Accurate(g, x, x')
        ensures Accurate(c, Compute(Mul, x, Number(0.0), sem), Compute(Mul, x', Number(0.0), sem))
      {
        ScaledAccurate(g, Some(0.0), c, x, x', Number(0.0), sem);
      }
    } else {
      var x, x' := Undefined, Number(0.0);
      assert Accurate(g, x, x');
      ProductIs(0.0, 0.0, sem);
      assert !Accurate(c, Compute(Mul, x, Number(0.0), sem), Compute(Mul, x', Number(0.0), sem));
    }
  }

  /** `0 * (x / y)` over columns in absolute error. */
  const ZERO_TIMES_QUOTIENT := Arithmetic(Mul, Literal(Number(0.0)), Arithmetic(Div, Column(0), Column(1)))

  const SURE_UNIT := Guarantee(Absolute, Constant(1.0), ZeroProbability, [])

  /** Its guarantee is exact, yet a true denominator of zero makes it undefined and an estimated one of one makes it zero. */
  lemma ZeroTimesQuotientIsNotExact(sem: Semantics) returns (world: World, inputs: Inputs)
    ensures world.sem == sem && IsWorld(world, inputs)
    ensures ScalarGuarantee(ZERO_TIMES_QUOTIENT, inputs).Some?
    ensures ScalarGuarantee(ZERO_TIMES_QUOTIENT, inputs).value.IsExact()
    ensures !Holds(world, ScalarGuarantee(ZERO_TIMES_QUOTIENT, inputs).value, ZERO_TIMES_QUOTIENT)
  {
    hide *;
    inputs := Inputs((c: nat) => Some(SURE_UNIT), (n: nat) => RelationGuarantee(None, None));
    var truth := Env((c: nat) => Number(0.0), (n: nat) => Undefined);
    var estimate := Env((c: nat) => Number(1.0), (n: nat) => Undefined);
    world := World(Space({0}, (w: nat) => 1.0), truth, (w: nat) => estimate, sem);
    OneOutcome(world.space);
    UnitColumnsHold(world, inputs);
    QuotientGuarantee(inputs);
    QuotientValues(world);
    UnequalOnce(world, ScalarGuarantee(ZERO_TIMES_QUOTIENT, inputs).value, ZERO_TIMES_QUOTIENT);
  }

  /** An exact claim fails when the only outcome disagrees. */
  lemma UnequalOnce(world: World, g: Guarantee, e: Expr)
    requires world.space.outcomes == {0} && world.space.weight(0) == 1.0
    requires g.IsExact() && Truth(world, e) != Estimate(world, e, 0)
    ensures !Holds(world, g, e)
  {
    hide Truth, Estimate;
    assert 0 in Misses(world, g, e);
    OutcomeWeighs(world.space, Misses(world, g, e));
    ExactFailure(g);
  }

  lemma OneOutcome(space: Space)
    requires space.outcomes == {0} && space.weight(0) == 1.0
    ensures IsSpace(space)
  {
    var only: set<nat> := {0};
    SumSplit(only, 0, space.weight);
    assert only - {0} == {};
  }

  lemma OutcomeWeighs(space: Space, event: set<nat>)
    requires space.outcomes == {0} && space.weight(0) == 1.0 && 0 in event
    ensures Weight(space, event) == 1.0
  {
    assert event * {0} == {0};
    OneOutcome(space);
  }

  lemma UnitColumnsHold(world: World, inputs: Inputs)
    requires IsSpace(world.space)
    requires forall c: nat :: inputs.column(c) == Some(SURE_UNIT) && world.truth.column(c) == Number(0.0)
    requires forall w: nat, c: nat :: world.estimate(w).column(c) == Number(1.0)
    requires forall n: nat :: inputs.relation(n).guarantee.None?
    ensures IsWorld(world, inputs)
  {
    assert BoundOf(Constant(1.0)) == Some(1.0);
    forall c: nat ensures Holds(world, SURE_UNIT, Column(c)) {
      assert Accurate(SURE_UNIT, Number(0.0), Number(1.0));
      assert Misses(world, SURE_UNIT, Column(c)) == {};
      hide IsSpace;
      NothingWeighs(world.space);
      ExactWithin(world.space, {}, SURE_UNIT);
    }
  }

  lemma QuotientGuarantee(inputs: Inputs)
    requires forall c: nat :: inputs.column(c) == Some(SURE_UNIT)
    ensures ScalarGuarantee(ZERO_TIMES_QUOTIENT, inputs).Some?
    ensures ScalarGuarantee(ZERO_TIMES_QUOTIENT, inputs).value.IsExact()
  {
    var quotient := Arithmetic(Div, Column(0), Column(1));
    var q := Symbolic(SURE_UNIT, SURE_UNIT, QUOTIENT_OPERAND_DOMAINS);
    ColumnQuotient(inputs);
    SymbolicQuotient(q);
    LipschitzComposed(0.0, q);
    ProductWithLiteral(inputs, quotient, q);
    assert Magnitude(0.0) == 0.0;
    hide ScalarGuarantee, Compose, Symbolic;
    ZeroScaledIsExact(q, ScaledBy(q, Some(0.0)).value);
  }

  lemma SymbolicQuotient(q: Guarantee)
    requires q == Symbolic(SURE_UNIT, SURE_UNIT, QUOTIENT_OPERAND_DOMAINS)
    ensures !q.IsExact() && q.metric == Absolute && NeverFails(q.failure)
  {
    var terms := [SURE_UNIT.failure, SURE_UNIT.failure];
    assert terms[1..] == [SURE_UNIT.failure] && terms[1..][1..] == [];
    assert NoneFails(terms);
  }

  lemma ZeroScaledIsExact(q: Guarantee, zero: Guarantee)
    requires NeverFails(q.failure) && zero.error == Scaled(0.0, q.error) && zero.failure == q.failure
    ensures zero.IsExact()
  {
  }

  lemma ColumnQuotient(inputs: Inputs)
    requires forall c: nat :: inputs.column(c) == Some(SURE_UNIT)
    ensures ScalarGuarantee(Arithmetic(Div, Column(0), Column(1)), inputs)
         == Some(Symbolic(SURE_UNIT, SURE_UNIT, QUOTIENT_OPERAND_DOMAINS))
  {
    assert ScalarGuarantee(Column(0), inputs) == Some(SURE_UNIT) && ScalarGuarantee(Column(1), inputs) == Some(SURE_UNIT);
  }

  lemma ProductWithLiteral(inputs: Inputs, e: Expr, q: Guarantee)
    requires ScalarGuarantee(e, inputs) == Some(q) && !q.IsExact() && q.metric == Absolute && e.Arithmetic?
    ensures ScalarGuarantee(Arithmetic(Mul, Literal(Number(0.0)), e), inputs) == ScaledBy(q, Some(0.0))
  {
    hide ScaledBy;
    assert Magnitude(0.0) == 0.0;
    var zero := Literal(Number(0.0));
    assert ScalarGuarantee(zero, inputs) == Some(ExactGuarantee("constant"));
    assert AdditiveAsAbsolute(ExactGuarantee("constant"), None) == ExactGuarantee("constant");
    assert AdditiveAsAbsolute(q, None) == q;
  }

  lemma QuotientValues(world: World)
    requires world.truth.column(0) == Number(0.0) && world.truth.column(1) == Number(0.0)
    requires world.estimate(0).column(0) == Number(1.0) && world.estimate(0).column(1) == Number(1.0)
    ensures Truth(world, ZERO_TIMES_QUOTIENT) == Undefined && Estimate(world, ZERO_TIMES_QUOTIENT, 0) == Number(0.0)
  {
    var quotient := Arithmetic(Div, Column(0), Column(1));
    assert Eval(quotient, world.truth, world.sem) == Undefined;
    assert Eval(quotient, world.estimate(0), world.sem) == Number(1.0 / 1.0);
    EvalArithmetic(Mul, Literal(Number(0.0)), quotient, world.truth, world.sem);
    EvalArithmetic(Mul, Literal(Number(0.0)), quotient, world.estimate(0), world.sem);
  }

  // ------------------------------------------------ non-finite quotients

  /** A quotient as IEEE 754 gives it, leaving the sign of zero out. */
  datatype Quotient = Finite(value: real) | PositiveInfinity | NegativeInfinity | NotANumber

  function Divide(x: real, y: real): Quotient {
    if y != 0.0 then Finite(x / y)
    else if x > 0.0 then PositiveInfinity
    else if x < 0.0 then NegativeInfinity
    else NotANumber
  }

  /** Truth and estimate of a numerator, over a zero denominator and its estimate. */
  ghost predicate WithinShares(a: real, b: real, x: real, x': real, y': real) {
    Distance(x', x) <= a * Magnitude(x) && Distance(y', 0.0) <= b * Magnitude(0.0)
  }

  /** Over a zero denominator, truth and estimate are the same non-finite value. */
  ghost predicate NonFiniteAgree(a: real, b: real) {
    forall x: real, x': real, y': real :: WithinShares(a, b, x, x', y') ==> Divide(x, 0.0) == Divide(x', y')
  }

  /**
   Where a division is accepted, truth and estimate are promised to be one
   non-finite value; that takes a numerator bound below one, and the rule only
   checks the denominator's.
   */
  lemma NonFiniteAgreeIffBelowOne(l: Guarantee, r: Guarantee, a: real, b: real)
    requires !r.IsExact() && Compose(ExactDivision, [l, r], None).Some?
    requires Evaluate(l.error) == Some(a) && Evaluate(r.error) == Some(b)
    ensures NonFiniteAgree(a, b) <==> a < 1.0
  {
    QuotientRule(l, r, Compose(ExactDivision, [l, r], None).value);
    hide WithinShares, Divide, Compose, Evaluate;
    if a < 1.0 {
      forall x: real, x': real, y': real | WithinShares(a, b, x, x', y') ensures Divide(x, 0.0) == Divide(x', y') {
        SignKeptOver(a, b, x, x', y');
      }
    } else {
      SignLost(a, b);
    }
  }

  lemma SignKeptOver(a: real, b: real, x: real, x': real, y': real)
    requires 0.0 <= a < 1.0 && 0.0 <= b < 1.0 && WithinShares(a, b, x, x', y')
    ensures Divide(x, 0.0) == Divide(x', y')
  {
    RelativeKeepsSign(x, x', a);
    RelativeKeepsSign(0.0, y', b);
    hide WithinShares, Distance, Magnitude;
    assert y' == 0.0;
  }

  /** A numerator of 1 may be estimated as 1 - a, which is no longer positive. */
  lemma SignLost(a: real, b: real)
    requires a >= 1.0
    ensures WithinShares(a, b, 1.0, 1.0 - a, 0.0)
    ensures Divide(1.0, 0.0) != Divide(1.0 - a, 0.0)
  {
    assert Magnitude(1.0) == 1.0 && Magnitude(0.0) == 0.0;
  }
}
