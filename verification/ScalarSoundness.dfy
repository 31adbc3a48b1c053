/**
 Soundness of the scalar error algebra: in every finite space of outcomes, the
 guarantee of an expression holds of its true and estimated values whenever the
 guarantees of its columns and relations hold of theirs.
 */
module ScalarSoundness {
  import opened Composition
  import opened Guarantees
  import opened LipschitzRules
  import opened Outcomes
  import opened RealBounds
  import opened Results
  import opened ScalarExprs
  import opened ScalarRules

  /** One truth, and one estimate for each outcome of the sketches' randomness. */
  datatype World = World(space: Space, truth: Env, estimate: nat -> Env, sem: Semantics)

  ghost function Truth(world: World, e: Expr): Value {
    Eval(e, world.truth, world.sem)
  }

  ghost function Estimate(world: World, e: Expr, w: nat): Value {
    Eval(e, world.estimate(w), world.sem)
  }

  /** The outcomes in which `e` misses the bound of `g`. */
  ghost function Misses(world: World, g: Guarantee, e: Expr): set<nat> {
    set w | w in world.space.outcomes && !Accurate(g, Truth(world, e), Estimate(world, e, w))
  }

  /** `g` holds of `e`: its bound is missed no more often than its failure probability says. */
  ghost predicate Holds(world: World, g: Guarantee, e: Expr) {
    Within(world.space, Misses(world, g, e), g.failure)
  }

  ghost predicate ColumnsHold(world: World, inputs: Inputs) {
    forall c: nat :: inputs.column(c).Some? ==> Holds(world, inputs.column(c).value, Column(c))
  }

  /** A relation's guarantee holds, and so does its restatement over its summary's stream norm. */
  ghost predicate RelationsHold(world: World, inputs: Inputs) {
    forall n: nat :: inputs.relation(n).guarantee.Some? ==>
      var g := inputs.relation(n).guarantee.value;
      Holds(world, g, Relation(n)) && Holds(world, AdditiveAsAbsolute(g, inputs.relation(n).norm), Relation(n))
  }

  ghost predicate IsWorld(world: World, inputs: Inputs) {
    IsSpace(world.space) && ColumnsHold(world, inputs) && RelationsHold(world, inputs)
  }

  // ------------------------------------------- what the algebra leaves out

  /** A literal zero times an operand in absolute error: the operand's bound must be known. */
  ghost predicate ZeroFactorAllows(literal: Option<real>, operand: Guarantee) {
    literal == Some(0.0) && !operand.IsExact() && operand.metric != Relative ==> BoundOf(operand.error).Some?
  }

  ghost predicate ZeroFactorsAllow(literal: Option<real>, operand: Option<Guarantee>) {
    operand.Some? ==> ZeroFactorAllows(literal, AdditiveAsAbsolute(operand.value, None))
  }

  /** Every clamp's relative arguments are within one, and every literal zero's factor has a known bound. */
  ghost predicate Admissible(e: Expr, inputs: Inputs)
    decreases e, 1
  {
    match e
    case Negative(inner) => Admissible(inner, inputs)
    case Case(operand, branches, otherwise) =>
      && (operand.Some? ==> Admissible(operand.value, inputs))
      && BranchesAdmissible(branches, inputs)
      && (otherwise.Some? ==> Admissible(otherwise.value, inputs))
    case Arithmetic(op, left, right) =>
      && Admissible(left, inputs) && Admissible(right, inputs)
      && (op == Mul ==>
            && ZeroFactorsAllow(LiteralOf(left), OperandOf(right, inputs, ScalarGuarantee(right, inputs)))
            && ZeroFactorsAllow(LiteralOf(right), OperandOf(left, inputs, ScalarGuarantee(left, inputs))))
    case Call(name, args) =>
      name.Named?
      || (&& AllAdmissible(args, inputs)
          && (name != Abs && OperandGuarantees(args, inputs).Some? ==> ClampAllows(OperandGuarantees(args, inputs).value)))
    case _ => true
  }

  ghost predicate AllAdmissible(args: seq<Expr>, inputs: Inputs)
    decreases args, 0
  {
    args == [] || (Admissible(args[0], inputs) && AllAdmissible(args[1..], inputs))
  }

  ghost predicate BranchesAdmissible(branches: seq<Branch>, inputs: Inputs)
    decreases branches, 0
  {
    if branches == [] then true
    else
      var first := branches[0];
      assert first.condition < first && first.result < first;
      Admissible(first.condition, inputs) && Admissible(first.result, inputs) && BranchesAdmissible(branches[1..], inputs)
  }

  // --------------------------------------------------------- arithmetic

  /** Where both restated operands are accurate, so is the composed value. */
  lemma RuleAccurate(op: ArithmeticOp, l: Guarantee, r: Guarantee, leftLiteral: Option<real>,
                     rightLiteral: Option<real>,
                     g: Guarantee, x: Value, x': Value, y: Value, y': Value, sem: Semantics)
    requires !l.IsExact() || !r.IsExact()
    requires ArithmeticRule(op, l, r, leftLiteral, rightLiteral) == Some(g)
    requires Accurate(l, x, x') && Accurate(r, y, y')
    requires leftLiteral.Some? ==> x == Number(leftLiteral.value)
    requires rightLiteral.Some? ==> y == Number(rightLiteral.value)
    requires op == Mul ==> ZeroFactorAllows(leftLiteral, r) && ZeroFactorAllows(rightLiteral, l)
    ensures Accurate(g, Compute(op, x, y, sem), Compute(op, x', y', sem))
    ensures CountsBoth(g, l, r)
  {
    hide BoundOf, Close, Accurate, IsZero, NeverFails, Compute, Shifted, ScaledBy, Compose, RelativeProductGuarantee, Symbolic;
    if l.IsExact() { ExactIsEqual(l, x, x'); }
    if r.IsExact() { ExactIsEqual(r, y, y'); }
    var statistic := OperandDomainStatistic(op, l, r);
    match op {
      case Add => SumOrShift(op, l, r, g, x, x', y, y', sem);
      case Sub => SumOrShift(op, l, r, g, x, x', y, y', sem);
      case Mul =>
        if l.IsExact() {
          ScaledAccurate(r, leftLiteral, g, y, y', x, sem);
          ComputeCommutes(x, y, sem);
          ComputeCommutes(x', y', sem);
        } else if r.IsExact() {
          ScaledAccurate(l, rightLiteral, g, x, x', y, sem);
        } else if statistic.None? {
          RelativeProductAccurate(l, r, g, x, x', y, y', sem);
        } else {
          SymbolicAccurate(l, r, statistic.value, Compute(op, x, y, sem), Compute(op, x', y', sem));
        }
      case Div =>
        if !l.IsExact() && r.IsExact() {
          DividedAccurate(l, rightLiteral, g, x, x', y, sem);
        } else if statistic.None? {
          QuotientAccurate(l, r, g, x, x', y, y', sem);
        } else {
          SymbolicAccurate(l, r, statistic.value, Compute(op, x, y, sem), Compute(op, x', y', sem));
        }
      case _ =>
    }
  }

  lemma SumOrShift(op: ArithmeticOp, l: Guarantee, r: Guarantee, g: Guarantee, x: Value, x': Value, y: Value, y': Value,
                   sem: Semantics)
    requires op == Add || op == Sub
    requires !l.IsExact() || !r.IsExact()
    requires Accurate(l, x, x') && Accurate(r, y, y')
    requires if l.IsExact() then x == x' && Shifted(r) == Some(g)
             else if r.IsExact() then y == y' && Shifted(l) == Some(g)
             else Compose(Lipschitz(1.0), [l], Some(r)) == Some(g)
    ensures Accurate(g, Compute(op, x, y, sem), Compute(op, x', y', sem))
    ensures CountsBoth(g, l, r)
  {
    hide BoundOf, Close, Accurate, IsZero, NeverFails, Compute, Shifted, Compose;
    if l.IsExact() {
      ShiftedAccurate(op, r, g, y, y', x, sem);
    } else if r.IsExact() {
      ShiftedAccurate(op, l, g, x, x', y, sem);
    } else {
      SumAccurate(op, l, r, g, x, x', y, y', sem);
    }
  }

  lemma BothWithin(space: Space, a: set<nat>, b: set<nat>, g: Guarantee, l: Guarantee, r: Guarantee)
    requires IsSpace(space) && CountsBoth(g, l, r)
    requires Within(space, a, l.failure) && Within(space, b, r.failure)
    ensures Within(space, a + b, g.failure)
  {
    hide IsSpace, Weight, Within, FailureBound, IsZero, NeverFails;
    if r.IsExact() && g.failure == l.failure {
      ExactWeighsNothing(space, b, r);
      NullAdded(space, a, b, g.failure);
    } else if l.IsExact() && g.failure == r.failure {
      ExactWeighsNothing(space, a, l);
      NullAdded(space, b, a, g.failure);
      assert a + b == b + a;
    } else {
      PairWithin(space, a, b, l.failure, r.failure);
    }
  }

  lemma RestatedHolds(world: World, g: Guarantee, e: Expr)
    requires IsSpace(world.space) && Holds(world, g, e)
    ensures Holds(world, AdditiveAsAbsolute(g, None), e)
  {
    hide IsSpace, Accurate, AdditiveAsAbsolute, Within;
    var restated := AdditiveAsAbsolute(g, None);
    RestatedFailure(g);
    forall w | w in Misses(world, restated, e) ensures w in Misses(world, g, e) {
      if Accurate(g, Truth(world, e), Estimate(world, e, w)) { RestatedAccurate(g, Truth(world, e), Estimate(world, e, w)); }
    }
    WithinSmaller(world.space, Misses(world, restated, e), Misses(world, g, e), g.failure);
  }

  /** Outside the operands' misses nothing is missed, so the composed claim covers the whole. */
  lemma ArithmeticHolds(world: World, op: ArithmeticOp, left: Expr, right: Expr, L: Guarantee, R: Guarantee,
                        g: Guarantee)
    requires IsSpace(world.space) && Holds(world, L, left) && Holds(world, R, right)
    requires SameValue(left, right) ==> L == R
    requires op == Mul ==> ZeroFactorsAllow(LiteralOf(left), Some(R)) && ZeroFactorsAllow(LiteralOf(right), Some(L))
    requires ArithmeticGuarantee(op, Some(L), Some(R), LiteralOf(left), LiteralOf(right), SameValue(left, right)) == Some(g)
    ensures Holds(world, g, Arithmetic(op, left, right))
  {
    var l, r := AdditiveAsAbsolute(L, None), AdditiveAsAbsolute(R, None);
    RestatedHolds(world, L, left);
    RestatedHolds(world, R, right);
    var e := Arithmetic(op, left, right);
    var a, b := Misses(world, l, left), Misses(world, r, right);
    MissesCovered(world, op, left, right, L, R, g);
    hide IsSpace, Weight, IsZero, NeverFails, FailureBound, Misses, Within, AdditiveAsAbsolute, ArithmeticRule;
    if l.IsExact() && r.IsExact() {
      BothExactWithin(world.space, a, b, l, r);
      ExactWithin(world.space, a + b, g);
      WithinSmaller(world.space, Misses(world, g, e), a + b, g.failure);
    } else if SameValue(left, right) {
      assert left == right && a == b;
      WithinSmaller(world.space, Misses(world, g, e), a, g.failure);
    } else {
      RuleCounts(world, op, left, right, l, r, g);
      BothWithin(world.space, a, b, g, l, r);
      WithinSmaller(world.space, Misses(world, g, e), a + b, g.failure);
    }
  }

  lemma BothExactWithin(space: Space, a: set<nat>, b: set<nat>, l: Guarantee, r: Guarantee)
    requires IsSpace(space) && l.IsExact() && r.IsExact() && Within(space, a, l.failure) && Within(space, b, r.failure)
    ensures Weight(space, a + b) <= 0.0
  {
    ExactWeighsNothing(space, a, l);
    ExactWeighsNothing(space, b, r);
    WeightOfUnion(space, a, b);
  }

  lemma ExactWithin(space: Space, event: set<nat>, g: Guarantee)
    requires Weight(space, event) <= 0.0
    ensures Within(space, event, g.failure)
  {
    NonNegativeFailure(g.failure);
  }

  /** The rule's failure is counted whatever the values are. */
  lemma RuleCounts(world: World, op: ArithmeticOp, left: Expr, right: Expr, l: Guarantee, r: Guarantee, g: Guarantee)
    requires !l.IsExact() || !r.IsExact()
    requires ArithmeticRule(op, l, r, LiteralOf(left), LiteralOf(right)) == Some(g)
    requires op == Mul ==> ZeroFactorAllows(LiteralOf(left), r) && ZeroFactorAllows(LiteralOf(right), l)
    ensures CountsBoth(g, l, r)
  {
    hide ArithmeticRule, ZeroFactorAllows, CountsBoth;
    var x := if LiteralOf(left).Some? then Number(LiteralOf(left).value) else Undefined;
    var y := if LiteralOf(right).Some? then Number(LiteralOf(right).value) else Undefined;
    SameAccurate(l, x);
    SameAccurate(r, y);
    RuleAccurate(op, l, r, LiteralOf(left), LiteralOf(right), g, x, x, y, y, world.sem);
  }

  lemma MissesCovered(world: World, op: ArithmeticOp, left: Expr, right: Expr, L: Guarantee, R: Guarantee, g: Guarantee)
    requires op == Mul ==> ZeroFactorsAllow(LiteralOf(left), Some(R)) && ZeroFactorsAllow(LiteralOf(right), Some(L))
    requires ArithmeticGuarantee(op, Some(L), Some(R), LiteralOf(left), LiteralOf(right), SameValue(left, right)) == Some(g)
    ensures Misses(world, g, Arithmetic(op, left, right))
         <= Misses(world, AdditiveAsAbsolute(L, None), left) + Misses(world, AdditiveAsAbsolute(R, None), right)
  {
    var l, r := AdditiveAsAbsolute(L, None), AdditiveAsAbsolute(R, None);
    hide AdditiveAsAbsolute, ArithmeticRule, ZeroFactorAllows, BoundOf, Close, IsZero, NeverFails, Compute;
    var e := Arithmetic(op, left, right);
    forall w | w in world.space.outcomes && w !in Misses(world, l, left) && w !in Misses(world, r, right)
      ensures w !in Misses(world, g, e)
    {
      var x, x', y, y' := Truth(world, left), Estimate(world, left, w), Truth(world, right), Estimate(world, right, w);
      EvalArithmetic(op, left, right, world.truth, world.sem);
      EvalArithmetic(op, left, right, world.estimate(w), world.sem);
      LiteralValue(left, world.truth, world.sem);
      LiteralValue(right, world.truth, world.sem);
      hide Eval;
      if l.IsExact() && r.IsExact() {
        ExactIsEqual(l, x, x');
        ExactIsEqual(r, y, y');
        SameAccurate(g, Compute(op, x, y, world.sem));
      } else {
        var g' := ArithmeticRule(op, l, r, LiteralOf(left), LiteralOf(right)).value;
        RuleAccurate(op, l, r, LiteralOf(left), LiteralOf(right), g', x, x', y, y', world.sem);
      }
    }
  }

  lemma EvalArithmetic(op: ArithmeticOp, left: Expr, right: Expr, env: Env, sem: Semantics)
    ensures Eval(Arithmetic(op, left, right), env, sem) == Compute(op, Eval(left, env, sem), Eval(right, env, sem), sem)
  {
  }

  lemma LiteralValue(e: Expr, env: Env, sem: Semantics)
    ensures LiteralOf(e).Some? ==> Eval(e, env, sem) == Number(LiteralOf(e).value)
  {
  }

  // ------------------------------------------------- exact expressions

  /** Environments that agree on the leaves an expression reads give it one value. */
  lemma {:induction false} LeavesDecide(e: Expr, env: Env, env': Env, sem: Semantics)
    requires forall c :: c in Columns(e) ==> env.column(c) == env'.column(c)
    requires forall n :: n in Relations(e) ==> env.relation(n) == env'.relation(n)
    ensures Eval(e, env, sem) == Eval(e, env', sem)
    decreases e, 1
  {
    match e {
      case Negative(inner) => LeavesDecide(inner, env, env', sem);
      case Arithmetic(_, left, right) =>
        LeavesDecide(left, env, env', sem);
        LeavesDecide(right, env, env', sem);
      case Call(_, args) => LeavesDecideAll(args, env, env', sem);
      case Case(operand, branches, otherwise) =>
        if operand.Some? { LeavesDecide(operand.value, env, env', sem); }
        if otherwise.Some? { LeavesDecide(otherwise.value, env, env', sem); }
        var tested := if operand.Some? then Some(Eval(operand.value, env, sem)) else None;
        var k := Picked(branches, tested, env, sem);
        LeavesDecideBranches(branches, tested, env, env', sem);
      case _ =>
    }
  }

  lemma {:induction false} LeavesDecideAll(args: seq<Expr>, env: Env, env': Env, sem: Semantics)
    requires forall c :: c in ColumnsOf(args) ==> env.column(c) == env'.column(c)
    requires forall n :: n in RelationsOf(args) ==> env.relation(n) == env'.relation(n)
    ensures EvalAll(args, env, sem) == EvalAll(args, env', sem)
    decreases args, 0
  {
    if args != [] {
      LeavesDecide(args[0], env, env', sem);
      LeavesDecideAll(args[1..], env, env', sem);
    }
  }

  lemma {:induction false} LeavesDecideBranches(branches: seq<Branch>, tested: Option<Value>, env: Env, env': Env,
                                                sem: Semantics)
    requires forall c :: c in BranchColumns(branches) ==> env.column(c) == env'.column(c)
    requires forall n :: n in BranchRelations(branches) ==> env.relation(n) == env'.relation(n)
    ensures Picked(branches, tested, env, sem) == Picked(branches, tested, env', sem)
    ensures var k := Picked(branches, tested, env, sem);
      k < |branches| ==> Eval(branches[k].result, env, sem) == Eval(branches[k].result, env', sem)
    decreases branches, 0
  {
    if branches != [] {
      var first := branches[0];
      assert first.condition < first && first.result < first;
      LeavesDecide(first.condition, env, env', sem);
      LeavesDecide(first.result, env, env', sem);
      LeavesDecideBranches(branches[1..], tested, env, env', sem);
    }
  }

  /** Outside an event of no weight, exact columns are equal in truth and estimate. */
  lemma {:induction false} ExactColumns(world: World, inputs: Inputs, cs: set<nat>) returns (empty: set<nat>)
    requires IsWorld(world, inputs)
    requires forall c :: c in cs ==> IsExactOption(inputs.column(c))
    ensures Weight(world.space, empty) <= 0.0
    ensures forall w, c :: w in world.space.outcomes && w !in empty && c in cs ==>
      world.truth.column(c) == world.estimate(w).column(c)
    decreases |cs|
  {
    hide IsSpace, Weight, Accurate, IsZero, NeverFails;
    if cs == {} {
      empty := {};
      NothingWeighs(world.space);
    } else {
      var c :| c in cs;
      var rest := ExactColumns(world, inputs, cs - {c});
      var g := inputs.column(c).value;
      assert Holds(world, g, Column(c));
      var missed := Misses(world, g, Column(c));
      ExactWeighsNothing(world.space, missed, g);
      WeightOfUnion(world.space, rest, missed);
      empty := rest + missed;
      forall w | w in world.space.outcomes && w !in empty ensures world.truth.column(c) == world.estimate(w).column(c) {
        ExactIsEqual(g, Truth(world, Column(c)), Estimate(world, Column(c), w));
      }
    }
  }

  lemma {:induction false} ExactRelations(world: World, inputs: Inputs, ns: set<nat>) returns (empty: set<nat>)
    requires IsWorld(world, inputs)
    requires forall n :: n in ns ==> IsExactOption(inputs.relation(n).guarantee)
    ensures Weight(world.space, empty) <= 0.0
    ensures forall w, n :: w in world.space.outcomes && w !in empty && n in ns ==>
      world.truth.relation(n) == world.estimate(w).relation(n)
    decreases |ns|
  {
    hide IsSpace, Weight, Accurate, IsZero, NeverFails;
    if ns == {} {
      empty := {};
      NothingWeighs(world.space);
    } else {
      var n :| n in ns;
      var rest := ExactRelations(world, inputs, ns - {n});
      var g := inputs.relation(n).guarantee.value;
      assert Holds(world, g, Relation(n));
      var missed := Misses(world, g, Relation(n));
      ExactWeighsNothing(world.space, missed, g);
      WeightOfUnion(world.space, rest, missed);
      empty := rest + missed;
      forall w | w in world.space.outcomes && w !in empty ensures world.truth.relation(n) == world.estimate(w).relation(n) {
        ExactIsEqual(g, Truth(world, Relation(n)), Estimate(world, Relation(n), w));
      }
    }
  }

  /** Any expression over exact leaves is exact, whatever it computes. */
  lemma LeavesHold(world: World, inputs: Inputs, e: Expr, g: Guarantee)
    requires IsWorld(world, inputs) && LeavesExact(e, inputs)
    ensures Holds(world, g, e)
  {
    hide IsSpace, Weight, Accurate, IsZero, NeverFails, Eval, Columns, Relations;
    var a := ExactColumns(world, inputs, Columns(e));
    var b := ExactRelations(world, inputs, Relations(e));
    WeightOfUnion(world.space, a, b);
    forall w | w in world.space.outcomes && w !in a + b ensures w !in Misses(world, g, e) {
      LeavesDecide(e, world.truth, world.estimate(w), world.sem);
      SameAccurate(g, Truth(world, e));
    }
    ExactWithin(world.space, a + b, g);
    WithinSmaller(world.space, Misses(world, g, e), a + b, g.failure);
  }

  /** A value that is the same in truth and every estimate meets any guarantee. */
  lemma ConstantHolds(world: World, g: Guarantee, e: Expr)
    requires IsSpace(world.space)
    requires forall w :: w in world.space.outcomes ==> Estimate(world, e, w) == Truth(world, e)
    ensures Holds(world, g, e)
  {
    hide IsSpace, Weight, Accurate, Eval, Truth, Estimate;
    forall w | w in world.space.outcomes ensures w !in Misses(world, g, e) { SameAccurate(g, Truth(world, e)); }
    NothingWeighs(world.space);
    ExactWithin(world.space, {}, g);
    WithinSmaller(world.space, Misses(world, g, e), {}, g.failure);
  }

  // ------------------------------------------------------ the theorem

  /**
   Soundness: an expression's guarantee, whenever the algebra gives one, holds
   of its true and estimated values.
   */
  lemma {:induction false} Sound(world: World, inputs: Inputs, e: Expr)
    requires IsWorld(world, inputs) && Admissible(e, inputs) && ScalarGuarantee(e, inputs).Some?
    ensures Holds(world, ScalarGuarantee(e, inputs).value, e)
    decreases e, 1
  {
    hide IsSpace, Holds, Misses, IsZero, NeverFails, AdditiveAsAbsolute;
    var g := ScalarGuarantee(e, inputs).value;
    match e {
      case Column(id) =>
      case Relation(node) =>
      case Literal(value) => ConstantHolds(world, g, e);
      case Time(id) => ConstantHolds(world, g, e);
      case Negative(inner) =>
        Sound(world, inputs, inner);
        NegationHolds(world, ScalarGuarantee(inner, inputs).value, g, inner);
      case Arithmetic(op, left, right) =>
        OperandSound(world, inputs, left);
        OperandSound(world, inputs, right);
        var L, R := OperandOf(left, inputs, ScalarGuarantee(left, inputs)), OperandOf(right, inputs, ScalarGuarantee(right, inputs));
        ArithmeticHolds(world, op, left, right, L.value, R.value, g);
      case Call(name, args) =>
        if name.Named? {
          LeavesHold(world, inputs, e, g);
        } else {
          ArgumentsSound(world, inputs, args);
          FunctionHolds(world, name, args, OperandGuarantees(args, inputs).value, g);
        }
      case Case(operand, branches, otherwise) =>
        CaseSound(world, inputs, operand, branches, otherwise);
    }
  }

  /** The same for an operand, whose stream bound may be restated over its norm. */
  lemma {:induction false} OperandSound(world: World, inputs: Inputs, e: Expr)
    requires IsWorld(world, inputs) && Admissible(e, inputs)
    ensures OperandOf(e, inputs, ScalarGuarantee(e, inputs)).Some? ==>
      Holds(world, OperandOf(e, inputs, ScalarGuarantee(e, inputs)).value, e)
    decreases e, 2
  {
    hide Holds, AdditiveAsAbsolute;
    if !e.Relation? && ScalarGuarantee(e, inputs).Some? { Sound(world, inputs, e); }
  }

  lemma {:induction false} ArgumentsSound(world: World, inputs: Inputs, args: seq<Expr>)
    requires IsWorld(world, inputs) && AllAdmissible(args, inputs) && OperandGuarantees(args, inputs).Some?
    ensures forall i :: 0 <= i < |args| ==> Holds(world, OperandGuarantees(args, inputs).value[i], args[i])
    decreases args, 0
  {
    hide IsWorld, Holds, OperandOf;
    if args != [] {
      OperandSound(world, inputs, args[0]);
      ArgumentsSound(world, inputs, args[1..]);
    }
  }

  lemma NegationHolds(world: World, l: Guarantee, g: Guarantee, inner: Expr)
    requires IsSpace(world.space) && Holds(world, l, inner) && LipschitzOf([l]) == Some(g)
    ensures Holds(world, g, Negative(inner))
  {
    hide IsSpace, Accurate, LipschitzOf, Within, Negated;
    var missed := Misses(world, l, inner);
    LipschitzWithin(world.space, [l], g, [missed]);
    OneEvent(missed);
    forall w | w in Misses(world, g, Negative(inner)) ensures w in missed {
      if Accurate(l, Truth(world, inner), Estimate(world, inner, w)) {
        NegationAccurate(l, g, Truth(world, inner), Estimate(world, inner, w));
      }
    }
    WithinSmaller(world.space, Misses(world, g, Negative(inner)), missed, g.failure);
  }

  lemma OneEvent(event: set<nat>)
    ensures UnionOfAll([event]) == event
  {
    assert [event][1..] == [];
  }

  lemma FunctionHolds(world: World, name: FunctionName, args: seq<Expr>, gs: seq<Guarantee>, g: Guarantee)
    requires IsSpace(world.space) && !name.Named? && |gs| == |args| && LipschitzOf(gs) == Some(g)
    requires name != Abs ==> ClampAllows(gs)
    requires forall i :: 0 <= i < |args| ==> Holds(world, gs[i], args[i])
    ensures Holds(world, g, Call(name, args))
  {
    hide IsSpace, Accurate, LipschitzOf, Within, Apply, ClampAllows, UnionOfAll;
    var e := Call(name, args);
    var events := seq(|args|, i requires 0 <= i < |args| => Misses(world, gs[i], args[i]));
    forall i | 0 <= i < |args| ensures Within(world.space, events[i], gs[i].failure) {
      assert Holds(world, gs[i], args[i]);
    }
    LipschitzWithin(world.space, gs, g, events);
    forall w | w in Misses(world, g, e) ensures w in UnionOfAll(events) {
      FunctionMissed(world, name, args, gs, g, events, w);
    }
    WithinSmaller(world.space, Misses(world, g, e), UnionOfAll(events), g.failure);
  }

  lemma FunctionMissed(world: World, name: FunctionName, args: seq<Expr>, gs: seq<Guarantee>, g: Guarantee,
                       events: seq<set<nat>>, w: nat)
    requires !name.Named? && |gs| == |args| == |events| && LipschitzOf(gs) == Some(g)
    requires name != Abs ==> ClampAllows(gs)
    requires forall i :: 0 <= i < |args| ==> events[i] == Misses(world, gs[i], args[i])
    requires w in Misses(world, g, Call(name, args))
    ensures w in UnionOfAll(events)
  {
    hide LipschitzOf, Accurate, Apply, ClampAllows, UnionOfAll;
    var xs, xs' := EvalAll(args, world.truth, world.sem), EvalAll(args, world.estimate(w), world.sem);
    if i :| 0 <= i < |args| && w in events[i] {
      InUnionOfAll(events, i);
    } else {
      forall i | 0 <= i < |args| ensures Accurate(gs[i], xs[i], xs'[i]) {
        assert w !in events[i];
      }
      FunctionAccurate(name, gs, g, xs, xs', world.sem);
    }
  }

  /** Exact conditions: outside an event of no weight they are equal in truth and estimate. */
  lemma {:induction false} ConditionsSound(world: World, inputs: Inputs,
                                           branches: seq<Branch>) returns (empty: set<nat>)
    requires IsWorld(world, inputs) && BranchesAdmissible(branches, inputs) && ConditionsExact(branches, inputs)
    ensures Weight(world.space, empty) <= 0.0
    ensures forall w, tested :: w in world.space.outcomes && w !in empty ==>
      Picked(branches, tested, world.truth, world.sem) == Picked(branches, tested, world.estimate(w), world.sem)
    decreases branches, 0
  {
    hide IsSpace, Weight;
    if branches == [] {
      empty := {};
      NothingWeighs(world.space);
    } else {
      var first := branches[0];
      assert first.condition < first;
      var rest := ConditionsSound(world, inputs, branches[1..]);
      Sound(world, inputs, first.condition);
      var missed := ExactMissed(world, ScalarGuarantee(first.condition, inputs).value, first.condition);
      WeightOfUnion(world.space, rest, missed);
      empty := rest + missed;
    }
  }

  lemma ExactMissed(world: World, g: Guarantee, e: Expr) returns (missed: set<nat>)
    requires IsSpace(world.space) && g.IsExact() && Holds(world, g, e)
    ensures Weight(world.space, missed) <= 0.0
    ensures forall w :: w in world.space.outcomes && w !in missed ==> Truth(world, e) == Estimate(world, e, w)
  {
    hide IsSpace, Weight, Accurate;
    missed := Misses(world, g, e);
    ExactWeighsNothing(world.space, missed, g);
    forall w | w in world.space.outcomes && w !in missed ensures Truth(world, e) == Estimate(world, e, w) {
      ExactIsEqual(g, Truth(world, e), Estimate(world, e, w));
    }
  }

  /** A CASE over exact conditions picks one branch in truth and estimate alike. */
  lemma {:induction false} CaseSound(world: World, inputs: Inputs, operand: Option<Expr>, branches: seq<Branch>,
                                     otherwise: Option<Expr>)
    requires IsWorld(world, inputs) && ScalarGuarantee(Case(operand, branches, otherwise), inputs).Some?
    requires Admissible(Case(operand, branches, otherwise), inputs)
    ensures Holds(world, ScalarGuarantee(Case(operand, branches, otherwise), inputs).value, Case(operand, branches, otherwise))
    decreases Case(operand, branches, otherwise), 0
  {
    hide IsSpace, Weight, Holds, Weakest;
    var e := Case(operand, branches, otherwise);
    var g := ScalarGuarantee(e, inputs).value;
    var empty := ConditionsSound(world, inputs, branches);
    if operand.Some? {
      Sound(world, inputs, operand.value);
      var missed := ExactMissed(world, ScalarGuarantee(operand.value, inputs).value, operand.value);
      WeightOfUnion(world.space, empty, missed);
      empty := empty + missed;
    }
    var tested := if operand.Some? then Some(Truth(world, operand.value)) else None;
    var k := Picked(branches, tested, world.truth, world.sem);
    var gs := ResultGuarantees(branches, inputs).value
      + if otherwise.Some? then [ScalarGuarantee(otherwise.value, inputs).value] else [];
    assert Weakest(gs) == Some(g);
    if k < |branches| {
      assert branches[k].result < branches[k];
      ResultAt(world, inputs, branches, k);
      Sound(world, inputs, branches[k].result);
      PickedHolds(world, e, branches[k].result, gs, k, g, empty);
    } else if otherwise.Some? {
      Sound(world, inputs, otherwise.value);
      PickedHolds(world, e, otherwise.value, gs, k, g, empty);
    } else {
      EqualOutside(world, g, e, empty);
    }
  }

  lemma {:induction false} ResultAt(world: World, inputs: Inputs, branches: seq<Branch>, k: nat)
    requires BranchesAdmissible(branches, inputs) && ResultGuarantees(branches, inputs).Some? && k < |branches|
    ensures Admissible(branches[k].result, inputs)
    ensures ScalarGuarantee(branches[k].result, inputs) == Some(ResultGuarantees(branches, inputs).value[k])
  {
    if k > 0 { ResultAt(world, inputs, branches[1..], k - 1); }
  }

  /** The whole takes the value of `part` outside an event of no weight. */
  lemma PickedHolds(world: World, e: Expr, part: Expr, gs: seq<Guarantee>, k: nat, g: Guarantee, empty: set<nat>)
    requires IsSpace(world.space) && Weight(world.space, empty) <= 0.0
    requires k < |gs| && Weakest(gs) == Some(g) && Holds(world, gs[k], part)
    requires Truth(world, e) == Truth(world, part)
    requires forall w :: w in world.space.outcomes && w !in empty ==> Estimate(world, e, w) == Estimate(world, part, w)
    ensures Holds(world, g, e)
  {
    hide IsSpace, Weight, Accurate, Weakest, Truth, Estimate;
    var missed := Misses(world, gs[k], part);
    WeakestWithin(world.space, gs, g, k, missed);
    NullAdded(world.space, missed, empty, g.failure);
    forall w | w in Misses(world, g, e) ensures w in missed + empty {
      if w !in empty && w !in missed { WeakestAccurate(gs, g, k, Truth(world, part), Estimate(world, part, w)); }
    }
    WithinSmaller(world.space, Misses(world, g, e), missed + empty, g.failure);
  }

  lemma EqualOutside(world: World, g: Guarantee, e: Expr, empty: set<nat>)
    requires IsSpace(world.space) && Weight(world.space, empty) <= 0.0
    requires forall w :: w in world.space.outcomes && w !in empty ==> Estimate(world, e, w) == Truth(world, e)
    ensures Holds(world, g, e)
  {
    hide IsSpace, Weight, Accurate, Truth, Estimate;
    forall w | w in Misses(world, g, e) ensures w in empty { SameAccurate(g, Truth(world, e)); }
    ExactWithin(world.space, empty, g);
    WithinSmaller(world.space, Misses(world, g, e), empty, g.failure);
  }

  /** Equal, or two numbers within `error`, taken as a share of the truth when it is relative. */
  ghost predicate WithinError(relative: bool, error: real, truth: Value, estimate: Value) {
    truth == estimate
    || (truth.Number? && estimate.Number?
        && Distance(estimate.value, truth.value) <= if relative then error * Magnitude(truth.value) else error)
  }

  lemma AccurateIsWithin(g: Guarantee, error: real, truth: Value, estimate: Value)
    requires (g.metric == Absolute || g.metric == Relative) && BoundOf(g.error) == Some(error) && error >= 0.0
    requires Accurate(g, truth, estimate)
    ensures WithinError(g.metric == Relative, error, truth, estimate)
  {
    hide Distance, Magnitude;
    if g.metric == Relative { CloseRelative(error, truth, estimate); } else { CloseAbsolute(error, truth, estimate); }
  }

  ghost function FarOutcomes(world: World, e: Expr, relative: bool, error: real): set<nat> {
    set w | w in world.space.outcomes && !WithinError(relative, error, Truth(world, e), Estimate(world, e, w))
  }

  /** In numbers: when the bound and the probability are known, the outcomes further off weigh no more than it. */
  lemma SoundInNumbers(world: World, inputs: Inputs, e: Expr, g: Guarantee, error: real, failure: real)
    requires IsWorld(world, inputs) && Admissible(e, inputs) && ScalarGuarantee(e, inputs) == Some(g)
    requires g.metric == Absolute || g.metric == Relative
    requires Evaluate(g.error) == Some(error) && Probability(g.failure) == Some(failure)
    ensures Weight(world.space, FarOutcomes(world, e, g.metric == Relative, error)) <= failure
  {
    Sound(world, inputs, e);
    KnownBound(g.error);
    KnownFailure(g.failure);
    hide *;
    FarIsMissed(world, e, g, error, failure);
  }

  lemma FarIsMissed(world: World, e: Expr, g: Guarantee, error: real, failure: real)
    requires IsSpace(world.space) && Holds(world, g, e) && error >= 0.0
    requires g.metric == Absolute || g.metric == Relative
    requires BoundOf(g.error) == Some(error) && FailureBound(g.failure) == Some(failure)
    ensures Weight(world.space, FarOutcomes(world, e, g.metric == Relative, error)) <= failure
  {
    hide IsSpace, Weight, Accurate, WithinError, Truth, Estimate, BoundOf, FailureBound;
    var far := FarOutcomes(world, e, g.metric == Relative, error);
    forall w | w in far ensures w in Misses(world, g, e) {
      if Accurate(g, Truth(world, e), Estimate(world, e, w)) {
        AccurateIsWithin(g, error, Truth(world, e), Estimate(world, e, w));
      }
    }
    WeightMonotone(world.space, far, Misses(world, g, e));
  }
}
