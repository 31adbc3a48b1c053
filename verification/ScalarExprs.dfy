/**
 Scalar expressions over columns and relations, their evaluation, and the
 guarantee the planner gives each of them
 (crates/accuracy/src/propagation.rs:1037-1589).
 */
module ScalarExprs {
  import opened Composition
  import opened Guarantees
  import opened RealBounds
  import opened Results

  const PRODUCT_OPERAND_DOMAINS := "product_operand_domains"
  const QUOTIENT_OPERAND_DOMAINS := "quotient_operand_domains"

  /** A number, another value, or none (NULL, NaN, an infinity). */
  datatype Value = Number(value: real) | Other(id: nat) | Undefined

  datatype ArithmeticOp = Add | Sub | Mul | Div | Mod | Pow | Atan2

  datatype FunctionName = Clamp | ClampMin | ClampMax | Abs | Named(name: string)

  datatype Expr =
    | Column(id: nat)
    | Literal(value: Value)
    | Time(id: nat)
    | Relation(node: nat)
    | Negative(inner: Expr)
    | Case(operand: Option<Expr>, branches: seq<Branch>, otherwise: Option<Expr>)
    | Arithmetic(op: ArithmeticOp, left: Expr, right: Expr)
    | Call(name: FunctionName, args: seq<Expr>)

  datatype Branch = Branch(condition: Expr, result: Expr)

  // ------------------------------------------------------ evaluation

  /** What the columns and relations hold. */
  datatype Env = Env(column: nat -> Value, relation: nat -> Value)

  /** The operations the planner knows nothing of: any deterministic ones. */
  datatype Semantics = Semantics(
    call: (string, seq<Value>) -> Value,
    arithmetic: (ArithmeticOp, real, real) -> Value,
    matches: (Option<Value>, Value) -> bool,
    time: nat -> Value)

  function Compute(op: ArithmeticOp, x: Value, y: Value, sem: Semantics): Value {
    if !x.Number? || !y.Number? then Undefined
    else match op
         case Add => Number(x.value + y.value)
         case Sub => Number(x.value - y.value)
         case Mul => Number(x.value * y.value)
         case Div => if y.value == 0.0 then Undefined else Number(x.value / y.value)
         case _ => sem.arithmetic(op, x.value, y.value)
  }

  function Negated(x: Value): Value {
    if x.Number? then Number(0.0 - x.value) else Undefined
  }

  predicate AllNumbers(xs: seq<Value>) {
    forall i :: 0 <= i < |xs| ==> xs[i].Number?
  }

  function Apply(name: FunctionName, xs: seq<Value>, sem: Semantics): Value {
    match name
    case Named(n) => sem.call(n, xs)
    case Abs => if |xs| == 1 && AllNumbers(xs) then Number(Magnitude(xs[0].value)) else Undefined
    case Clamp =>
      if |xs| == 3 && AllNumbers(xs) then Number(Smaller(Larger(xs[0].value, xs[1].value), xs[2].value)) else Undefined
    case ClampMin => if |xs| == 2 && AllNumbers(xs) then Number(Larger(xs[0].value, xs[1].value)) else Undefined
    case ClampMax => if |xs| == 2 && AllNumbers(xs) then Number(Smaller(xs[0].value, xs[1].value)) else Undefined
  }

  function Eval(e: Expr, env: Env, sem: Semantics): Value
    decreases e, 1
  {
    match e
    case Column(id) => env.column(id)
    case Literal(value) => value
    case Time(id) => sem.time(id)
    case Relation(node) => env.relation(node)
    case Negative(inner) => Negated(Eval(inner, env, sem))
    case Arithmetic(op, left, right) => Compute(op, Eval(left, env, sem), Eval(right, env, sem), sem)
    case Call(name, args) => Apply(name, EvalAll(args, env, sem), sem)
    case Case(operand, branches, otherwise) =>
      var tested := if operand.Some? then Some(Eval(operand.value, env, sem)) else None;
      var k := Picked(branches, tested, env, sem);
      if k < |branches| then Eval(branches[k].result, env, sem)
      else if otherwise.Some? then Eval(otherwise.value, env, sem)
      else Undefined
  }

  function EvalAll(args: seq<Expr>, env: Env, sem: Semantics): (xs: seq<Value>)
    ensures |xs| == |args|
    ensures forall i :: 0 <= i < |args| ==> xs[i] == Eval(args[i], env, sem)
    decreases args, 0
  {
    if args == [] then [] else [Eval(args[0], env, sem)] + EvalAll(args[1..], env, sem)
  }

  /** The first branch whose condition matches; `|branches|` when none does. */
  function Picked(branches: seq<Branch>, tested: Option<Value>, env: Env, sem: Semantics): (k: nat)
    ensures k <= |branches|
    decreases branches, 0
  {
    if branches == [] then 0
    else
      var first := branches[0];
      assert first.condition < first;
      if sem.matches(tested, Eval(first.condition, env, sem)) then 0
      else 1 + Picked(branches[1..], tested, env, sem)
  }

  // ---------------------------------------------- the leaves it reads

  function Columns(e: Expr): set<nat>
    decreases e, 1
  {
    match e
    case Column(id) => {id}
    case Negative(inner) => Columns(inner)
    case Arithmetic(_, left, right) => Columns(left) + Columns(right)
    case Call(_, args) => ColumnsOf(args)
    case Case(operand, branches, otherwise) =>
      (if operand.Some? then Columns(operand.value) else {}) + BranchColumns(branches)
        + (if otherwise.Some? then Columns(otherwise.value) else {})
    case _ => {}
  }

  function ColumnsOf(args: seq<Expr>): set<nat>
    decreases args, 0
  {
    if args == [] then {} else Columns(args[0]) + ColumnsOf(args[1..])
  }

  function BranchColumns(branches: seq<Branch>): set<nat>
    decreases branches, 0
  {
    if branches == [] then {}
    else
      var first := branches[0];
      assert first.condition < first && first.result < first;
      Columns(first.condition) + Columns(first.result) + BranchColumns(branches[1..])
  }

  function Relations(e: Expr): set<nat>
    decreases e, 1
  {
    match e
    case Relation(node) => {node}
    case Negative(inner) => Relations(inner)
    case Arithmetic(_, left, right) => Relations(left) + Relations(right)
    case Call(_, args) => RelationsOf(args)
    case Case(operand, branches, otherwise) =>
      (if operand.Some? then Relations(operand.value) else {}) + BranchRelations(branches)
        + (if otherwise.Some? then Relations(otherwise.value) else {})
    case _ => {}
  }

  function RelationsOf(args: seq<Expr>): set<nat>
    decreases args, 0
  {
    if args == [] then {} else Relations(args[0]) + RelationsOf(args[1..])
  }

  function BranchRelations(branches: seq<Branch>): set<nat>
    decreases branches, 0
  {
    if branches == [] then {}
    else
      var first := branches[0];
      assert first.condition < first && first.result < first;
      Relations(first.condition) + Relations(first.result) + BranchRelations(branches[1..])
  }

  // ------------------------------------------------- rules of the parts

  /** Drops exact guarantees and repeated ones, keeping the first of each. */
  function DistinctApproximate(gs: seq<Guarantee>): (r: seq<Guarantee>)
    ensures forall g :: g in r <==> g in gs && !g.IsExact()
    ensures forall i, j :: 0 <= i < j < |r| ==> r[i] != r[j]
  {
    if gs == [] then []
    else
      var rest, last := DistinctApproximate(gs[..|gs| - 1]), gs[|gs| - 1];
      assert gs == gs[..|gs| - 1] + [last];
      if last.IsExact() || last in rest then rest else rest + [last]
  }

  /** The approximate guarantees, stream bounds restated as absolute ones. */
  function ApproximateOf(args: seq<Guarantee>): seq<Guarantee> {
    if args == [] then []
    else
      var rest, last := ApproximateOf(args[..|args| - 1]), args[|args| - 1];
      if last.IsExact() then rest else rest + [AdditiveAsAbsolute(last, None)]
  }

  const ONE_ROW := Stats(Some(1), None, None, None)

  function Succeeded(c: Composed): Option<Guarantee> {
    match c
    case Success(g) => Some(g)
    case Failure(_) => None
  }

  /** A 1-Lipschitz function of `args`: an extremum of them, one value per argument. */
  ghost function LipschitzOf(args: seq<Guarantee>): Option<Guarantee> {
    var approximate := ApproximateOf(args);
    if approximate == [] then Some(ExactGuarantee("Lipschitz function of exact operands"))
    else Succeeded(Propagate(ExactExtremum, approximate, None, ONE_ROW))
  }

  ghost function Weakest(gs: seq<Guarantee>): Option<Guarantee> {
    var approximate := DistinctApproximate(gs);
    if |approximate| == 0 then Some(ExactGuarantee("exact over exact operands"))
    else if |approximate| == 1 then Some(approximate[0])
    else LipschitzOf(approximate)
  }

  /** The loop that collects the distinct approximate guarantees. */
  method CollectApproximate(gs: seq<Guarantee>) returns (approximate: seq<Guarantee>)
    ensures approximate == DistinctApproximate(gs)
  {
    approximate := [];
    for i := 0 to |gs|
      invariant approximate == DistinctApproximate(gs[..i])
    {
      assert gs[..i + 1][..i] == gs[..i];
      if !gs[i].IsExact() && gs[i] !in approximate {
        approximate := approximate + [gs[i]];
      }
    }
    assert gs[..|gs|] == gs;
  }

  function BinaryGuarantee(metric: Metric, bound: BoundExpr, l: Guarantee, r: Guarantee, unavailable: Option<string>,
                           op: Operator, rule: string): Guarantee
  {
    var missing := if unavailable.Some? then [UnavailableStatistic(unavailable.value)] else [];
    Guarantee(metric, bound, UnionBound([l.failure, r.failure]),
              [ChildGuarantee(0, l), ChildGuarantee(1, r)] + missing + [CompositionStep(op, rule)])
  }

  function RelativeProductGuarantee(l: Guarantee, r: Guarantee): Option<Guarantee> {
    if l.metric != Relative || r.metric != Relative then None
    else Some(BinaryGuarantee(Relative, Sum([l.error, r.error, Product([l.error, r.error])]), l, r, None, ExactProduct,
                              "relative_product_union_bound"))
  }

  predicate Valued(g: Guarantee) {
    g.IsExact() || g.metric == Absolute || g.metric == Relative
  }

  predicate ExactOrRelative(g: Guarantee) {
    g.IsExact() || g.metric == Relative
  }

  /** The statistic a product or quotient leaves symbolic on its operands' domains. */
  function OperandDomainStatistic(op: ArithmeticOp, l: Guarantee, r: Guarantee): Option<string> {
    if !Valued(l) || !Valued(r) then None
    else if op == Mul && !l.IsExact() && !r.IsExact() && !(l.metric == Relative && r.metric == Relative)
    then Some(PRODUCT_OPERAND_DOMAINS)
    else if op == Div && !r.IsExact() && !(ExactOrRelative(l) && ExactOrRelative(r)) then Some(QUOTIENT_OPERAND_DOMAINS)
    else None
  }

  function Symbolic(l: Guarantee, r: Guarantee, statistic: string): Guarantee {
    if statistic == QUOTIENT_OPERAND_DOMAINS
    then BinaryGuarantee(Absolute, Unknown(statistic), l, r, Some(statistic), ExactDivision,
                         "absolute_division_needs_operand_domains")
    else BinaryGuarantee(Absolute, Unknown(statistic), l, r, Some(statistic), ExactProduct,
                         "absolute_product_needs_operand_domains")
  }

  ghost function Compose(op: Operator, inputs: seq<Guarantee>, local: Option<Guarantee>): Option<Guarantee> {
    Succeeded(Propagate(op, inputs, local, NO_STATS))
  }

  /** `x` times an exact factor, `Some(|c|)` when it is a literal. */
  ghost function ScaledBy(input: Guarantee, factor: Option<real>): Option<Guarantee> {
    if input.metric == Relative then Some(input)
    else if factor.Some? then Compose(Lipschitz(factor.value), [input], None)
    else None
  }

  /** `x` plus an exact value. */
  ghost function Shifted(input: Guarantee): Option<Guarantee> {
    Compose(Lipschitz(1.0), [input], None)
  }

  function MagnitudeOf(c: Option<real>): Option<real> {
    if c.Some? then Some(Magnitude(c.value)) else None
  }

  function InverseOf(c: Option<real>): Option<real>
    requires c != Some(0.0)
  {
    if c.Some? then Some(1.0 / Magnitude(c.value)) else None
  }

  /** The rule of `left op right` over restated operands, before a shared failure counts once. */
  ghost function ArithmeticRule(op: ArithmeticOp, l: Guarantee, r: Guarantee, leftLiteral: Option<real>,
                                rightLiteral: Option<real>): Option<Guarantee>
    requires !l.IsExact() || !r.IsExact()
  {
    var statistic := OperandDomainStatistic(op, l, r);
    match op
    case Add => if l.IsExact() then Shifted(r) else if r.IsExact() then Shifted(l) else Compose(Lipschitz(1.0), [l], Some(r))
    case Sub => if l.IsExact() then Shifted(r) else if r.IsExact() then Shifted(l) else Compose(Lipschitz(1.0), [l], Some(r))
    case Mul =>
      if l.IsExact() then ScaledBy(r, MagnitudeOf(leftLiteral))
      else if r.IsExact() then ScaledBy(l, MagnitudeOf(rightLiteral))
      else if statistic.None? then RelativeProductGuarantee(l, r)
      else Some(Symbolic(l, r, statistic.value))
    case Div =>
      if !l.IsExact() && r.IsExact() then
        if rightLiteral == Some(0.0) then None else ScaledBy(l, InverseOf(rightLiteral))
      else if statistic.None? then Compose(ExactDivision, [l, r], None)
      else Some(Symbolic(l, r, statistic.value))
    case _ => None
  }

  ghost function ArithmeticGuarantee(op: ArithmeticOp, left: Option<Guarantee>, right: Option<Guarantee>,
                                     leftLiteral: Option<real>, rightLiteral: Option<real>, same: bool): Option<Guarantee>
  {
    if left.None? || right.None? then None
    else
      var l, r := AdditiveAsAbsolute(left.value, None), AdditiveAsAbsolute(right.value, None);
      if l.IsExact() && r.IsExact() then Some(ExactGuarantee("arithmetic over exact operands"))
      else
        var composed := ArithmeticRule(op, l, r, leftLiteral, rightLiteral);
        if composed.Some? && same then Some(composed.value.(failure := l.failure)) else composed
  }

  // --------------------------------------------- the whole expression

  /** A relation's own guarantee, and the norm its summary's stream bound is normalized by. */
  datatype RelationGuarantee = RelationGuarantee(guarantee: Option<Guarantee>, norm: Option<StreamNorm>)

  datatype Inputs = Inputs(column: nat -> Option<Guarantee>, relation: nat -> RelationGuarantee)

  predicate IsExactOption(g: Option<Guarantee>) {
    g.Some? && g.value.IsExact()
  }

  function LiteralOf(e: Expr): Option<real> {
    if e.Literal? && e.value.Number? then Some(e.value.value) else None
  }

  /** Two operands that are one value: the same column, or the same planned operator. */
  predicate SameValue(left: Expr, right: Expr) {
    (left.Column? && right.Column? && left.id == right.id) || (left.Relation? && right.Relation? && left.node == right.node)
  }

  predicate LeavesExact(e: Expr, inputs: Inputs) {
    && (forall c :: c in Columns(e) ==> IsExactOption(inputs.column(c)))
    && (forall n :: n in Relations(e) ==> IsExactOption(inputs.relation(n).guarantee))
  }

  ghost function ScalarGuarantee(e: Expr, inputs: Inputs): Option<Guarantee>
    decreases e, 1
  {
    match e
    case Column(id) => inputs.column(id)
    case Relation(node) => inputs.relation(node).guarantee
    case Literal(_) => Some(ExactGuarantee("constant"))
    case Time(_) => Some(ExactGuarantee("constant"))
    case Negative(inner) =>
      var g := ScalarGuarantee(inner, inputs);
      if g.None? then None else LipschitzOf([g.value])
    case Case(operand, branches, otherwise) =>
      if operand.Some? && !IsExactOption(ScalarGuarantee(operand.value, inputs)) then None
      else if !ConditionsExact(branches, inputs) then None
      else
        var results := ResultGuarantees(branches, inputs);
        var last := if otherwise.Some? then ScalarGuarantee(otherwise.value, inputs) else None;
        if results.None? || (otherwise.Some? && last.None?) then None
        else Weakest(results.value + if otherwise.Some? then [last.value] else [])
    case Arithmetic(op, left, right) =>
      ArithmeticGuarantee(op, OperandOf(left, inputs, ScalarGuarantee(left, inputs)),
                          OperandOf(right, inputs, ScalarGuarantee(right, inputs)),
                          LiteralOf(left), LiteralOf(right), SameValue(left, right))
    case Call(name, args) =>
      if name.Named? then
        if LeavesExact(e, inputs) then Some(ExactGuarantee("exact over exact operands")) else None
      else
        var gs := OperandGuarantees(args, inputs);
        if gs.None? then None else LipschitzOf(gs.value)
  }

  /** An operand's guarantee: a relation's restated over its stream norm, anything else's as it is. */
  ghost function OperandOf(e: Expr, inputs: Inputs, own: Option<Guarantee>): Option<Guarantee> {
    if !e.Relation? then own
    else
      var relation := inputs.relation(e.node);
      if relation.guarantee.None? then None else Some(AdditiveAsAbsolute(relation.guarantee.value, relation.norm))
  }

  ghost function OperandGuarantees(args: seq<Expr>, inputs: Inputs): (r: Option<seq<Guarantee>>)
    ensures r.Some? ==> |r.value| == |args|
    ensures r.Some? ==> forall i :: 0 <= i < |args| ==>
      OperandOf(args[i], inputs, ScalarGuarantee(args[i], inputs)) == Some(r.value[i])
    decreases args, 0
  {
    if args == [] then Some([])
    else
      var head := OperandOf(args[0], inputs, ScalarGuarantee(args[0], inputs));
      var tail := OperandGuarantees(args[1..], inputs);
      if head.Some? && tail.Some? then Some([head.value] + tail.value) else None
  }

  ghost predicate ConditionsExact(branches: seq<Branch>, inputs: Inputs)
    decreases branches, 0
  {
    if branches == [] then true
    else
      var first := branches[0];
      assert first.condition < first;
      IsExactOption(ScalarGuarantee(first.condition, inputs)) && ConditionsExact(branches[1..], inputs)
  }

  ghost function ResultGuarantees(branches: seq<Branch>, inputs: Inputs): (r: Option<seq<Guarantee>>)
    ensures r.Some? ==> |r.value| == |branches|
    decreases branches, 0
  {
    if branches == [] then Some([])
    else
      var first := branches[0];
      assert first.result < first;
      var head, tail := ScalarGuarantee(first.result, inputs), ResultGuarantees(branches[1..], inputs);
      if head.Some? && tail.Some? then Some([head.value] + tail.value) else None
  }
}
