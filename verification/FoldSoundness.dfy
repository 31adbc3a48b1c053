/**
 Soundness of the exact folds over approximate rows: a sum, mean, maximum or
 minimum of any number of estimated values keeps the guarantee the registered
 rules compose for it (crates/accuracy/src/composition.rs:186-419).
 */
module FoldSoundness {
  import opened Composition
  import opened FiniteSums
  import opened Guarantees
  import opened LipschitzRules
  import opened Outcomes
  import opened RealBounds
  import opened Results
  import opened ScalarExprs
  import opened ScalarRules

  datatype Fold = SumFold | MeanFold | MaxFold | MinFold

  function OperatorOf(fold: Fold): Operator {
    match fold
    case SumFold => ExactSum
    case MeanFold => ExactAverage
    case _ => ExactExtremum
  }

  function Extreme(largest: bool, xs: seq<real>): real
    requires xs != []
  {
    if |xs| == 1 then xs[0]
    else
      var rest := Extreme(largest, xs[..|xs| - 1]);
      if largest then Larger(rest, xs[|xs| - 1]) else Smaller(rest, xs[|xs| - 1])
  }

  /** The fold of the values, none for no values. */
  function FoldValue(fold: Fold, xs: seq<real>): Value {
    if xs == [] then Undefined
    else match fold
         case SumFold => Number(SumSeq(xs))
         case MeanFold => Number(SumSeq(xs) / |xs| as real)
         case MaxFold => Number(Extreme(true, xs))
         case MinFold => Number(Extreme(false, xs))
  }

  /** Rows of one value per input, in row order. */
  function Flat(rows: seq<seq<real>>): seq<real> {
    if rows == [] then [] else Flat(rows[..|rows| - 1]) + rows[|rows| - 1]
  }

  // ------------------------------------------------ sums of close values

  predicate AllWithin(xs: seq<real>, ys: seq<real>, e: real) {
    |xs| == |ys| && forall i :: 0 <= i < |xs| ==> Distance(ys[i], xs[i]) <= e
  }

  predicate AllWithinShare(xs: seq<real>, ys: seq<real>, a: real) {
    |xs| == |ys| && forall i :: 0 <= i < |xs| ==> Distance(ys[i], xs[i]) <= a * Magnitude(xs[i])
  }

  lemma {:induction false} SumDistance(xs: seq<real>, ys: seq<real>, e: real)
    requires AllWithin(xs, ys, e)
    ensures Distance(SumSeq(ys), SumSeq(xs)) <= |xs| as real * e
  {
    hide *;
    if xs != [] {
      var n := |xs| - 1;
      WithinPrefix(xs, ys, e);
      SumDistance(xs[..n], ys[..n], e);
      LastAdds(xs);
      LastAdds(ys);
      DistancesAdd(SumSeq(xs[..n]), SumSeq(ys[..n]), xs[n], ys[n]);
      OneMoreWithin(n as real, e, Distance(SumSeq(ys[..n]), SumSeq(xs[..n])), Distance(ys[n], xs[n]));
      assert |xs| as real == n as real + 1.0;
    } else {
      NoneToAdd(xs, ys, e);
    }
  }

  lemma WithinPrefix(xs: seq<real>, ys: seq<real>, e: real)
    requires xs != [] && AllWithin(xs, ys, e)
    ensures |ys| == |xs| && AllWithin(xs[..|xs| - 1], ys[..|xs| - 1], e) && Distance(ys[|xs| - 1], xs[|xs| - 1]) <= e
  {
  }

  lemma LastAdds(xs: seq<real>)
    requires xs != []
    ensures SumSeq(xs) == SumSeq(xs[..|xs| - 1]) + xs[|xs| - 1]
  {
  }

  lemma NoneToAdd(xs: seq<real>, ys: seq<real>, e: real)
    requires xs == [] && AllWithin(xs, ys, e)
    ensures Distance(SumSeq(ys), SumSeq(xs)) <= |xs| as real * e
  {
    assert SumSeq(xs) == 0.0 && SumSeq(ys) == 0.0;
  }

  lemma OneMoreWithin(n: real, e: real, d0: real, d1: real)
    requires d0 <= n * e && d1 <= e
    ensures d0 + d1 <= (n + 1.0) * e
  {
    OneMore(n, e);
  }

  lemma DistancesAdd(x: real, x': real, y: real, y': real)
    ensures Distance(x' + y', x + y) <= Distance(x', x) + Distance(y', y)
  {
  }

  /** Over values that are never negative nothing cancels. */
  lemma {:induction false} SumShare(xs: seq<real>, ys: seq<real>, a: real)
    requires a >= 0.0 && AllWithinShare(xs, ys, a)
    requires forall i :: 0 <= i < |xs| ==> xs[i] >= 0.0
    ensures SumSeq(xs) >= 0.0
    ensures Distance(SumSeq(ys), SumSeq(xs)) <= a * SumSeq(xs)
  {
    if xs != [] {
      var n := |xs| - 1;
      SumShare(xs[..n], ys[..n], a);
      DistancesAdd(SumSeq(xs[..n]), SumSeq(ys[..n]), xs[n], ys[n]);
      assert Magnitude(xs[n]) == xs[n];
      hide Distance, Magnitude;
      Distributes(a, SumSeq(xs[..n]), xs[n]);
    } else {
      assert SumSeq(xs) == 0.0 && SumSeq(ys) == 0.0;
    }
  }

  lemma Distributes(a: real, x: real, y: real)
    ensures a * (x + y) == a * x + a * y
  {
  }

  lemma {:induction false} ExtremeWithin(largest: bool, xs: seq<real>, ys: seq<real>, e: real)
    requires xs != [] && AllWithin(xs, ys, e)
    ensures Distance(Extreme(largest, ys), Extreme(largest, xs)) <= e
  {
    hide Distance, Larger, Smaller;
    if |xs| > 1 {
      var n := |xs| - 1;
      ExtremeWithin(largest, xs[..n], ys[..n], e);
      AbsoluteExtremum(Extreme(largest, xs[..n]), Extreme(largest, ys[..n]), xs[n], ys[n], e);
    }
  }

  /** Whatever the signs, when no estimate can cross zero. */
  lemma {:induction false} ExtremeShare(largest: bool, xs: seq<real>, ys: seq<real>, a: real)
    requires xs != [] && 0.0 <= a <= 1.0 && AllWithinShare(xs, ys, a)
    ensures Distance(Extreme(largest, ys), Extreme(largest, xs)) <= a * Magnitude(Extreme(largest, xs))
  {
    hide Distance, Magnitude, Larger, Smaller;
    if |xs| > 1 {
      var n := |xs| - 1;
      ExtremeShare(largest, xs[..n], ys[..n], a);
      RelativeExtremum(Extreme(largest, xs[..n]), Extreme(largest, ys[..n]), xs[n], ys[n], a);
    }
  }

  /** The mean of values within a bound is within it. */
  lemma MeanWithin(xs: seq<real>, ys: seq<real>, e: real)
    requires xs != [] && AllWithin(xs, ys, e)
    ensures |xs| as real > 0.0
    ensures Distance(SumSeq(ys) / |xs| as real, SumSeq(xs) / |xs| as real) <= e
  {
    hide *;
    SumDistance(xs, ys, e);
    DividedWithin(SumSeq(xs), SumSeq(ys), |xs| as real, e);
  }

  lemma DividedWithin(x: real, x': real, n: real, e: real)
    requires n > 0.0 && Distance(x', x) <= n * e
    ensures Distance(x' / n, x / n) <= e
  {
    var t := x / n;
    assert t * n == x;
    QuotientOf(x', t, n);
    CancelPositive(Distance(x' / n, t), e, n);
  }

  lemma MeanShare(xs: seq<real>, ys: seq<real>, a: real)
    requires xs != [] && a >= 0.0 && AllWithinShare(xs, ys, a)
    requires forall i :: 0 <= i < |xs| ==> xs[i] >= 0.0
    ensures |xs| as real > 0.0
    ensures Distance(SumSeq(ys) / |xs| as real, SumSeq(xs) / |xs| as real) <= a * Magnitude(SumSeq(xs) / |xs| as real)
  {
    hide *;
    SumShare(xs, ys, a);
    OwnMagnitude(a, SumSeq(xs), Distance(SumSeq(ys), SumSeq(xs)));
    RelativeDivisor(SumSeq(xs), SumSeq(ys), |xs| as real, a);
  }

  lemma OwnMagnitude(a: real, x: real, d: real)
    requires x >= 0.0 && d <= a * x
    ensures d <= a * Magnitude(x)
  {
  }

  // --------------------------------------- folds within a uniform bound

  /** What a fold needs of its values to keep a bound `b` in `metric`. */
  predicate FoldAllows(fold: Fold, metric: Metric, b: real, xs: seq<real>) {
    match fold
    case SumFold => metric == Relative && forall i :: 0 <= i < |xs| ==> xs[i] >= 0.0
    case MeanFold => metric == Relative ==> forall i :: 0 <= i < |xs| ==> xs[i] >= 0.0
    case _ => metric == Relative ==> b <= 1.0
  }

  ghost predicate AllCloseNumbers(metric: Metric, b: real, xs: seq<real>, ys: seq<real>) {
    |xs| == |ys| && forall i :: 0 <= i < |xs| ==> Close(metric, Some(b), Number(xs[i]), Number(ys[i]))
  }

  lemma UniformFold(fold: Fold, metric: Metric, b: real, xs: seq<real>, ys: seq<real>)
    requires (metric == Absolute || metric == Relative) && b >= 0.0
    requires AllCloseNumbers(metric, b, xs, ys) && FoldAllows(fold, metric, b, xs)
    ensures Close(metric, Some(b), FoldValue(fold, xs), FoldValue(fold, ys))
  {
    hide Close, SumSeq, Extreme, Distance, Magnitude;
    if xs == [] {
      SameIsClose(metric, b, Undefined);
    } else {
      forall i | 0 <= i < |xs|
        ensures metric == Absolute ==> Distance(ys[i], xs[i]) <= b
        ensures metric == Relative ==> Distance(ys[i], xs[i]) <= b * Magnitude(xs[i])
      {
        Numbers(metric, b, Number(xs[i]), Number(ys[i]));
      }
      if metric == Absolute {
        AbsoluteFold(fold, b, xs, ys);
      } else {
        RelativeFolded(fold, b, xs, ys);
      }
    }
  }

  lemma AbsoluteFold(fold: Fold, b: real, xs: seq<real>, ys: seq<real>)
    requires b >= 0.0 && xs != [] && AllWithin(xs, ys, b) && !fold.SumFold?
    ensures Close(Absolute, Some(b), FoldValue(fold, xs), FoldValue(fold, ys))
  {
    hide Close, SumSeq, Extreme, Distance, Magnitude, AllWithin;
    assert |xs| == |ys| by { SameLength(xs, ys, b); }
    match fold {
      case MeanFold =>
        MeanWithin(xs, ys, b);
        AbsoluteNumbers(b, SumSeq(xs) / |xs| as real, SumSeq(ys) / |xs| as real);
      case MaxFold =>
        ExtremeWithin(true, xs, ys, b);
        AbsoluteNumbers(b, Extreme(true, xs), Extreme(true, ys));
      case MinFold =>
        ExtremeWithin(false, xs, ys, b);
        AbsoluteNumbers(b, Extreme(false, xs), Extreme(false, ys));
    }
  }

  lemma SameLength(xs: seq<real>, ys: seq<real>, b: real)
    requires AllWithin(xs, ys, b)
    ensures |xs| == |ys|
  {
  }

  lemma RelativeFolded(fold: Fold, b: real, xs: seq<real>, ys: seq<real>)
    requires b >= 0.0 && xs != [] && AllWithinShare(xs, ys, b) && FoldAllows(fold, Relative, b, xs)
    ensures Close(Relative, Some(b), FoldValue(fold, xs), FoldValue(fold, ys))
  {
    hide Close, SumSeq, Extreme, Distance;
    assert |xs| == |ys|;
    match fold {
      case SumFold =>
        SumShare(xs, ys, b);
        OwnMagnitude(b, SumSeq(xs), Distance(SumSeq(ys), SumSeq(xs)));
        RelativeNumbers(b, SumSeq(xs), SumSeq(ys));
      case MeanFold =>
        MeanShare(xs, ys, b);
        RelativeNumbers(b, SumSeq(xs) / |xs| as real, SumSeq(ys) / |xs| as real);
      case MaxFold =>
        ExtremeShare(true, xs, ys, b);
        RelativeNumbers(b, Extreme(true, xs), Extreme(true, ys));
      case MinFold =>
        ExtremeShare(false, xs, ys, b);
        RelativeNumbers(b, Extreme(false, xs), Extreme(false, ys));
    }
  }

  // -------------------------------------------- rows and their outcomes

  /** Rows of one true value per input, and the estimated rows of each outcome. */
  datatype Rows = Rows(space: Space, truth: seq<seq<real>>, estimate: nat -> seq<seq<real>>)

  predicate Shaped(values: seq<seq<real>>, count: nat, width: nat) {
    |values| == count && forall j :: 0 <= j < count ==> |values[j]| == width
  }

  ghost predicate IsRows(rows: Rows, width: nat) {
    && IsSpace(rows.space)
    && Shaped(rows.truth, |rows.truth|, width)
    && forall w :: w in rows.space.outcomes ==> Shaped(rows.estimate(w), |rows.truth|, width)
  }

  /** The outcomes in which input `i`'s value of row `j` misses its bound. */
  ghost function CellMisses(rows: Rows, width: nat, g: Guarantee, j: nat, i: nat): set<nat>
    requires IsRows(rows, width) && j < |rows.truth| && i < width
  {
    set w | w in rows.space.outcomes && !Accurate(g, Number(rows.truth[j][i]), Number(rows.estimate(w)[j][i]))
  }

  /** Every value of every row keeps its input's guarantee, each on its own. */
  ghost predicate CellsHold(rows: Rows, inputs: seq<Guarantee>)
    requires IsRows(rows, |inputs|)
  {
    forall j: nat, i: nat :: j < |rows.truth| && i < |inputs| ==>
      Within(rows.space, CellMisses(rows, |inputs|, inputs[i], j, i), inputs[i].failure)
  }

  ghost function FoldMisses(rows: Rows, fold: Fold, g: Guarantee): set<nat> {
    set w | w in rows.space.outcomes
      && !Accurate(g, FoldValue(fold, Flat(rows.truth)), FoldValue(fold, Flat(rows.estimate(w))))
  }

  ghost function RowEvents(rows: Rows, inputs: seq<Guarantee>, j: nat): (events: seq<set<nat>>)
    requires IsRows(rows, |inputs|) && j < |rows.truth|
    ensures |events| == |inputs|
    ensures forall i :: 0 <= i < |inputs| ==> events[i] == CellMisses(rows, |inputs|, inputs[i], j, i)
  {
    seq(|inputs|, i requires 0 <= i < |inputs| => CellMisses(rows, |inputs|, inputs[i], j, i))
  }

  ghost function AllEvents(rows: Rows, inputs: seq<Guarantee>): (events: seq<set<nat>>)
    requires IsRows(rows, |inputs|)
    ensures |events| == |rows.truth|
    ensures forall j :: 0 <= j < |rows.truth| ==> events[j] == UnionOfAll(RowEvents(rows, inputs, j))
  {
    seq(|rows.truth|, j requires 0 <= j < |rows.truth| => UnionOfAll(RowEvents(rows, inputs, j)))
  }

  /** Any value missing its bound, in any row: the union bound scaled by the row count. */
  lemma AnyCellWithin(rows: Rows, inputs: seq<Guarantee>, count: BoundExpr)
    requires IsRows(rows, |inputs|) && CellsHold(rows, inputs)
    requires Evaluate(count).Some? ==> |rows.truth| as real <= Evaluate(count).value
    requires Evaluate(count).None? ==> !IsZero(count)
    ensures Within(rows.space, UnionOfAll(AllEvents(rows, inputs)), ScaledProbability(count, UnionBound(Failures(inputs))))
  {
    hide IsSpace, Weight, Within, CellMisses, UnionOfAll, Evaluate, IsZero;
    forall j | 0 <= j < |rows.truth|
      ensures Within(rows.space, UnionOfAll(RowEvents(rows, inputs, j)), UnionBound(Failures(inputs)))
    {
      var events := RowEvents(rows, inputs, j);
      assert EachWithin(rows.space, events, Failures(inputs));
      UnionWithin(rows.space, events, Failures(inputs));
    }
    RowsWithin(rows.space, AllEvents(rows, inputs), UnionBound(Failures(inputs)), count);
  }

  /** Every value accurate: what holds outside all the events. */
  ghost predicate CellsAccurate(inputs: seq<Guarantee>, xs: seq<seq<real>>, ys: seq<seq<real>>) {
    && Shaped(xs, |xs|, |inputs|) && Shaped(ys, |xs|, |inputs|)
    && forall j: nat, i: nat :: j < |xs| && i < |inputs| ==> Accurate(inputs[i], Number(xs[j][i]), Number(ys[j][i]))
  }

  lemma OutsideAll(rows: Rows, inputs: seq<Guarantee>, w: nat)
    requires IsRows(rows, |inputs|) && w in rows.space.outcomes && w !in UnionOfAll(AllEvents(rows, inputs))
    ensures CellsAccurate(inputs, rows.truth, rows.estimate(w))
  {
    hide IsSpace, Accurate, UnionOfAll;
    forall j: nat, i: nat | j < |rows.truth| && i < |inputs|
      ensures Accurate(inputs[i], Number(rows.truth[j][i]), Number(rows.estimate(w)[j][i]))
    {
      InUnionOfAll(AllEvents(rows, inputs), j);
      InUnionOfAll(RowEvents(rows, inputs, j), i);
      assert w !in CellMisses(rows, |inputs|, inputs[i], j, i);
    }
  }

  // ------------------------------------------------ the rules, unfolded

  function CountOf(stats: Stats): BoundExpr {
    RowCount(stats).0
  }

  predicate NeedsSign(fold: Fold) {
    fold.SumFold? || fold.MeanFold?
  }

  /** The largest bound, in one metric the values share. */
  predicate LargestBound(fold: Fold, inputs: seq<Guarantee>, stats: Stats, g: Guarantee) {
    && (g.metric == Relative || (g.metric == Absolute && !fold.SumFold?))
    && (forall i :: 0 <= i < |inputs| ==> inputs[i].metric == g.metric)
    && g.error == Max(Errors(inputs))
    && (g.metric == Relative && NeedsSign(fold) ==> stats.valuesNonNegative == Some(true))
  }

  /** A bound that needs the values' sign, which is not known. */
  ghost predicate SignUnknown(inputs: seq<Guarantee>, g: Guarantee) {
    && g.metric == Relative
    && (forall i :: 0 <= i < |inputs| ==> inputs[i].metric == Relative)
    && (g.error.Unknown? || exists s :: g.error == Product([Max(Errors(inputs)), Unknown(s)]))
  }

  predicate CountedSum(fold: Fold, inputs: seq<Guarantee>, stats: Stats, g: Guarantee) {
    && fold.SumFold? && g.metric == Absolute && AbsoluteBounds(inputs).Some?
    && g.error == Product([CountOf(stats), Sum(AbsoluteBounds(inputs).value)])
  }

  lemma FoldRule(fold: Fold, inputs: seq<Guarantee>, stats: Stats, g: Guarantee)
    requires Propagate(OperatorOf(fold), inputs, None, stats) == Success(g) && !AllExact(inputs)
    ensures g.failure == ScaledProbability(CountOf(stats), UnionBound(Failures(inputs)))
    ensures LargestBound(fold, inputs, stats, g) || SignUnknown(inputs, g) || CountedSum(fold, inputs, stats, g)
  {
    hide AllExact, AbsoluteBounds, Errors, Failures, UnknownFactors, ComposedProvenance, RelativeFold;
    if AllRelative(inputs) {
      var rule := match fold
        case SumFold => "exact_sum_relative"
        case MeanFold => "exact_average_relative"
        case _ => "exact_extremum_relative";
      assert RelativeFold(OperatorOf(fold), inputs, stats, NeedsSign(fold), rule) == Success(g);
      hide Propagate;
      RelativeFoldRule(fold, inputs, stats, rule, g);
    }
  }

  lemma RelativeFoldRule(fold: Fold, inputs: seq<Guarantee>, stats: Stats, rule: string, g: Guarantee)
    requires AllRelative(inputs) && RelativeFold(OperatorOf(fold), inputs, stats, NeedsSign(fold), rule) == Success(g)
    ensures g.failure == ScaledProbability(CountOf(stats), UnionBound(Failures(inputs)))
    ensures LargestBound(fold, inputs, stats, g) || SignUnknown(inputs, g)
  {
    hide Errors, Failures, ComposedProvenance;
    if NeedsSign(fold) && stats.valuesNonNegative.None? {
      if stats.signStatistic.Some? {
        assert g.error == Product([Max(Errors(inputs)), Unknown(stats.signStatistic.value)]);
      }
      assert SignUnknown(inputs, g);
    } else {
      if NeedsSign(fold) {
        var known := stats.valuesNonNegative.value;
        assert stats.valuesNonNegative == Some(known) && known;
      }
      assert LargestBound(fold, inputs, stats, g);
    }
  }

  lemma CountIs(stats: Stats, rows: nat)
    requires stats.inputRowCount.Some? ==> rows <= stats.inputRowCount.value
    ensures Evaluate(CountOf(stats)).Some? ==> rows as real <= Evaluate(CountOf(stats)).value
    ensures Evaluate(CountOf(stats)).None? ==> !IsZero(CountOf(stats))
  {
  }

  // ---------------------------------------------- folds of accurate rows

  lemma {:induction false} FlatClose(metric: Metric, b: real, xs: seq<seq<real>>, ys: seq<seq<real>>)
    requires |xs| == |ys|
    requires forall j :: 0 <= j < |xs| ==> AllCloseNumbers(metric, b, xs[j], ys[j])
    ensures AllCloseNumbers(metric, b, Flat(xs), Flat(ys))
  {
    hide Close;
    if xs != [] { FlatClose(metric, b, xs[..|xs| - 1], ys[..|ys| - 1]); }
  }

  lemma {:induction false} FlatNonNegative(xs: seq<seq<real>>)
    requires forall j :: 0 <= j < |xs| ==> forall i :: 0 <= i < |xs[j]| ==> xs[j][i] >= 0.0
    ensures forall k :: 0 <= k < |Flat(xs)| ==> Flat(xs)[k] >= 0.0
  {
    if xs != [] { FlatNonNegative(xs[..|xs| - 1]); }
  }

  predicate AllNonNegative(xs: seq<seq<real>>) {
    forall j :: 0 <= j < |xs| ==> forall i :: 0 <= i < |xs[j]| ==> xs[j][i] >= 0.0
  }

  /** No relative input of an extremum has a known bound above one. */
  ghost predicate ExtremumAllows(fold: Fold, inputs: seq<Guarantee>) {
    !NeedsSign(fold) ==> forall i :: 0 <= i < |inputs| && inputs[i].metric == Relative && BoundOf(inputs[i].error).Some? ==>
      BoundOf(inputs[i].error).value <= 1.0
  }

  /** Equal rows have equal folds. */
  lemma EqualRows(inputs: seq<Guarantee>, fold: Fold, xs: seq<seq<real>>, ys: seq<seq<real>>, g: Guarantee)
    requires CellsAccurate(inputs, xs, ys)
    requires forall i :: 0 <= i < |inputs| ==> BoundOf(inputs[i].error) == Some(0.0)
    ensures Accurate(g, FoldValue(fold, Flat(xs)), FoldValue(fold, Flat(ys)))
  {
    hide BoundOf, FoldValue, Flat;
    forall j, i | 0 <= j < |xs| && 0 <= i < |xs[j]| ensures xs[j][i] == ys[j][i] {
      assert Accurate(inputs[i], Number(xs[j][i]), Number(ys[j][i]));
    }
    forall j | 0 <= j < |xs| ensures xs[j] == ys[j] {
      assert |xs[j]| == |ys[j]| && forall i :: 0 <= i < |xs[j]| ==> xs[j][i] == ys[j][i];
    }
    assert xs == ys;
    SameAccurate(g, FoldValue(fold, Flat(xs)));
  }

  lemma {:induction false} InputBelowMax(inputs: seq<Guarantee>, i: nat)
    requires i < |inputs| && BoundOf(Max(Errors(inputs))).Some?
    ensures BoundOf(inputs[i].error).Some? && BoundOf(inputs[i].error).value <= BoundOf(Max(Errors(inputs))).value
  {
    hide BoundOf;
    BoundOfMax(Errors(inputs), i);
  }

  lemma LargestAccurate(fold: Fold, inputs: seq<Guarantee>, stats: Stats, g: Guarantee, xs: seq<seq<real>>,
                        ys: seq<seq<real>>)
    requires LargestBound(fold, inputs, stats, g) && CellsAccurate(inputs, xs, ys)
    requires stats.valuesNonNegative == Some(true) ==> AllNonNegative(xs)
    requires ExtremumAllows(fold, inputs)
    ensures Accurate(g, FoldValue(fold, Flat(xs)), FoldValue(fold, Flat(ys)))
  {
    hide BoundOf, Close, FoldValue, Flat, Errors;
    if BoundOf(g.error).Some? {
      var b := BoundOf(g.error).value;
      KeptNonNegative(g.error);
      forall j | 0 <= j < |xs| ensures AllCloseNumbers(g.metric, b, xs[j], ys[j]) {
        forall i | 0 <= i < |inputs| ensures Close(g.metric, Some(b), Number(xs[j][i]), Number(ys[j][i])) {
          assert Accurate(inputs[i], Number(xs[j][i]), Number(ys[j][i]));
          InputBelowMax(inputs, i);
          KeptNonNegative(inputs[i].error);
          CloseWider(g.metric, BoundOf(inputs[i].error).value, b, Number(xs[j][i]), Number(ys[j][i]));
        }
      }
      FlatClose(g.metric, b, xs, ys);
      if g.metric == Relative {
        if NeedsSign(fold) { FlatNonNegative(xs); } else { BelowOne(inputs, b); }
      }
      UniformFold(fold, g.metric, b, Flat(xs), Flat(ys));
    } else {
      UnknownAccurate(g, FoldValue(fold, Flat(xs)), FoldValue(fold, Flat(ys)));
    }
  }

  lemma BelowOne(inputs: seq<Guarantee>, b: real)
    requires BoundOf(Max(Errors(inputs))) == Some(b)
    requires forall i :: 0 <= i < |inputs| && BoundOf(inputs[i].error).Some? ==> BoundOf(inputs[i].error).value <= 1.0
    ensures b <= 1.0
  {
    hide Evaluate, IsZero, Errors, EvaluateMax;
    EachBelowOne(inputs);
    MaxUnfolds(Errors(inputs));
    if !IsZero(Max(Errors(inputs))) { MaxBelow(Errors(inputs), 1.0); }
  }

  lemma MaxUnfolds(bounds: seq<BoundExpr>)
    ensures Evaluate(Max(bounds)) == EvaluateMax(bounds)
  {
  }

  lemma EachBelowOne(inputs: seq<Guarantee>)
    requires forall i :: 0 <= i < |inputs| && BoundOf(inputs[i].error).Some? ==> BoundOf(inputs[i].error).value <= 1.0
    ensures forall i :: 0 <= i < |Errors(inputs)| && Evaluate(Errors(inputs)[i]).Some? ==> Evaluate(Errors(inputs)[i]).value <= 1.0
  {
    hide Evaluate, BoundOf;
    forall i | 0 <= i < |inputs| && Evaluate(inputs[i].error).Some? ensures Evaluate(inputs[i].error).value <= 1.0 {
      KnownBound(inputs[i].error);
    }
  }

  lemma SignUnknownAccurate(fold: Fold, inputs: seq<Guarantee>, g: Guarantee, xs: seq<seq<real>>, ys: seq<seq<real>>)
    requires SignUnknown(inputs, g) && CellsAccurate(inputs, xs, ys)
    ensures Accurate(g, FoldValue(fold, Flat(xs)), FoldValue(fold, Flat(ys)))
  {
    hide FoldValue, Flat, Errors, Accurate, CellsAccurate, Evaluate, IsZero;
    if BoundOf(g.error).None? {
      UnknownAccurate(g, FoldValue(fold, Flat(xs)), FoldValue(fold, Flat(ys)));
    } else {
      ZeroAllAlong(inputs, g);
      forall i | 0 <= i < |inputs| ensures BoundOf(inputs[i].error) == Some(0.0) {
        InputBelowMax(inputs, i);
        KeptNonNegative(inputs[i].error);
      }
      EqualRows(inputs, fold, xs, ys, g);
    }
  }

  /** A bound gated on an unknown sign is known only when it is zero. */
  lemma ZeroAllAlong(inputs: seq<Guarantee>, g: Guarantee)
    requires SignUnknown(inputs, g) && BoundOf(g.error).Some?
    ensures BoundOf(Max(Errors(inputs))) == Some(0.0)
  {
    hide Errors;
    if !g.error.Unknown? {
      var s :| g.error == Product([Max(Errors(inputs)), Unknown(s)]);
      assert Evaluate(Unknown(s)).None?;
      UnknownNotZero(Unknown(s));
      ProductOfTwo(Max(Errors(inputs)), Unknown(s));
    }
  }

  // ----------------------------------------------------- the counted sum

  lemma {:induction false} SumSeqAppend(a: seq<real>, b: seq<real>)
    ensures SumSeq(a + b) == SumSeq(a) + SumSeq(b)
  {
    if b == [] {
      assert a + b == a;
    } else {
      SumSeqAppend(a, b[..|b| - 1]);
      assert (a + b)[..|a + b| - 1] == a + b[..|b| - 1];
    }
  }

  lemma {:induction false} RowSumWithin(terms: seq<BoundExpr>, xs: seq<real>, ys: seq<real>)
    requires EvaluateSum(terms).Some? && |xs| == |ys| == |terms|
    requires forall i :: 0 <= i < |terms| ==>
      BoundOf(terms[i]).Some? && Distance(ys[i], xs[i]) <= BoundOf(terms[i]).value
    ensures Distance(SumSeq(ys), SumSeq(xs)) <= EvaluateSum(terms).value
  {
    hide Evaluate, BoundOf, SumSeq;
    if terms == [] {
      NoTerms(xs, ys);
    } else {
      RowSumWithin(terms[1..], xs[1..], ys[1..]);
      KnownBound(terms[0]);
      assert [xs[0]] + xs[1..] == xs && [ys[0]] + ys[1..] == ys;
      SumSeqAppend([xs[0]], xs[1..]);
      SumSeqAppend([ys[0]], ys[1..]);
      OnlyAddend(xs[0]);
      OnlyAddend(ys[0]);
      DistancesAdd(xs[0], ys[0], SumSeq(xs[1..]), SumSeq(ys[1..]));
    }
  }

  lemma NoTerms(xs: seq<real>, ys: seq<real>)
    requires xs == [] && ys == []
    ensures Distance(SumSeq(ys), SumSeq(xs)) <= 0.0
  {
  }

  lemma OnlyAddend(x: real)
    ensures SumSeq([x]) == x
  {
    assert [x][..0] == [];
  }

  lemma {:induction false} FlatSumWithin(xs: seq<seq<real>>, ys: seq<seq<real>>, e: real)
    requires |xs| == |ys|
    requires forall j :: 0 <= j < |xs| ==> Distance(SumSeq(ys[j]), SumSeq(xs[j])) <= e
    ensures Distance(SumSeq(Flat(ys)), SumSeq(Flat(xs))) <= |xs| as real * e
  {
    hide SumSeq, Distance;
    if xs == [] {
      NoTerms(Flat(xs), Flat(ys));
    } else {
      var n := |xs| - 1;
      FlatSumWithin(xs[..n], ys[..n], e);
      SumSeqAppend(Flat(xs[..n]), xs[n]);
      SumSeqAppend(Flat(ys[..n]), ys[n]);
      DistancesAdd(SumSeq(Flat(xs[..n])), SumSeq(Flat(ys[..n])), SumSeq(xs[n]), SumSeq(ys[n]));
      assert |xs| as real == n as real + 1.0;
      var d0, d1 := Distance(SumSeq(Flat(ys[..n])), SumSeq(Flat(xs[..n]))), Distance(SumSeq(ys[n]), SumSeq(xs[n]));
      hide *;
      OneMoreWithin(n as real, e, d0, d1);
    }
  }

  lemma {:induction false} AbsoluteBoundAt(inputs: seq<Guarantee>, i: nat)
    requires AbsoluteBounds(inputs).Some? && i < |inputs|
    ensures |AbsoluteBounds(inputs).value| == |inputs|
    ensures AbsoluteBound(inputs[i]) == Some(AbsoluteBounds(inputs).value[i])
  {
    hide AbsoluteBound;
    var n := |inputs| - 1;
    if i < n {
      AbsoluteBoundAt(inputs[..n], i);
    } else if n > 0 {
      AbsoluteBoundAt(inputs[..n], 0);
    }
  }

  /** A bound restated in value units claims no more than the bound itself. */
  lemma TermClose(input: Guarantee, t: BoundExpr, x: Value, x': Value)
    requires AbsoluteBound(input) == Some(t) && Accurate(input, x, x') && BoundOf(t).Some?
    ensures Close(Absolute, BoundOf(t), x, x')
  {
    if input.metric != Absolute {
      if IsZero(input.error) {
        assert x == x';
      } else {
        var statistic := t.factors[1].statistic;
        assert Evaluate(Unknown(statistic)).None?;
        UnknownNotZero(Unknown(statistic));
        ProductOfTwo(input.error, Unknown(statistic));
      }
    }
  }

  lemma CountedSumAccurate(fold: Fold, inputs: seq<Guarantee>, stats: Stats, g: Guarantee, xs: seq<seq<real>>,
                           ys: seq<seq<real>>)
    requires CountedSum(fold, inputs, stats, g) && CellsAccurate(inputs, xs, ys)
    requires stats.inputRowCount.Some? ==> |xs| <= stats.inputRowCount.value
    ensures Accurate(g, FoldValue(fold, Flat(xs)), FoldValue(fold, Flat(ys)))
  {
    var terms := CountedTerms(fold, inputs, stats, g);
    hide *;
    if BoundOf(g.error).None? {
      UnknownAccurate(g, FoldValue(fold, Flat(xs)), FoldValue(fold, Flat(ys)));
    } else if IsZero(Sum(terms)) {
      forall i | 0 <= i < |inputs| ensures BoundOf(inputs[i].error) == Some(0.0) { ZeroTermInput(inputs, terms, i); }
      EqualRows(inputs, fold, xs, ys, g);
    } else if |xs| == 0 {
      NoRows(fold, inputs, xs, ys);
      SameAccurate(g, FoldValue(fold, Flat(xs)));
    } else {
      CountedRowsAccurate(fold, inputs, stats, g, terms, xs, ys);
    }
  }

  lemma CountedTerms(fold: Fold, inputs: seq<Guarantee>, stats: Stats, g: Guarantee) returns (terms: seq<BoundExpr>)
    requires CountedSum(fold, inputs, stats, g)
    ensures fold.SumFold? && g.metric == Absolute && AbsoluteBounds(inputs) == Some(terms)
    ensures g.error == Product([CountOf(stats), Sum(terms)])
  {
    hide AbsoluteBounds;
    terms := AbsoluteBounds(inputs).value;
  }

  lemma CountedRowsAccurate(fold: Fold, inputs: seq<Guarantee>, stats: Stats, g: Guarantee, terms: seq<BoundExpr>,
                            xs: seq<seq<real>>, ys: seq<seq<real>>)
    requires fold.SumFold? && g.metric == Absolute && AbsoluteBounds(inputs) == Some(terms)
    requires g.error == Product([CountOf(stats), Sum(terms)]) && BoundOf(g.error).Some? && !IsZero(Sum(terms))
    requires stats.inputRowCount.Some? ==> 0 < |xs| <= stats.inputRowCount.value
    requires CellsAccurate(inputs, xs, ys)
    ensures Accurate(g, FoldValue(fold, Flat(xs)), FoldValue(fold, Flat(ys)))
  {
    hide *;
    CountedBound(inputs, stats, g, terms, |xs|);
    RowSums(inputs, terms, xs, ys);
    var e := EvaluateSum(terms).value;
    FlatSumWithin(xs, ys, e);
    FoldedSum(fold, inputs, xs, ys, g, e);
  }

  lemma {:induction false} ZeroTermInput(inputs: seq<Guarantee>, terms: seq<BoundExpr>, i: nat)
    requires AbsoluteBounds(inputs) == Some(terms) && IsZero(Sum(terms)) && i < |inputs|
    ensures BoundOf(inputs[i].error) == Some(0.0)
  {
    AbsoluteBoundAt(inputs, i);
    ZeroTerm(terms, i);
    if inputs[i].metric != Absolute && !IsZero(inputs[i].error) {
      var statistic := terms[i].factors[1].statistic;
      UnknownNotZero(Unknown(statistic));
      ProductOfTwo(inputs[i].error, Unknown(statistic));
    }
  }

  lemma NoRows(fold: Fold, inputs: seq<Guarantee>, xs: seq<seq<real>>, ys: seq<seq<real>>)
    requires CellsAccurate(inputs, xs, ys) && |xs| == 0
    ensures FoldValue(fold, Flat(xs)) == FoldValue(fold, Flat(ys))
  {
  }

  lemma CountedBound(inputs: seq<Guarantee>, stats: Stats, g: Guarantee, terms: seq<BoundExpr>, rows: nat)
    requires g.error == Product([CountOf(stats), Sum(terms)]) && BoundOf(g.error).Some? && !IsZero(Sum(terms))
    requires stats.inputRowCount.Some? ==> 0 < rows <= stats.inputRowCount.value
    ensures EvaluateSum(terms).Some?
    ensures rows as real * EvaluateSum(terms).value <= BoundOf(g.error).value
  {
    var count := CountOf(stats);
    CountIs(stats, rows);
    ProductOfTwo(count, Sum(terms));
    SumUnfolds(terms);
    if Evaluate(count).Some? { ZeroIsZero(count); }
    hide Evaluate, IsZero, EvaluateSum;
    assert !IsZero(count);
    KnownBound(g.error);
    SumNotNegative(terms);
    hide *;
    MoreRowsBound(rows as real, Evaluate(count).value, EvaluateSum(terms).value);
  }

  lemma SumNotNegative(terms: seq<BoundExpr>)
    ensures EvaluateSum(terms).Some? ==> EvaluateSum(terms).value >= 0.0
  {
  }

  lemma MoreRowsBound(n: real, count: real, e: real)
    requires n <= count && e >= 0.0
    ensures n * e <= TimesOf(count, e)
  {
    MoreRows(n, count, e);
  }

  lemma RowSums(inputs: seq<Guarantee>, terms: seq<BoundExpr>, xs: seq<seq<real>>, ys: seq<seq<real>>)
    requires AbsoluteBounds(inputs) == Some(terms) && EvaluateSum(terms).Some? && CellsAccurate(inputs, xs, ys)
    ensures |xs| == |ys|
    ensures forall j :: 0 <= j < |xs| ==> Distance(SumSeq(ys[j]), SumSeq(xs[j])) <= EvaluateSum(terms).value
  {
    hide AbsoluteBounds, EvaluateSum, Close, SumSeq, Distance, Evaluate, IsZero, BoundOf, AbsoluteBound;
    forall j | 0 <= j < |xs| ensures Distance(SumSeq(ys[j]), SumSeq(xs[j])) <= EvaluateSum(terms).value {
      if |inputs| > 0 { AbsoluteBoundAt(inputs, 0); } else { NoAbsoluteBounds(inputs); }
      forall i | 0 <= i < |inputs|
        ensures BoundOf(terms[i]).Some? && Distance(ys[j][i], xs[j][i]) <= BoundOf(terms[i]).value
      {
        AbsoluteBoundAt(inputs, i);
        TermOfSum(terms, i);
        KnownBound(terms[i]);
        KeptNonNegative(terms[i]);
        assert Accurate(inputs[i], Number(xs[j][i]), Number(ys[j][i]));
        TermClose(inputs[i], terms[i], Number(xs[j][i]), Number(ys[j][i]));
        Numbers(Absolute, BoundOf(terms[i]).value, Number(xs[j][i]), Number(ys[j][i]));
      }
      RowSumWithin(terms, xs[j], ys[j]);
    }
  }

  lemma NoAbsoluteBounds(inputs: seq<Guarantee>)
    requires inputs == []
    ensures AbsoluteBounds(inputs) == Some([])
  {
  }

  lemma FoldedSum(fold: Fold, inputs: seq<Guarantee>, xs: seq<seq<real>>, ys: seq<seq<real>>, g: Guarantee, e: real)
    requires fold.SumFold? && g.metric == Absolute && BoundOf(g.error).Some?
    requires CellsAccurate(inputs, xs, ys)
    requires Distance(SumSeq(Flat(ys)), SumSeq(Flat(xs))) <= |xs| as real * e <= BoundOf(g.error).value
    ensures Accurate(g, FoldValue(fold, Flat(xs)), FoldValue(fold, Flat(ys)))
  {
    FlatLength(xs, |inputs|);
    FlatLength(ys, |inputs|);
    KeptNonNegative(g.error);
    hide BoundOf, Distance, SumSeq, Close, Flat;
    if Flat(xs) == [] {
      SameAccurate(g, Undefined);
    } else {
      AbsoluteNumbers(BoundOf(g.error).value, SumSeq(Flat(xs)), SumSeq(Flat(ys)));
    }
  }

  lemma {:induction false} FlatLength(xs: seq<seq<real>>, width: nat)
    requires Shaped(xs, |xs|, width)
    ensures |Flat(xs)| == |xs| * width
  {
    if xs != [] { FlatLength(xs[..|xs| - 1], width); }
  }

  // -------------------------------------------------------- the theorem

  /**
   Soundness of the folds: when each value of each row keeps its input's
   guarantee on its own, their fold keeps the composed one.
   */
  lemma FoldHolds(rows: Rows, fold: Fold, inputs: seq<Guarantee>, stats: Stats, g: Guarantee)
    requires IsRows(rows, |inputs|) && CellsHold(rows, inputs)
    requires Propagate(OperatorOf(fold), inputs, None, stats) == Success(g)
    requires stats.inputRowCount.Some? ==> |rows.truth| <= stats.inputRowCount.value
    requires stats.valuesNonNegative == Some(true) ==> AllNonNegative(rows.truth)
    requires ExtremumAllows(fold, inputs)
    ensures Within(rows.space, FoldMisses(rows, fold, g), g.failure)
  {
    hide *;
    var events := UnionOfAll(AllEvents(rows, inputs));
    if AllExact(inputs) {
      AllExactWithin(rows, inputs, g);
    } else {
      FoldRule(fold, inputs, stats, g);
      CountIs(stats, |rows.truth|);
      AnyCellWithin(rows, inputs, CountOf(stats));
    }
    forall w | w in FoldMisses(rows, fold, g) ensures w in events { MissedSomewhere(rows, fold, inputs, stats, g, w); }
    SmallerEvent(rows, inputs, FoldMisses(rows, fold, g), events, g.failure);
  }

  lemma SmallerEvent(rows: Rows, inputs: seq<Guarantee>, small: set<nat>, large: set<nat>, p: ProbabilityExpr)
    requires IsRows(rows, |inputs|) && Within(rows.space, large, p) && forall w :: w in small ==> w in large
    ensures Within(rows.space, small, p)
  {
    WithinSmaller(rows.space, small, large, p);
  }

  lemma AllExactWithin(rows: Rows, inputs: seq<Guarantee>, g: Guarantee)
    requires IsRows(rows, |inputs|) && CellsHold(rows, inputs) && AllExact(inputs)
    ensures Within(rows.space, UnionOfAll(AllEvents(rows, inputs)), g.failure)
  {
    hide IsSpace, Weight, UnionOfAll, CellMisses, Within, FailureBound;
    var count := Constant(|rows.truth| as real);
    AnyCellWithin(rows, inputs, count);
    NeverFailsAll(inputs);
    NeverClaim(count, UnionBound(Failures(inputs)));
    ZeroClaim(rows.space, UnionOfAll(AllEvents(rows, inputs)), ScaledProbability(count, UnionBound(Failures(inputs))), g.failure);
  }

  lemma {:induction false} NeverFailsAll(inputs: seq<Guarantee>)
    requires AllExact(inputs)
    ensures NoneFails(Failures(inputs))
  {
    if inputs != [] {
      NeverFailsAll(inputs[1..]);
      assert Failures(inputs)[1..] == Failures(inputs[1..]);
    }
  }

  lemma NeverClaim(count: BoundExpr, p: ProbabilityExpr)
    requires NeverFails(p)
    ensures FailureBound(ScaledProbability(count, p)) == Some(0.0)
  {
  }

  lemma ZeroClaim(space: Space, event: set<nat>, p: ProbabilityExpr, q: ProbabilityExpr)
    requires FailureBound(p) == Some(0.0) && Within(space, event, p)
    ensures Within(space, event, q)
  {
    NonNegativeFailure(q);
  }

  lemma MissedSomewhere(rows: Rows, fold: Fold, inputs: seq<Guarantee>, stats: Stats, g: Guarantee, w: nat)
    requires IsRows(rows, |inputs|) && w in FoldMisses(rows, fold, g)
    requires Propagate(OperatorOf(fold), inputs, None, stats) == Success(g)
    requires stats.inputRowCount.Some? ==> |rows.truth| <= stats.inputRowCount.value
    requires stats.valuesNonNegative == Some(true) ==> AllNonNegative(rows.truth)
    requires ExtremumAllows(fold, inputs)
    ensures w in UnionOfAll(AllEvents(rows, inputs))
  {
    assert w in rows.space.outcomes;
    var xs, ys := rows.truth, rows.estimate(w);
    assert !Accurate(g, FoldValue(fold, Flat(xs)), FoldValue(fold, Flat(ys)));
    hide *;
    if w !in UnionOfAll(AllEvents(rows, inputs)) {
      OutsideAll(rows, inputs, w);
      FoldAccurate(fold, inputs, stats, g, xs, ys);
    }
  }

  lemma FoldAccurate(fold: Fold, inputs: seq<Guarantee>, stats: Stats, g: Guarantee, xs: seq<seq<real>>,
                     ys: seq<seq<real>>)
    requires CellsAccurate(inputs, xs, ys)
    requires Propagate(OperatorOf(fold), inputs, None, stats) == Success(g)
    requires stats.inputRowCount.Some? ==> |xs| <= stats.inputRowCount.value
    requires stats.valuesNonNegative == Some(true) ==> AllNonNegative(xs)
    requires ExtremumAllows(fold, inputs)
    ensures Accurate(g, FoldValue(fold, Flat(xs)), FoldValue(fold, Flat(ys)))
  {
    hide *;
    if AllExact(inputs) {
      ExactInputs(inputs);
      EqualRows(inputs, fold, xs, ys, g);
    } else {
      FoldRule(fold, inputs, stats, g);
      if LargestBound(fold, inputs, stats, g) {
        LargestAccurate(fold, inputs, stats, g, xs, ys);
      } else if SignUnknown(inputs, g) {
        SignUnknownAccurate(fold, inputs, g, xs, ys);
      } else {
        CountedSumAccurate(fold, inputs, stats, g, xs, ys);
      }
    }
  }

  lemma ExactInputs(inputs: seq<Guarantee>)
    requires AllExact(inputs)
    ensures forall i :: 0 <= i < |inputs| ==> BoundOf(inputs[i].error) == Some(0.0)
  {
  }

  /** Each estimate keeps the guarantee of its value. */
  ghost predicate EachAccurate(g: Guarantee, xs: seq<real>, ys: seq<real>) {
    |xs| == |ys| && forall i :: 0 <= i < |xs| ==> Accurate(g, Number(xs[i]), Number(ys[i]))
  }

  /** The maximum of estimates under `g` keeps the composed guarantee, for all values. */
  ghost predicate MaximumKeeps(g: Guarantee, composed: Guarantee) {
    forall xs: seq<real>, ys: seq<real> :: EachAccurate(g, xs, ys) ==>
      Accurate(composed, FoldValue(MaxFold, xs), FoldValue(MaxFold, ys))
  }

  lemma MaximumRule(g: Guarantee, stats: Stats, composed: Guarantee)
    requires g.metric == Relative && !g.IsExact()
    requires Propagate(ExactExtremum, [g], None, stats) == Success(composed)
    ensures composed.metric == Relative && BoundOf(composed.error) == BoundOf(g.error)
  {
    assert [g][0] == g && [g][1..] == [];
    assert !AllExact([g]) && AllRelative([g]);
    assert Errors([g]) == [g.error];
    hide ComposedProvenance, Failures;
    assert composed.error == Max([g.error]);
    assert AllZero([g.error]) <==> IsZero(g.error);
    assert EvaluateMax([g.error]) == Evaluate(g.error);
  }

  /** The guarantee composed for a maximum of relative estimates holds of all values exactly when their bound is at most one. */
  lemma ExtremumSoundIffAtMostOne(g: Guarantee, stats: Stats, composed: Guarantee, a: real)
    requires g.metric == Relative && !g.IsExact() && BoundOf(g.error) == Some(a)
    requires Propagate(ExactExtremum, [g], None, stats) == Success(composed)
    ensures MaximumKeeps(g, composed) <==> a <= 1.0
  {
    MaximumRule(g, stats, composed);
    KeptNonNegative(g.error);
    hide Propagate, BoundOf, Close, FoldValue;
    if a <= 1.0 {
      forall xs: seq<real>, ys: seq<real> | EachAccurate(g, xs, ys)
        ensures Accurate(composed, FoldValue(MaxFold, xs), FoldValue(MaxFold, ys))
      {
        UniformFold(MaxFold, Relative, a, xs, ys);
      }
    } else {
      BeyondZero(a);
      assert EachAccurate(g, [-1.0, 0.0], [a - 1.0, 0.0]);
    }
  }

  /** Of the true values -1 and 0 the maximum is 0; the first's estimate may lie beyond it. */
  lemma BeyondZero(a: real)
    requires a > 1.0
    ensures Close(Relative, Some(a), Number(-1.0), Number(a - 1.0)) && Close(Relative, Some(a), Number(0.0), Number(0.0))
    ensures !Close(Relative, Some(a), FoldValue(MaxFold, [-1.0, 0.0]), FoldValue(MaxFold, [a - 1.0, 0.0]))
  {
    assert Magnitude(-1.0) == 1.0 && Magnitude(0.0) == 0.0 && a * 0.0 == 0.0;
    assert [-1.0, 0.0][..1] == [-1.0] && [a - 1.0, 0.0][..1] == [a - 1.0];
    assert Extreme(true, [-1.0, 0.0]) == 0.0 && Extreme(true, [a - 1.0, 0.0]) == a - 1.0;
  }
}
