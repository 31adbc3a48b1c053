/**
 The registered compositions give no more than they must: a fold's and a
 sketch's composed bounds are the least sound ones
 (crates/accuracy/src/composition.rs:78-420).
 */
module FoldTightness {
  import opened AlgebraTightness
  import Bitmask
  import opened Composition
  import opened FiniteSums
  import opened FoldSoundness
  import opened Guarantees
  import opened LipschitzRules
  import opened RealBounds
  import opened Results
  import opened ScalarExprs
  import opened ScalarRules

  // --------------------------------------------------- rows at the bound

  /** A row with `v` at `k` and `other` elsewhere. */
  function RowWith(width: nat, k: nat, other: real, v: real): (row: seq<real>)
    ensures |row| == width
    ensures forall i :: 0 <= i < width ==> row[i] == if i == k then v else other
  {
    seq(width, i => if i == k then v else other)
  }

  function Repeated(row: seq<real>, n: nat): (rows: seq<seq<real>>)
    ensures |rows| == n && forall j :: 0 <= j < n ==> rows[j] == row
  {
    seq(n, j => row)
  }

  lemma RepeatedGrows(row: seq<real>, n: nat)
    requires n > 0
    ensures Flat(Repeated(row, n)) == Flat(Repeated(row, n - 1)) + row
  {
    assert Repeated(row, n)[..n - 1] == Repeated(row, n - 1) && Repeated(row, n)[n - 1] == row;
  }

  lemma {:induction false} RepeatedSum(row: seq<real>, n: nat)
    ensures SumSeq(Flat(Repeated(row, n))) == TimesOf(n as real, SumSeq(row))
  {
    if n > 0 {
      RepeatedSum(row, n - 1);
      RepeatedGrows(row, n);
      SumSeqAppend(Flat(Repeated(row, n - 1)), row);
      hide SumSeq, Flat, TimesOf;
      assert n as real == (n - 1) as real + 1.0;
      OneMoreRow((n - 1) as real, SumSeq(row));
    } else {
      NoRowsAdd(SumSeq(row));
    }
  }

  lemma NoRowsAdd(s: real)
    ensures TimesOf(0.0, s) == 0.0
  {
  }

  lemma {:induction false} RepeatedValues(row: seq<real>, n: nat)
    ensures forall i :: 0 <= i < |Flat(Repeated(row, n))| ==> Flat(Repeated(row, n))[i] in row
    ensures n > 0 ==> forall v :: v in row ==> v in Flat(Repeated(row, n))
  {
    if n > 0 {
      RepeatedValues(row, n - 1);
      RepeatedGrows(row, n);
      hide Flat;
    }
  }

  lemma OneMoreRow(n: real, s: real)
    ensures TimesOf(n, s) + s == TimesOf(n + 1.0, s)
  {
  }

  lemma {:induction false} SumOfRow(width: nat, k: nat, v: real)
    ensures SumSeq(RowWith(width, k, 0.0, v)) == if k < width then v else 0.0
  {
    if width > 0 {
      var row := RowWith(width, k, 0.0, v);
      assert row[..width - 1] == RowWith(width - 1, k, 0.0, v);
      SumOfRow(width - 1, k, v);
    }
  }

  lemma {:induction false} ExtremeIs(largest: bool, xs: seq<real>, v: real)
    requires v in xs && forall i :: 0 <= i < |xs| ==> if largest then xs[i] <= v else xs[i] >= v
    ensures Extreme(largest, xs) == v
  {
    var n := |xs| - 1;
    if n > 0 {
      ExtremeAmong(largest, xs);
      if v in xs[..n] {
        ExtremeIs(largest, xs[..n], v);
      } else {
        ExtremeAmong(largest, xs[..n]);
      }
    }
  }

  lemma {:induction false} ExtremeAmong(largest: bool, xs: seq<real>)
    requires xs != []
    ensures Extreme(largest, xs) in xs
  {
    if |xs| > 1 {
      ExtremeAmong(largest, xs[..|xs| - 1]);
    }
  }

  /** The value the others do not outweigh. */
  function OtherValue(fold: Fold, top: real): real {
    if fold.MinFold? then top else 0.0
  }

  /** An equal part of a value. */
  function PartOf(x: real, cells: nat): real {
    if cells == 0 then 0.0 else x / cells as real
  }

  function Cells(rows: nat, width: nat): nat {
    rows * width
  }

  /** What the fold makes of equal rows with `v` at `k`. */
  lemma FoldOfRows(fold: Fold, width: nat, k: nat, n: nat, v: real, top: real)
    requires k < width && n > 0 && 0.0 <= v <= top
    ensures FoldValue(fold, Flat(Repeated(RowWith(width, k, OtherValue(fold, top), v), n)))
         == match fold
            case SumFold => Number(TimesOf(n as real, v))
            case MeanFold => Number(PartOf(TimesOf(n as real, v), Cells(n, width)))
            case _ => Number(v)
  {
    var row := RowWith(width, k, OtherValue(fold, top), v);
    var rows := Repeated(row, n);
    FlatLength(rows, width);
    Counted(n, width);
    hide SumSeq, Flat, Extreme, RowWith, Repeated, TimesOf;
    match fold {
      case SumFold =>
        SumOfRow(width, k, v);
        RepeatedSum(row, n);
      case MeanFold =>
        SumOfRow(width, k, v);
        RepeatedSum(row, n);
      case MaxFold => ExtremeOfRows(true, row, n, k, v);
      case MinFold => ExtremeOfRows(false, row, n, k, v);
    }
  }

  lemma ExtremeOfRows(largest: bool, row: seq<real>, n: nat, k: nat, v: real)
    requires k < |row| && row[k] == v && n > 0
    requires forall i :: 0 <= i < |row| ==> if largest then row[i] <= v else row[i] >= v
    ensures Flat(Repeated(row, n)) != [] && Extreme(largest, Flat(Repeated(row, n))) == v
  {
    RepeatedValues(row, n);
    hide Flat, Extreme;
    assert v in row;
    ExtremeIs(largest, Flat(Repeated(row, n)), v);
  }

  lemma Counted(n: nat, width: nat)
    requires n > 0 && width > 0
    ensures n * width > 0 && Cells(n, width) == n * width
  {
  }

  /** The rows of a fold whose input `k` holds `v`. */
  function RowsWith(fold: Fold, width: nat, k: nat, n: nat, v: real, top: real): seq<seq<real>> {
    Repeated(RowWith(width, k, OtherValue(fold, top), v), n)
  }

  function BaseValue(metric: Metric): real {
    if metric == Absolute then 0.0 else 1.0
  }

  /** Moving that one value by its bound moves the fold by it. */
  lemma FoldOff(fold: Fold, metric: Metric, width: nat, k: nat, n: nat, b: real)
    requires k < width && n > 0 && b >= 0.0
    requires metric == Relative || (metric == Absolute && !fold.SumFold? && (fold.MeanFold? ==> width == 1))
    ensures var v := BaseValue(metric);
      AtBound(metric, b, FoldValue(fold, Flat(RowsWith(fold, width, k, n, v, v + b))),
              FoldValue(fold, Flat(RowsWith(fold, width, k, n, v + b, v + b))))
  {
    var v := BaseValue(metric);
    FoldOfRows(fold, width, k, n, v, v + b);
    FoldOfRows(fold, width, k, n, v + b, v + b);
    Counted(n, width);
    hide FoldValue, Flat, Repeated, RowWith, TimesOf, PartOf, Cells, AtBound;
    if fold.SumFold? {
      SumsOff(n as real, b);
    } else if fold.MeanFold? {
      if metric == Relative { MeansOff(n as real, Cells(n, width), b); } else { MeanOff(n, b); }
    } else {
      OwnAtBoundFrom(metric, v, b);
    }
  }

  lemma OwnAtBoundFrom(metric: Metric, v: real, b: real)
    requires (metric == Absolute || metric == Relative) && v == BaseValue(metric) && b >= 0.0
    ensures AtBound(metric, b, Number(v), Number(v + b))
  {
    OffByDistance(v, b);
    OffByFactor(b);
  }

  lemma SumsOff(n: real, b: real)
    requires n > 0.0 && b >= 0.0
    ensures AtBound(Relative, b, Number(TimesOf(n, 1.0)), Number(TimesOf(n, 1.0 + b)))
  {
    assert n * (1.0 + b) == n + b * n;
    ShareIsOwn(b, n);
  }

  lemma MeanOff(n: nat, b: real)
    requires n > 0 && b >= 0.0
    ensures Cells(n, 1) == n
    ensures AtBound(Absolute, b, Number(PartOf(TimesOf(n as real, 0.0), n)), Number(PartOf(TimesOf(n as real, 0.0 + b), n)))
  {
    NoRowsAdd(n as real);
    assert n as real * (0.0 + b) / n as real == b by { WholeOf(n as real, b); }
    assert n as real * 0.0 == 0.0;
  }

  lemma WholeOf(n: real, b: real)
    requires n > 0.0
    ensures n * (0.0 + b) / n == b
  {
    SameFactor(n * b / n, b, n);
  }

  lemma MeansOff(n: real, cells: nat, b: real)
    requires n > 0.0 && cells > 0 && b >= 0.0
    ensures AtBound(Relative, b, Number(PartOf(TimesOf(n, 1.0), cells)), Number(PartOf(TimesOf(n, 1.0 + b), cells)))
  {
    var t, e := PartOf(TimesOf(n, 1.0), cells), PartOf(TimesOf(n, 1.0 + b), cells);
    PartsOff(n, cells as real, b, t, e);
    hide TimesOf, PartOf;
    ShareIsOwn(b, t);
  }

  lemma PartsOff(n: real, cells: real, b: real, t: real, e: real)
    requires n > 0.0 && cells > 0.0 && t == n * 1.0 / cells && e == n * (1.0 + b) / cells
    ensures t > 0.0 && e == t + b * t
  {
    assert t * cells == n && e * cells == n * (1.0 + b);
    Commute(t, b, cells);
    SumShared(n, b, t, cells);
    SameFactor(e, t + b * t, cells);
    PositiveShare(n, cells);
  }

  lemma SumShared(n: real, b: real, t: real, cells: real)
    requires t * cells == n
    ensures (t + b * t) * cells == n * (1.0 + b)
  {
    assert (t + b * t) * cells == t * cells + b * (t * cells);
  }

  lemma PositiveShare(n: real, cells: real)
    requires n > 0.0 && cells > 0.0
    ensures n * 1.0 / cells > 0.0
  {
  }

  lemma ShareIsOwn(b: real, t: real)
    requires b >= 0.0 && t > 0.0
    ensures Distance(t + b * t, t) == b * Magnitude(t)
  {
    ProductAtLeast(b, t);
  }

  /** The moved value is within its input's bound, and the others are exact. */
  lemma CellsOff(fold: Fold, inputs: seq<Guarantee>, k: nat, metric: Metric, b: real, n: nat)
    requires k < |inputs| && inputs[k].metric == metric && BoundOf(inputs[k].error) == Some(b)
    requires metric == Absolute || metric == Relative
    ensures var v := BaseValue(metric);
      CellsAccurate(inputs, RowsWith(fold, |inputs|, k, n, v, v + b), RowsWith(fold, |inputs|, k, n, v + b, v + b))
  {
    hide BoundOf, Accurate;
    var v := BaseValue(metric);
    KeptNonNegative(inputs[k].error);
    OffByFactor(b);
    OffBy(inputs[k], metric, b, v, b);
    var xs, ys := RowsWith(fold, |inputs|, k, n, v, v + b), RowsWith(fold, |inputs|, k, n, v + b, v + b);
    forall j: nat, i: nat | j < |xs| && i < |inputs| ensures Accurate(inputs[i], Number(xs[j][i]), Number(ys[j][i])) {
      if i != k { SameAccurate(inputs[i], Number(xs[j][i])); }
    }
  }

  // ------------------------------------------------ the counted sum

  /** The largest error of each value of a row at once. */
  ghost function Bounds(terms: seq<BoundExpr>): (row: seq<real>)
    requires EvaluateSum(terms).Some?
    ensures |row| == |terms| && forall i :: 0 <= i < |terms| ==> Evaluate(terms[i]) == Some(row[i])
  {
    if terms == [] then [] else [Evaluate(terms[0]).value] + Bounds(terms[1..])
  }

  lemma {:induction false} BoundsAdd(terms: seq<BoundExpr>)
    requires EvaluateSum(terms).Some?
    ensures SumSeq(Bounds(terms)) == EvaluateSum(terms).value
  {
    if terms != [] {
      BoundsAdd(terms[1..]);
      var first, rest := Evaluate(terms[0]).value, Bounds(terms[1..]);
      SumSeqAppend([first], rest);
      OnlyAddend(first);
      hide SumSeq, Evaluate;
      assert Bounds(terms) == [first] + rest;
    }
  }

  function Zeros(width: nat): (row: seq<real>)
    ensures |row| == width && forall i :: 0 <= i < width ==> row[i] == 0.0
  {
    seq(width, i => 0.0)
  }

  lemma {:induction false} ZerosAdd(width: nat)
    ensures SumSeq(Zeros(width)) == 0.0
  {
    if width > 0 {
      assert Zeros(width)[..width - 1] == Zeros(width - 1);
      ZerosAdd(width - 1);
    }
  }

  lemma KnownTerm(input: Guarantee, term: BoundExpr, b: real)
    requires AbsoluteBound(input) == Some(term) && Evaluate(term) == Some(b)
    ensures Accurate(input, Number(0.0), Number(b))
  {
    KnownBound(term);
    if input.metric == Absolute {
      AbsoluteNumbers(b, 0.0, b);
    } else if !IsZero(input.error) {
      var statistic := term.factors[1].statistic;
      ProductOfTwo(input.error, Unknown(statistic));
    }
  }

  lemma SumCells(inputs: seq<Guarantee>, terms: seq<BoundExpr>, n: nat)
    requires AbsoluteBounds(inputs) == Some(terms) && EvaluateSum(terms).Some?
    ensures |terms| == |inputs|
    ensures CellsAccurate(inputs, Repeated(Zeros(|inputs|), n), Repeated(Bounds(terms), n))
  {
    hide AbsoluteBounds, AbsoluteBound, Accurate, Evaluate;
    if |inputs| > 0 { AbsoluteBoundAt(inputs, 0); } else { NoAbsoluteBounds(inputs); }
    var row := Bounds(terms);
    forall i | 0 <= i < |inputs| ensures Accurate(inputs[i], Number(0.0), Number(row[i])) {
      AbsoluteBoundAt(inputs, i);
      KnownTerm(inputs[i], terms[i], row[i]);
    }
  }

  lemma SumOff(inputs: seq<Guarantee>, terms: seq<BoundExpr>, n: nat)
    requires |terms| == |inputs| > 0 && n > 0 && EvaluateSum(terms).Some?
    ensures AtBound(Absolute, TimesOf(n as real, EvaluateSum(terms).value), FoldValue(SumFold, Flat(Repeated(Zeros(|inputs|), n))),
                    FoldValue(SumFold, Flat(Repeated(Bounds(terms), n))))
  {
    var none, row := Zeros(|inputs|), Bounds(terms);
    ZerosAdd(|inputs|);
    BoundsAdd(terms);
    RepeatedSum(none, n);
    RepeatedSum(row, n);
    FlatLength(Repeated(none, n), |inputs|);
    FlatLength(Repeated(row, n), |inputs|);
    Counted(n, |inputs|);
    SumNotNegative(terms);
    hide SumSeq, Flat, Repeated, Bounds, Zeros, EvaluateSum, TimesOf, AtBound;
    SumAtBound(n as real, EvaluateSum(terms).value);
  }

  lemma SumAtBound(n: real, s: real)
    requires n > 0.0 && s >= 0.0
    ensures AtBound(Absolute, TimesOf(n, s), Number(TimesOf(n, 0.0)), Number(TimesOf(n, s)))
  {
    ProductAtLeast(n, s);
  }

  // ------------------------------------------------------- least bounds

  /** Whatever rows the inputs' guarantees allow, the fold is within `c`. */
  ghost predicate FoldWithin(fold: Fold, inputs: seq<Guarantee>, stats: Stats, rows: nat, metric: Metric, c: real) {
    forall xs, ys :: |xs| == rows && CellsAccurate(inputs, xs, ys) && (stats.valuesNonNegative == Some(true) ==> AllNonNegative(xs)) ==>
      Close(metric, Some(c), FoldValue(fold, Flat(xs)), FoldValue(fold, Flat(ys)))
  }

  /** Some rows are off by the whole composed bound. */
  lemma FoldReaches(fold: Fold, inputs: seq<Guarantee>, stats: Stats, g: Guarantee, rows: nat) returns (xs: seq<seq<real>>, ys: seq<seq<real>>)
    requires Propagate(OperatorOf(fold), inputs, None, stats) == Success(g) && !AllExact(inputs)
    requires stats.inputRowCount == Some(rows) && rows > 0
    requires fold.MeanFold? && g.metric == Absolute ==> |inputs| == 1
    requires Evaluate(g.error).Some? && Evaluate(g.error).value > 0.0
    ensures |xs| == rows && CellsAccurate(inputs, xs, ys) && AllNonNegative(xs)
    ensures AtBound(g.metric, Evaluate(g.error).value, FoldValue(fold, Flat(xs)), FoldValue(fold, Flat(ys)))
  {
    hide *;
    FoldRule(fold, inputs, stats, g);
    SomeInput(inputs);
    if LargestBound(fold, inputs, stats, g) {
      xs, ys := LargestReaches(fold, inputs, stats, g, rows);
    } else if CountedSum(fold, inputs, stats, g) {
      xs, ys := SumReachesBound(fold, inputs, stats, g, rows);
    } else {
      SignIsUnknown(inputs, g);
    }
  }

  lemma SomeInput(inputs: seq<Guarantee>)
    requires !AllExact(inputs)
    ensures |inputs| > 0
  {
  }

  lemma SignIsUnknown(inputs: seq<Guarantee>, g: Guarantee)
    requires SignUnknown(inputs, g)
    ensures Evaluate(g.error).None?
  {
    hide Errors;
    if !g.error.Unknown? {
      var s :| g.error == Product([Max(Errors(inputs)), Unknown(s)]);
      ProductOfTwo(Max(Errors(inputs)), Unknown(s));
      assert Evaluate(Unknown(s)).None?;
    }
  }

  lemma LargestInput(fold: Fold, inputs: seq<Guarantee>, stats: Stats, g: Guarantee) returns (k: nat)
    requires LargestBound(fold, inputs, stats, g) && Evaluate(g.error).Some? && Evaluate(g.error).value > 0.0
    ensures k < |inputs| && inputs[k].metric == g.metric && BoundOf(inputs[k].error) == Evaluate(g.error)
    ensures g.metric == Relative || (g.metric == Absolute && !fold.SumFold?)
  {
    hide Evaluate, Errors;
    FoldSoundness.MaxUnfolds(Errors(inputs));
    k := LargestOf(Errors(inputs));
    KnownBound(inputs[k].error);
  }

  lemma LargestReaches(fold: Fold, inputs: seq<Guarantee>, stats: Stats, g: Guarantee, rows: nat)
    returns (xs: seq<seq<real>>, ys: seq<seq<real>>)
    requires LargestBound(fold, inputs, stats, g) && rows > 0
    requires fold.MeanFold? && g.metric == Absolute ==> |inputs| == 1
    requires Evaluate(g.error).Some? && Evaluate(g.error).value > 0.0
    ensures |xs| == rows && CellsAccurate(inputs, xs, ys) && AllNonNegative(xs)
    ensures AtBound(g.metric, Evaluate(g.error).value, FoldValue(fold, Flat(xs)), FoldValue(fold, Flat(ys)))
  {
    hide LargestBound, Evaluate, BoundOf, CellsAccurate, AtBound, FoldValue, Flat;
    var k := LargestInput(fold, inputs, stats, g);
    var b, v := Evaluate(g.error).value, BaseValue(g.metric);
    FoldOff(fold, g.metric, |inputs|, k, rows, b);
    CellsOff(fold, inputs, k, g.metric, b, rows);
    xs, ys := RowsWith(fold, |inputs|, k, rows, v, v + b), RowsWith(fold, |inputs|, k, rows, v + b, v + b);
  }

  lemma SumReachesBound(fold: Fold, inputs: seq<Guarantee>, stats: Stats, g: Guarantee, rows: nat)
    returns (xs: seq<seq<real>>, ys: seq<seq<real>>)
    requires CountedSum(fold, inputs, stats, g) && stats.inputRowCount == Some(rows) && rows > 0 && |inputs| > 0
    requires Evaluate(g.error).Some?
    ensures |xs| == rows && CellsAccurate(inputs, xs, ys) && AllNonNegative(xs)
    ensures AtBound(g.metric, Evaluate(g.error).value, FoldValue(fold, Flat(xs)), FoldValue(fold, Flat(ys)))
  {
    var terms := CountedTerms(fold, inputs, stats, g);
    CountedValue(stats, g, terms, rows);
    hide CountedSum, Evaluate, EvaluateSum, BoundOf, CellsAccurate, AtBound, FoldValue, Flat, AbsoluteBounds, Bounds, TimesOf;
    SumCells(inputs, terms, rows);
    SumOff(inputs, terms, rows);
    xs, ys := Repeated(Zeros(|inputs|), rows), Repeated(Bounds(terms), rows);
  }

  lemma CountedValue(stats: Stats, g: Guarantee, terms: seq<BoundExpr>, rows: nat)
    requires g.error == Product([CountOf(stats), Sum(terms)]) && stats.inputRowCount == Some(rows)
    ensures Evaluate(g.error).Some? == EvaluateSum(terms).Some?
    ensures Evaluate(g.error).Some? ==> Evaluate(g.error).value == TimesOf(rows as real, EvaluateSum(terms).value)
  {
    ProductOfTwo(CountOf(stats), Sum(terms));
    SumUnfolds(terms);
    ConstantKnown(rows as real);
    assert CountOf(stats) == Constant(rows as real);
    hide Evaluate, EvaluateSum, TimesOf;
  }

  /**
   A fold's composed bound is the least sound one: over so many rows it is
   within `c` exactly when the bound is.
   */
  lemma FoldLeast(fold: Fold, inputs: seq<Guarantee>, stats: Stats, g: Guarantee, rows: nat, c: real)
    requires Propagate(OperatorOf(fold), inputs, None, stats) == Success(g) && !AllExact(inputs)
    requires stats.inputRowCount == Some(rows) && rows > 0 && ExtremumAllows(fold, inputs)
    requires fold.MeanFold? && g.metric == Absolute ==> |inputs| == 1
    requires Evaluate(g.error).Some? && c >= 0.0
    ensures FoldWithin(fold, inputs, stats, rows, g.metric, c) == (Evaluate(g.error).value <= c)
  {
    hide *;
    KnownBound(g.error);
    KeptNonNegative(g.error);
    FoldMetric(fold, inputs, stats, g);
    if Evaluate(g.error).value <= c {
      forall xs, ys | |xs| == rows && CellsAccurate(inputs, xs, ys) && (stats.valuesNonNegative == Some(true) ==> AllNonNegative(xs))
        ensures Close(g.metric, Some(c), FoldValue(fold, Flat(xs)), FoldValue(fold, Flat(ys)))
      {
        FoldAccurate(fold, inputs, stats, g, xs, ys);
        AccurateWider(g, c, FoldValue(fold, Flat(xs)), FoldValue(fold, Flat(ys)));
      }
      AllFoldsWithin(fold, inputs, stats, rows, g.metric, c);
    } else {
      var xs, ys := FoldReaches(fold, inputs, stats, g, rows);
      BeyondSmaller(g.metric, Evaluate(g.error).value, c, FoldValue(fold, Flat(xs)), FoldValue(fold, Flat(ys)));
      FoldBeyond(fold, inputs, stats, rows, g.metric, c, xs, ys);
    }
  }

  /** The bound of a mean of absolute estimates, however many inputs: the largest of theirs. */
  lemma MeanIsLargest(inputs: seq<Guarantee>, stats: Stats, g: Guarantee, c: real)
    requires Propagate(ExactAverage, inputs, None, stats) == Success(g) && !AllExact(inputs) && g.metric == Absolute
    requires Evaluate(g.error).Some? && c >= 0.0
    ensures Evaluate(g.error).value <= c
       <==> forall i :: 0 <= i < |inputs| ==> Evaluate(inputs[i].error).Some? && Evaluate(inputs[i].error).value <= c
  {
    assert g.error == Max(Errors(inputs));
    FoldSoundness.MaxUnfolds(Errors(inputs));
    hide Evaluate, Propagate;
    LargestWithin(Errors(inputs), c);
  }

  lemma {:induction false} LargestWithin(bounds: seq<BoundExpr>, c: real)
    requires EvaluateMax(bounds).Some? && c >= 0.0
    ensures EvaluateMax(bounds).value <= c
       <==> forall i :: 0 <= i < |bounds| ==> Evaluate(bounds[i]).Some? && Evaluate(bounds[i]).value <= c
  {
    hide Evaluate;
    if bounds != [] {
      LargestWithin(bounds[1..], c);
      assert forall i :: 0 < i < |bounds| ==> bounds[i] == bounds[1..][i - 1];
    }
  }

  lemma AccurateWider(g: Guarantee, c: real, t: Value, e: Value)
    requires Accurate(g, t, e) && BoundOf(g.error).Some? && BoundOf(g.error).value <= c
    requires g.metric == Absolute || g.metric == Relative
    ensures Close(g.metric, Some(c), t, e)
  {
    KeptNonNegative(g.error);
    CloseWider(g.metric, BoundOf(g.error).value, c, t, e);
  }

  lemma AllFoldsWithin(fold: Fold, inputs: seq<Guarantee>, stats: Stats, rows: nat, metric: Metric, c: real)
    requires forall xs, ys :: |xs| == rows && CellsAccurate(inputs, xs, ys) && (stats.valuesNonNegative == Some(true) ==> AllNonNegative(xs)) ==>
      Close(metric, Some(c), FoldValue(fold, Flat(xs)), FoldValue(fold, Flat(ys)))
    ensures FoldWithin(fold, inputs, stats, rows, metric, c)
  {
    hide CellsAccurate, Close, FoldValue, Flat, AllNonNegative;
  }

  lemma FoldBeyond(fold: Fold, inputs: seq<Guarantee>, stats: Stats, rows: nat, metric: Metric, c: real, xs: seq<seq<real>>,
                   ys: seq<seq<real>>)
    requires |xs| == rows && CellsAccurate(inputs, xs, ys) && AllNonNegative(xs)
    requires !Close(metric, Some(c), FoldValue(fold, Flat(xs)), FoldValue(fold, Flat(ys)))
    ensures !FoldWithin(fold, inputs, stats, rows, metric, c)
  {
    hide CellsAccurate, Close, FoldValue, Flat, AllNonNegative;
  }

  lemma FoldMetric(fold: Fold, inputs: seq<Guarantee>, stats: Stats, g: Guarantee)
    requires Propagate(OperatorOf(fold), inputs, None, stats) == Success(g) && !AllExact(inputs)
    ensures g.metric == Absolute || g.metric == Relative
  {
    FoldRule(fold, inputs, stats, g);
  }

  // ---------------------------------------------- when a fold is given

  /** The inputs an exact fold has a rule for. */
  predicate FoldGiven(fold: Fold, inputs: seq<Guarantee>, stats: Stats) {
    if forall i :: 0 <= i < |inputs| ==> inputs[i].metric == Relative then !NeedsSign(fold) || stats.valuesNonNegative != Some(false)
    else if fold.SumFold? then forall i :: 0 <= i < |inputs| ==> inputs[i].metric != Rank
    else forall i :: 0 <= i < |inputs| ==> inputs[i].metric == Absolute
  }

  lemma FoldGivenIff(fold: Fold, inputs: seq<Guarantee>, stats: Stats)
    ensures Propagate(OperatorOf(fold), inputs, None, stats).Success? == (AllExact(inputs) || FoldGiven(fold, inputs, stats))
  {
    hide ComposedProvenance, Errors, Failures, UnknownFactors, AbsoluteBounds;
    if !AllExact(inputs) {
      assert inputs != [];
      BoundsGivenIff(inputs);
    }
  }

  lemma {:induction false} BoundsGivenIff(inputs: seq<Guarantee>)
    ensures AbsoluteBounds(inputs).Some? == forall i :: 0 <= i < |inputs| ==> inputs[i].metric != Rank
  {
    if inputs != [] {
      var rest, last := inputs[..|inputs| - 1], inputs[|inputs| - 1];
      BoundsGivenIff(rest);
      assert inputs == rest + [last];
      assert AbsoluteBound(last).None? == (last.metric == Rank);
    }
  }

  /** The failure of a fold: its inputs' added, once for each row. */
  lemma FoldFailure(fold: Fold, inputs: seq<Guarantee>, stats: Stats, g: Guarantee, rows: nat)
    requires Propagate(OperatorOf(fold), inputs, None, stats) == Success(g) && !AllExact(inputs)
    requires stats.inputRowCount == Some(rows) && ProbabilitySum(Failures(inputs)).Some?
    ensures Probability(g.failure)
         == Some(Clamp01(TimesOf(rows as real, Clamp01(ProbabilitySum(Failures(inputs)).value))))
  {
    FoldRule(fold, inputs, stats, g);
    UnionIs(Failures(inputs));
    ConstantKnown(rows as real);
    assert CountOf(stats) == Constant(rows as real);
    hide Propagate, ProbabilitySum, Evaluate;
  }

  // ------------------------------------------- a sketch over an estimate

  /** Whatever estimate the input's guarantee allows, and whatever the sketch makes of it, is within `c` of the true value. */
  ghost predicate LayersWithin(input: Guarantee, local: Guarantee, metric: Metric, c: real) {
    forall truth: real, estimate: real, answer: real ::
      Accurate(input, Number(truth), Number(estimate)) && Accurate(local, Number(estimate), Number(answer)) ==>
        Close(metric, Some(c), Number(truth), Number(answer))
  }

  /** The bound of one approximate input under a sketch's own. */
  lemma LayerBound(input: Guarantee, local: Guarantee, stats: Stats, g: Guarantee)
    requires !input.IsExact() && Propagate(ApproximateAggregate, [input], Some(local), stats) == Success(g)
    requires Evaluate(input.error).Some? && Evaluate(local.error).Some? && Evaluate(g.error).Some?
    ensures input.metric == local.metric == g.metric && (g.metric == Absolute || g.metric == Relative)
    ensures var a, b := Evaluate(input.error).value, Evaluate(local.error).value;
      Evaluate(g.error).value == if g.metric == Absolute then a + b else a + b + TimesOf(a, b)
  {
    var factors := [input.error, local.error];
    assert [input][0] == input && !AllExact([input]);
    assert Errors([input]) + [local.error] == factors by { assert [input][1..] == []; }
    if local.metric == Absolute {
      assert g.error == Sum(factors);
      SumOfTwo(input.error, local.error);
    } else {
      assert stats.valuesNonNegative.Some?;
      assert g.error == Sum(SubsetTerms(factors, Bitmask.Pow2(2)));
      hide Propagate;
      TwoLayers(input.error, local.error);
    }
  }

  lemma TwoLayers(a: BoundExpr, b: BoundExpr)
    requires Evaluate(a).Some? && Evaluate(b).Some?
    ensures Evaluate(Sum(SubsetTerms([a, b], Bitmask.Pow2(2))))
         == Some(Evaluate(a).value + Evaluate(b).value + TimesOf(Evaluate(a).value, Evaluate(b).value))
  {
    var factors := [a, b];
    hide *;
    KnownFactors(a, b);
    CrossTermsAreGrowth(factors);
    GrowthValue(a, b);
    GrowthOfTwo(Evaluate(a).value, Evaluate(b).value);
  }

  lemma KnownFactors(a: BoundExpr, b: BoundExpr)
    requires Evaluate(a).Some? && Evaluate(b).Some?
    ensures AllEvaluate([a, b]) && AllEvaluate([b]) && AllEvaluate([])
    ensures |[a, b]| == 2
  {
  }

  lemma GrowthValue(a: BoundExpr, b: BoundExpr)
    requires Evaluate(a).Some? && Evaluate(b).Some? && AllEvaluate([a, b])
    ensures Growth([a, b]) == TimesOf(1.0 + Evaluate(a).value, 1.0 + Evaluate(b).value)
  {
    hide Evaluate, TimesOf;
    var factors, one := [a, b], [b];
    assert factors[1..] == one && one[1..] == [];
    Unit(1.0 + Evaluate(b).value);
    assert Growth(one) == TimesOf(1.0 + Evaluate(b).value, Growth(one[1..]));
    assert Growth(factors) == TimesOf(1.0 + Evaluate(a).value, Growth(factors[1..]));
  }

  lemma GrowthOfTwo(a: real, b: real)
    ensures TimesOf(1.0 + a, 1.0 + b) - 1.0 == a + b + TimesOf(a, b)
  {
  }

  /** Two layers within their bounds are within the composed one. */
  lemma LayersClose(metric: Metric, a: real, b: real, truth: real, estimate: real, answer: real)
    requires a >= 0.0 && b >= 0.0 && (metric == Absolute || metric == Relative)
    requires Close(metric, Some(a), Number(truth), Number(estimate)) && Close(metric, Some(b), Number(estimate), Number(answer))
    ensures Close(metric, Some(if metric == Absolute then a + b else a + b + TimesOf(a, b)), Number(truth), Number(answer))
  {
    hide *;
    Numbers(metric, a, Number(truth), Number(estimate));
    Numbers(metric, b, Number(estimate), Number(answer));
    ProductUnfolded(a, b);
    ProductAtLeast(a, b);
    if metric == Absolute {
      SumOfSteps(truth, estimate, answer);
      AbsoluteNumbers(a + b, truth, answer);
    } else {
      ProductOfLayers(truth, estimate, answer, a, b);
      RelativeNumbers(a + b + TimesOf(a, b), truth, answer);
    }
  }

  lemma SumOfSteps(x: real, y: real, z: real)
    ensures Distance(z, x) <= Distance(y, x) + Distance(z, y)
  {
  }

  /** Both layers over by their whole bound. */
  lemma LayersReach(input: Guarantee, local: Guarantee, metric: Metric, a: real, b: real) returns (truth: real, estimate: real, answer: real)
    requires input.metric == local.metric == metric && (metric == Absolute || metric == Relative)
    requires BoundOf(input.error) == Some(a) && BoundOf(local.error) == Some(b)
    ensures Accurate(input, Number(truth), Number(estimate)) && Accurate(local, Number(estimate), Number(answer))
    ensures AtBound(metric, if metric == Absolute then a + b else a + b + TimesOf(a, b), Number(truth), Number(answer))
  {
    hide BoundOf, Accurate;
    KeptNonNegative(input.error);
    KeptNonNegative(local.error);
    truth := BaseValue(metric);
    estimate := truth + a;
    var d := if metric == Absolute then b else TimesOf(b, 1.0 + a);
    answer := estimate + d;
    LayersOff(a, b);
    OffBy(input, metric, a, truth, a);
    OffBy(local, metric, b, estimate, d);
  }

  lemma LayersOff(a: real, b: real)
    requires a >= 0.0 && b >= 0.0
    ensures Magnitude(a) == a && Magnitude(b) == b && Magnitude(1.0) == 1.0 && a * Magnitude(1.0) == a
    ensures Magnitude(TimesOf(b, 1.0 + a)) == b * Magnitude(1.0 + a)
    ensures Distance(1.0 + a + TimesOf(b, 1.0 + a), 1.0) == a + b + TimesOf(a, b) == (a + b + TimesOf(a, b)) * Magnitude(1.0)
    ensures Distance(0.0 + a + b, 0.0) == a + b
  {
    ProductAtLeast(a, b);
    ProductAtLeast(b, 1.0 + a);
    assert b * (1.0 + a) == b + a * b;
  }

  /** A sketch's composed bound over one estimate is the least sound one. */
  lemma LayersLeast(input: Guarantee, local: Guarantee, stats: Stats, g: Guarantee, c: real)
    requires !input.IsExact() && Propagate(ApproximateAggregate, [input], Some(local), stats) == Success(g)
    requires Evaluate(input.error).Some? && Evaluate(local.error).Some? && Evaluate(g.error).Some? && c >= 0.0
    ensures LayersWithin(input, local, g.metric, c) == (Evaluate(g.error).value <= c)
  {
    LayerBound(input, local, stats, g);
    KnownBound(input.error);
    KnownBound(local.error);
    hide *;
    var a, b := Evaluate(input.error).value, Evaluate(local.error).value;
    BoundsNotNegative(input.error, local.error);
    LeastLayers(input, local, g.metric, a, b, c);
  }

  lemma BoundsNotNegative(a: BoundExpr, b: BoundExpr)
    requires Evaluate(a).Some? && Evaluate(b).Some?
    ensures Evaluate(a).value >= 0.0 && Evaluate(b).value >= 0.0
  {
  }

  lemma LeastLayers(input: Guarantee, local: Guarantee, metric: Metric, a: real, b: real, c: real)
    requires input.metric == local.metric == metric && (metric == Absolute || metric == Relative)
    requires BoundOf(input.error) == Some(a) && BoundOf(local.error) == Some(b) && a >= 0.0 && b >= 0.0 && c >= 0.0
    ensures LayersWithin(input, local, metric, c) == ((if metric == Absolute then a + b else a + b + TimesOf(a, b)) <= c)
  {
    hide BoundOf, Close, TimesOf, AtBound;
    var bound := if metric == Absolute then a + b else a + b + TimesOf(a, b);
    if bound <= c {
      forall truth: real, estimate: real, answer: real |
        Accurate(input, Number(truth), Number(estimate)) && Accurate(local, Number(estimate), Number(answer))
        ensures Close(metric, Some(c), Number(truth), Number(answer))
      {
        LayersClose(metric, a, b, truth, estimate, answer);
        CloseWider(metric, bound, c, Number(truth), Number(answer));
      }
    } else {
      var truth, estimate, answer := LayersReach(input, local, metric, a, b);
      BeyondSmaller(metric, bound, c, Number(truth), Number(answer));
    }
  }

  /** A sketch over estimates has a guarantee exactly in one value metric with its inputs, and no known sign change. */
  lemma AggregateGivenIff(inputs: seq<Guarantee>, local: Guarantee, stats: Stats)
    ensures Propagate(ApproximateAggregate, inputs, Some(local), stats).Success? ==
      (AllExact(inputs)
       || (&& SameMetric(inputs, local.metric) && !EstimatesDistinctCount(local)
           && (local.metric == Absolute || (local.metric == Relative && stats.valuesNonNegative != Some(false)))))
  {
    hide ComposedProvenance, Errors, Failures, EstimatesDistinctCount, AllExact, SameMetric;
  }

  /** Over known bounds the composed one is known, but for a relative one over values of unknown sign. */
  lemma AggregateKnownIff(inputs: seq<Guarantee>, local: Guarantee, stats: Stats, g: Guarantee)
    requires !AllExact(inputs) && Propagate(ApproximateAggregate, inputs, Some(local), stats) == Success(g)
    requires Evaluate(local.error).Some? && forall i :: 0 <= i < |inputs| ==> Evaluate(inputs[i].error).Some?
    ensures Evaluate(g.error).Some? == (local.metric == Absolute || stats.valuesNonNegative == Some(true))
  {
    hide Evaluate, ComposedProvenance, Failures, EstimatesDistinctCount, AllExact, SameMetric;
    var factors := Errors(inputs) + [local.error];
    assert AllEvaluate(factors);
    if local.metric == Absolute {
      assert g.error == Sum(factors);
      AllTermsKnown(factors);
    } else {
      match stats.valuesNonNegative {
        case Some(known) =>
          assert stats.valuesNonNegative == Some(known);
          if known { CrossTermsAreGrowth(factors); }
        case None =>
          assert g.error == Unknown(VALUES_NON_NEGATIVE);
          NotKnown(VALUES_NON_NEGATIVE);
      }
    }
  }

  lemma NotKnown(statistic: string)
    ensures Evaluate(Unknown(statistic)).None?
  {
  }

  lemma {:induction false} AllTermsKnown(terms: seq<BoundExpr>)
    requires AllEvaluate(terms)
    ensures EvaluateSum(terms).Some? && Evaluate(Sum(terms)).Some?
  {
    hide Evaluate;
    if terms != [] { AllTermsKnown(terms[1..]); }
    SumUnfolds(terms);
  }

  /** The failure of a sketch over estimates: all of theirs and its own added. */
  lemma AggregateFailure(inputs: seq<Guarantee>, local: Guarantee, stats: Stats, g: Guarantee)
    requires !AllExact(inputs) && Propagate(ApproximateAggregate, inputs, Some(local), stats) == Success(g)
    requires Evaluate(g.error).Some? && ProbabilitySum(Failures(inputs) + [local.failure]).Some?
    ensures Probability(g.failure) == Some(Clamp01(ProbabilitySum(Failures(inputs) + [local.failure]).value))
  {
    UnionIs(Failures(inputs) + [local.failure]);
    NotKnown(VALUES_NON_NEGATIVE);
    hide Evaluate, ProbabilitySum, ComposedProvenance, Errors, EstimatesDistinctCount, AllExact, SameMetric, SubsetTerms;
  }

  // -------------------------------------------------- checked division

  /** The checked division is given for two known relative bounds with the divisor's below one. */
  lemma CheckedGivenIff(l: Guarantee, r: Guarantee)
    ensures Propagate(CheckedRelativeDivision, [l, r], None, NO_STATS).Success? ==
      (|| (l.IsExact() && r.IsExact())
       || (&& (l.IsExact() || l.metric == Relative) && (r.IsExact() || r.metric == Relative)
           && Evaluate(l.error).Some? && Evaluate(r.error).Some? && Evaluate(r.error).value < 1.0))
  {
    hide Evaluate, ComposedProvenance, IsZero, NeverFails;
    assert [l, r][0] == l && [l, r][1] == r;
    assert AllExact([l, r]) == (l.IsExact() && r.IsExact());
    assert SameMetric([l, r], Relative) == ((l.IsExact() || l.metric == Relative) && (r.IsExact() || r.metric == Relative));
    hide AllExact, SameMetric;
  }

  /** Its bound is the quotient's least one, and four units in the last place of one. */
  lemma CheckedSlack(l: Guarantee, r: Guarantee, g: Guarantee)
    requires Propagate(CheckedRelativeDivision, [l, r], None, NO_STATS) == Success(g) && !AllExact([l, r])
    ensures Evaluate(l.error).Some? && Evaluate(r.error).Some? && Evaluate(r.error).value < 1.0 && g.metric == Relative
    ensures var a, b := Evaluate(l.error).value, Evaluate(r.error).value;
      Evaluate(g.error) == Some((a + b) / (1.0 - b) + 4.0 / 4503599627370496.0)
  {
    hide Evaluate, ComposedProvenance, IsZero, NeverFails, AllExact, SameMetric;
    assert [l, r][0] == l && [l, r][1] == r;
    var a, b := Evaluate(l.error).value, Evaluate(r.error).value;
    BoundsNotNegative(l.error, r.error);
    NonNegativeQuotient(a + b, 1.0 - b);
    assert g.error == Constant((a + b) / (1.0 - b) + 4.0 * EPSILON);
    hide Propagate;
    ConstantKnown((a + b) / (1.0 - b) + 4.0 * EPSILON);
  }
}
