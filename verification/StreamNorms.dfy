/**
 What restating a stream-normalized bound over its summary's norm means once the
 statistics are known (crates/accuracy/src/composition.rs:526-614).
 */
module StreamNorms {
  import opened Composition
  import opened Guarantees
  import opened RealBounds
  import opened Results

  /** The statistics that are known, by name. */
  type Statistics = string -> Option<real>

  /** A bound's value when so much is known. */
  function ValueIn(b: BoundExpr, known: Statistics): Option<real>
    decreases b, 1
  {
    match b
    case Zero => Some(0.0)
    case Constant(value) => NonNegative(Some(value))
    case Sum(terms) => SumIn(terms, known)
    case Product(factors) => ProductIn(factors, known)
    case Scaled(factor, inner) =>
      var r := ValueIn(inner, known);
      if r.None? then None else NonNegative(Some(TimesOf(factor, r.value)))
    case Max(terms) => MaxIn(terms, known)
    case Unknown(statistic) => NonNegative(known(statistic))
  }

  function SumIn(terms: seq<BoundExpr>, known: Statistics): Option<real>
    decreases terms, 0
  {
    if terms == [] then Some(0.0)
    else
      var head, tail := ValueIn(terms[0], known), SumIn(terms[1..], known);
      if head.Some? && tail.Some? then Some(head.value + tail.value) else None
  }

  function ProductIn(factors: seq<BoundExpr>, known: Statistics): Option<real>
    decreases factors, 0
  {
    if factors == [] then Some(1.0)
    else
      var head, tail := ValueIn(factors[0], known), ProductIn(factors[1..], known);
      if head.Some? && tail.Some? then Some(TimesOf(head.value, tail.value)) else None
  }

  function MaxIn(terms: seq<BoundExpr>, known: Statistics): Option<real>
    decreases terms, 0
  {
    if terms == [] then Some(0.0)
    else
      var head, tail := ValueIn(terms[0], known), MaxIn(terms[1..], known);
      if head.Some? && tail.Some? then Some(Larger(head.value, tail.value)) else None
  }

  lemma PairIn(a: BoundExpr, b: BoundExpr, known: Statistics)
    ensures ValueIn(Product([a, b]), known)
         == if ValueIn(a, known).Some? && ValueIn(b, known).Some? then Some(TimesOf(ValueIn(a, known).value, ValueIn(b, known).value)) else None
  {
    FactorIn(b, [], known);
    FactorIn(a, [b], known);
    assert [b] + [] == [b] && [a] + [b] == [a, b];
    hide ValueIn, ProductIn, TimesOf;
    if ValueIn(b, known).Some? { TimesOne(ValueIn(b, known).value); }
  }

  lemma FactorIn(head: BoundExpr, rest: seq<BoundExpr>, known: Statistics)
    ensures ProductIn([head] + rest, known)
         == if ValueIn(head, known).Some? && ProductIn(rest, known).Some? then Some(TimesOf(ValueIn(head, known).value, ProductIn(rest, known).value))
            else None
    ensures ProductIn([], known) == Some(1.0)
    ensures ValueIn(Product([head] + rest), known) == ProductIn([head] + rest, known)
  {
    hide TimesOf;
    assert ([head] + rest)[1..] == rest;
  }

  lemma TimesOne(b: real)
    ensures TimesOf(b, 1.0) == b
  {
  }

  /** The norm a metric's bound is a share of. */
  function NormOf(metric: Metric): string {
    if metric == AbsoluteStreamL1 then "stream_l1_norm" else "stream_l2_norm"
  }

  /** The stream's norm is its source's own, or, with a constant weight, the weight's size times the source's rows. */
  predicate NormIs(metric: Metric, norm: StreamNorm, known: Statistics) {
    match norm
    case SourceNorm(source) => known(NormOf(metric)) == known(NormOf(metric) + "[" + source + "]")
    case ConstantWeight(weight, source) =>
      var rows := NonNegative(known("stream_row_count[" + source + "]"));
      known(NormOf(metric)) == if rows.Some? then Some(TimesOf(Magnitude(weight), rows.value)) else None
  }

  /** A bound that is a share of a stream's norm is, restated, that share of the norm in value units. */
  lemma RestatedIsShare(g: Guarantee, known: Statistics)
    requires (g.metric == AbsoluteStreamL1 || g.metric == AbsoluteStreamL2) && !IsZero(g.error)
    ensures var r := AdditiveAsAbsolute(g, None);
      var share, norm := ValueIn(g.error, known), NonNegative(known(NormOf(g.metric)));
      && r.metric == Absolute && r.failure == g.failure
      && ValueIn(r.error, known) == if share.Some? && norm.Some? then Some(TimesOf(share.value, norm.value)) else None
  {
    PairIn(g.error, Unknown(NormOf(g.metric)), known);
    hide ValueIn;
    assert AdditiveAsAbsolute(g, None).error == Product([g.error, Unknown(NormOf(g.metric))]);
    UnknownIn(NormOf(g.metric), known);
    assert !g.IsExact();
  }

  lemma UnknownIn(statistic: string, known: Statistics)
    ensures ValueIn(Unknown(statistic), known) == NonNegative(known(statistic))
  {
  }

  /** Naming the norm the bound is over changes none of its values, when the share itself needs no statistic of its own. */
  lemma NamedNormAgrees(g: Guarantee, norm: StreamNorm, known: Statistics)
    requires (g.metric == AbsoluteStreamL1 || g.metric == AbsoluteStreamL2) && !IsZero(g.error) && !g.error.Unknown?
    requires NormIs(g.metric, norm, known)
    ensures ValueIn(AdditiveAsAbsolute(g, Some(norm)).error, known) == ValueIn(AdditiveAsAbsolute(g, None).error, known)
    ensures AdditiveAsAbsolute(g, Some(norm)).metric == Absolute && AdditiveAsAbsolute(g, Some(norm)).failure == g.failure
  {
    var statistic := Unknown(NormOf(g.metric));
    var named := NamedNorm(g.metric, norm);
    NamedPair(g.error, g.metric, norm);
    NamedNormIs(g.metric, norm, known);
    PairIn(g.error, statistic, known);
    PairIn(g.error, named, known);
    hide ValueIn, NormIs, NamedNorm;
    assert AdditiveAsAbsolute(g, None).error == Product([g.error, statistic]);
    assert AdditiveAsAbsolute(g, Some(norm)).error == Product([g.error, named]);
  }

  function NamedNorm(metric: Metric, norm: StreamNorm): BoundExpr {
    match norm
    case SourceNorm(source) => Unknown(NormOf(metric) + "[" + source + "]")
    case ConstantWeight(weight, source) => Product([Constant(Magnitude(weight)), Unknown("stream_row_count[" + source + "]")])
  }

  lemma NamedPair(share: BoundExpr, metric: Metric, norm: StreamNorm)
    requires !share.Unknown?
    ensures NamedFactors([share, Unknown(NormOf(metric))], norm) == [share, NamedNorm(metric, norm)]
  {
    var factors := [share, Unknown(NormOf(metric))];
    assert factors[1..] == [Unknown(NormOf(metric))] && factors[1..][1..] == [];
    assert STREAM_ROW_COUNT + "[" == "stream_row_count[";
    assert NamedFactors(factors[1..], norm) == [NamedNorm(metric, norm)];
  }

  lemma NamedNormIs(metric: Metric, norm: StreamNorm, known: Statistics)
    requires NormIs(metric, norm, known)
    ensures ValueIn(NamedNorm(metric, norm), known) == NonNegative(known(NormOf(metric)))
  {
    if norm.ConstantWeight? {
      var weight, statistic := Magnitude(norm.weight), "stream_row_count[" + norm.source + "]";
      PairIn(Constant(weight), Unknown(statistic), known);
      UnknownIn(statistic, known);
      WeightKnown(weight, known);
      hide ValueIn;
      if ValueIn(Unknown(statistic), known).Some? { Weighted(weight, ValueIn(Unknown(statistic), known).value); }
      assert NamedNorm(metric, norm) == Product([Constant(weight), Unknown(statistic)]);
    }
  }

  lemma WeightKnown(weight: real, known: Statistics)
    requires weight >= 0.0
    ensures ValueIn(Constant(weight), known) == Some(weight)
  {
  }

  lemma Weighted(weight: real, rows: real)
    requires weight >= 0.0 && rows >= 0.0
    ensures TimesOf(weight, rows) >= 0.0
  {
  }

  /** A share that is itself a statistic is taken for the norm: a share of one half of ten rows comes out as all hundred. */
  lemma UnknownShareIsLost()
    ensures var g := Guarantee(AbsoluteStreamL1, Unknown("share"), ZeroProbability, []);
      var known: Statistics := (s: string) =>
        if s == "share" then Some(0.5) else if s == "stream_l1_norm" || s == "stream_row_count[m]" then Some(10.0) else None;
      && NormIs(g.metric, ConstantWeight(1.0, "m"), known)
      && ValueIn(AdditiveAsAbsolute(g, None).error, known) == Some(5.0)
      && ValueIn(AdditiveAsAbsolute(g, Some(ConstantWeight(1.0, "m"))).error, known) == Some(100.0)
  {
    var g := Guarantee(AbsoluteStreamL1, Unknown("share"), ZeroProbability, []);
    var known: Statistics := (s: string) =>
      if s == "share" then Some(0.5) else if s == "stream_l1_norm" || s == "stream_row_count[m]" then Some(10.0) else None;
    var rows := Product([Constant(Magnitude(1.0)), Unknown("stream_row_count[m]")]);
    assert "stream_row_count[" + "m" + "]" == "stream_row_count[m]";
    assert STREAM_ROW_COUNT + "[" + "m" + "]" == "stream_row_count[m]";
    assert known("stream_row_count[m]") == Some(10.0) && known("stream_l1_norm") == Some(10.0) && known("share") == Some(0.5);
    PairIn(g.error, Unknown("stream_l1_norm"), known);
    PairIn(Constant(Magnitude(1.0)), Unknown("stream_row_count[m]"), known);
    PairIn(rows, rows, known);
    var factors := [g.error, Unknown("stream_l1_norm")];
    assert factors[1..] == [Unknown("stream_l1_norm")] && factors[1..][1..] == [];
    assert NamedFactors(factors[1..], ConstantWeight(1.0, "m")) == [rows];
    assert NamedFactors(factors, ConstantWeight(1.0, "m")) == [rows] + [rows];
    assert [rows] + [rows] == [rows, rows];
  }

  // --------------------------------------------- when naming changes nothing

  /** Whatever is known, naming the norm leaves the bound's value as it is. */
  ghost predicate NamingAgrees(g: Guarantee, norm: StreamNorm) {
    forall known: Statistics :: NormIs(g.metric, norm, known) ==> SameValue(g, norm, known)
  }

  predicate SameValue(g: Guarantee, norm: StreamNorm, known: Statistics) {
    ValueIn(AdditiveAsAbsolute(g, Some(norm)).error, known) == ValueIn(AdditiveAsAbsolute(g, None).error, known)
  }

  function RowsOf(source: string): string {
    "stream_row_count[" + source + "]"
  }

  /** The statistic is the norm itself, or the rows of a source that all weigh nothing or one. */
  predicate StandsForNorm(statistic: string, metric: Metric, norm: StreamNorm) {
    || statistic == NormOf(metric)
    || (norm.ConstantWeight? && statistic == RowsOf(norm.source) && Magnitude(norm.weight) in [0.0, 1.0])
  }

  /** Naming the norm keeps every value exactly when the share is no statistic, or one that stands for the norm. */
  lemma NamingAgreesIff(g: Guarantee, norm: StreamNorm)
    requires (g.metric == AbsoluteStreamL1 || g.metric == AbsoluteStreamL2) && !IsZero(g.error)
    ensures NamingAgrees(g, norm) <==> (g.error.Unknown? ==> StandsForNorm(g.error.statistic, g.metric, norm))
  {
    hide ValueIn, NormIs, SameValue, StandsForNorm;
    if !g.error.Unknown? {
      forall known: Statistics | NormIs(g.metric, norm, known) ensures SameValue(g, norm, known) {
        NamedNormAgrees(g, norm, known);
        IsSame(g, norm, known);
      }
    } else if StandsForNorm(g.error.statistic, g.metric, norm) {
      forall known: Statistics | NormIs(g.metric, norm, known) ensures SameValue(g, norm, known) {
        StandInAgrees(g, norm, known);
      }
    } else {
      var known := NamingChanges(g, norm);
    }
  }

  lemma IsSame(g: Guarantee, norm: StreamNorm, known: Statistics)
    requires ValueIn(AdditiveAsAbsolute(g, Some(norm)).error, known) == ValueIn(AdditiveAsAbsolute(g, None).error, known)
    ensures SameValue(g, norm, known)
  {
  }

  /** What is put for an unknown share. */
  function NamedShare(statistic: string, norm: StreamNorm): BoundExpr {
    match norm
    case SourceNorm(source) => Unknown(statistic + "[" + source + "]")
    case ConstantWeight(weight, source) => Product([Constant(Magnitude(weight)), Unknown(RowsOf(source))])
  }

  lemma UnknownPair(statistic: string, metric: Metric, norm: StreamNorm)
    ensures NamedFactors([Unknown(statistic), Unknown(NormOf(metric))], norm) == [NamedShare(statistic, norm), NamedNorm(metric, norm)]
  {
    var factors := [Unknown(statistic), Unknown(NormOf(metric))];
    assert factors[1..] == [Unknown(NormOf(metric))] && factors[1..][1..] == [];
    assert STREAM_ROW_COUNT + "[" == "stream_row_count[";
    assert NamedFactors(factors[1..], norm) == [NamedNorm(metric, norm)];
  }

  /** A bound's value as a share of a norm: `None` unless both are known. */
  function ShareOf(share: Option<real>, norm: Option<real>): Option<real> {
    if share.Some? && norm.Some? then Some(TimesOf(share.value, norm.value)) else None
  }

  lemma UnknownShare(g: Guarantee, norm: StreamNorm, known: Statistics)
    requires (g.metric == AbsoluteStreamL1 || g.metric == AbsoluteStreamL2) && g.error.Unknown? && NormIs(g.metric, norm, known)
    ensures var n := NonNegative(known(NormOf(g.metric)));
      && ValueIn(AdditiveAsAbsolute(g, None).error, known) == ShareOf(NonNegative(known(g.error.statistic)), n)
      && ValueIn(AdditiveAsAbsolute(g, Some(norm)).error, known)
         == ShareOf(if norm.SourceNorm? then NonNegative(known(g.error.statistic + "[" + norm.source + "]")) else n, n)
  {
    var s, n := g.error.statistic, NonNegative(known(NormOf(g.metric)));
    RestatedIsShare(g, known);
    UnknownIn(s, known);
    UnknownPair(s, g.metric, norm);
    NamedNormIs(g.metric, norm, known);
    var share, named := NamedShare(s, norm), NamedNorm(g.metric, norm);
    PairIn(share, named, known);
    if norm.SourceNorm? {
      UnknownIn(s + "[" + norm.source + "]", known);
    } else {
      assert share == named;
    }
    hide ValueIn, NormIs, NamedNorm, NamedShare;
    assert AdditiveAsAbsolute(g, Some(norm)).error == Product([share, named]);
  }

  lemma StandInAgrees(g: Guarantee, norm: StreamNorm, known: Statistics)
    requires (g.metric == AbsoluteStreamL1 || g.metric == AbsoluteStreamL2) && g.error.Unknown? && NormIs(g.metric, norm, known)
    requires StandsForNorm(g.error.statistic, g.metric, norm)
    ensures SameValue(g, norm, known)
  {
    UnknownShare(g, norm, known);
    var s := g.error.statistic;
    hide ValueIn, AdditiveAsAbsolute;
    if s == NormOf(g.metric) {
      if norm.SourceNorm? { assert s + "[" + norm.source + "]" == NormOf(g.metric) + "[" + norm.source + "]"; }
    } else {
      var rows := NonNegative(known(s));
      if rows.Some? { WeightOfNoneOrOne(Magnitude(norm.weight), rows.value); }
    }
  }

  lemma WeightOfNoneOrOne(weight: real, rows: real)
    requires (weight == 0.0 || weight == 1.0) && rows >= 0.0
    ensures TimesOf(weight, rows) >= 0.0 && TimesOf(rows, TimesOf(weight, rows)) == TimesOf(TimesOf(weight, rows), TimesOf(weight, rows))
  {
  }

  /** Statistics for which naming the norm changes the value. */
  lemma NamingChanges(g: Guarantee, norm: StreamNorm) returns (known: Statistics)
    requires (g.metric == AbsoluteStreamL1 || g.metric == AbsoluteStreamL2) && g.error.Unknown?
    requires !StandsForNorm(g.error.statistic, g.metric, norm)
    ensures NormIs(g.metric, norm, known) && !SameValue(g, norm, known)
  {
    var s, n := g.error.statistic, NormOf(g.metric);
    match norm {
      case SourceNorm(source) =>
        var t, u := s + "[" + source + "]", n + "[" + source + "]";
        known := (x: string) => if x == t then None else Some(1.0);
        OtherNames(s, n, source);
        UnknownShare(g, norm, known);
      case ConstantWeight(weight, source) =>
        var w, rows := Magnitude(weight), RowsOf(source);
        known := (x: string) => if x == n then Some(TimesOf(w, 1.0)) else if x == s && s != rows then None else Some(1.0);
        assert rows[|rows| - 1] == ']' && rows != n;
        Squared(w);
        UnknownShare(g, norm, known);
    }
  }

  lemma OtherNames(s: string, n: string, source: string)
    requires n == "stream_l1_norm" || n == "stream_l2_norm"
    requires s != n
    ensures var t := s + "[" + source + "]"; t != s && t != n && t != n + "[" + source + "]"
  {
    var t, u := s + "[" + source + "]", n + "[" + source + "]";
    assert t[|t| - 1] == ']' && |t| > |s|;
    if |s| == |n| {
      assert exists k :: 0 <= k < |s| && s[k] != n[k];
      var k :| 0 <= k < |s| && s[k] != n[k];
      assert t[k] == s[k] && u[k] == n[k];
    }
  }

  lemma Squared(w: real)
    requires w >= 0.0
    ensures TimesOf(w, 1.0) == w && TimesOf(1.0, w) == w && (TimesOf(w, w) == w ==> w == 0.0 || w == 1.0)
  {
    if w > 1.0 {
      Positive(w, w - 1.0);
    } else if 0.0 < w < 1.0 {
      Positive(w, 1.0 - w);
    }
  }

  lemma Positive(x: real, y: real)
    requires x > 0.0 && y > 0.0
    ensures x * y > 0.0
  {
  }
}
